/** The g, G, p, P and ? packets and the replies to resumptions (src/server.c, src/regcache.c
    and prepare_resume_reply in src/remote-utils.c), from packet text to reply text. */
module RegisterServer {
  import opened Memory
  import opened DarwinMemory
  import opened Protocol
  import opened Text
  import opened CLibrary
  import opened HexCodec
  import opened RegisterLayout
  import opened RegisterCache
  import opened RegisterRuns
  import Threads

  const LOWER_G: byte := 103
  const UPPER_G: byte := 71
  const LOWER_P: byte := 112
  const UPPER_P: byte := 80
  const QUESTION_MARK: byte := 63
  const EQUALS: byte := 61
  const THREAD: seq<byte> := [116, 104, 114, 101, 97, 100, 58]   // thread:

  const REGISTER_BYTES: nat := 412

  /** What a packet asks for. `Fail` and `Drop` are calls of `error`, which abandon the packet
      without a reply: `Fail` is a G packet, of which the bytes before the bad digit are stored,
      `Drop` a P packet, of which nothing is. `Refuse` is the reply E01. */
  datatype Parsed = Do(command: Command) | Fail(prefix: seq<byte>) | Drop | Refuse | Other

  /** How many whole bytes of a G packet are looked at: no more than there are registers, and
      not an odd digit at the end. */
  function PairsTaken(digits: seq<byte>): nat {
    (if |digits| > 2 * REGISTER_BYTES then 2 * REGISTER_BYTES else |digits|) / 2
  }

  function RegCommand(text: seq<byte>): Parsed {
    if text == [] then Other
    else if text[0] == QUESTION_MARK then Do(Question)
    else if text[0] == LOWER_G then Do(ReadAll)
    else if text[0] == UPPER_G then WriteAllCommand(text[1..])
    else if text[0] == LOWER_P then
      var regno := Strtol(text, 1).0;
      if regno < 0 then Refuse else Do(ReadOne(regno))
    else if text[0] == UPPER_P then
      WriteOneCommand(text, Strtol(text, 1).0, Strtol(text, 1).1)
    else Other
  }

  function WriteAllCommand(digits: seq<byte>): Parsed {
    var n := PairsTaken(digits);
    var good := GoodPairs(digits, n);
    var prefix := HexDecode(digits, good);
    if good == n then Do(WriteAll(prefix)) else Fail(prefix)
  }

  /** A P packet whose register number has been read up to `end`. */
  function WriteOneCommand(text: seq<byte>, regno: int, end: nat): Parsed
    requires end <= |text|
  {
    var digits := text[if CharAt(text, end) == EQUALS then end + 1 else end..];
    if regno < 0 then Refuse
    else if GoodPairs(digits, PpcWidth(regno)) < PpcWidth(regno) then Drop
    else Do(WriteOne(regno, HexDecode(digits, PpcWidth(regno))))
  }

  /** The register that a p or P packet names, if it does, is in the table; the source does not
      look. */
  predicate Exists(text: seq<byte>) {
    CharAt(text, 0) in {LOWER_P, UPPER_P} ==> Strtol(text, if text == [] then 0 else 1).0 < PPC_NUM_REGS
  }

  predicate Defined(sizes: seq<nat>, text: seq<byte>)
    requires PpcTable(sizes)
  {
    Exists(text) && (RegCommand(text).Do? ==> Fits(sizes, RegCommand(text).command))
  }

  /** What a packet does to the registers. */
  function After(sizes: seq<nat>, s: State, p: Parsed): (t: State)
    requires Shaped(sizes, s) && (p.Do? ==> Fits(sizes, p.command))
    ensures Shaped(sizes, t)
  {
    match p
    case Do(c) => Step(sizes, s, c)
    case Fail(prefix) => Step(sizes, s, WriteAll(prefix))
    case _ => s
  }

  // ---------- replies ----------

  /** outreg: one expedited register. */
  function Outreg(sizes: seq<nat>, regs: seq<byte>, n: nat): seq<byte>
    requires PpcTable(sizes) && |regs| == RegisterBytes(sizes) && n < PPC_NUM_REGS
  {
    [ToHex(n / 16), ToHex(n % 16), COLON] + HexEncode(RegAt(sizes, regs, n)) + [SEMICOLON]
  }

  /** What follows the signal of a stopped thread: registers r1 and pc, and the thread. */
  function Details(sizes: seq<nat>, id: nat, regs: seq<byte>): seq<byte>
    requires PpcTable(sizes) && |regs| == RegisterBytes(sizes)
  {
    Outreg(sizes, regs, 1) + Outreg(sizes, regs, 64) + (THREAD + HexNumber(id) + [SEMICOLON])
  }

  /** prepare_resume_reply for thread `id`; `signals` is target_signal_from_host. */
  function StopReply(sizes: seq<nat>, signals: byte -> byte, id: nat, regs: seq<byte>, stop: Stop): seq<byte>
    requires PpcTable(sizes) && |regs| == RegisterBytes(sizes)
  {
    var sig := signals(stop.signal);
    [stop.status, ToHex(sig / 16), ToHex(sig % 16)]
    + if stop.status == STOPPED then Details(sizes, id, regs) else []
  }

  /** The reply to a command, given the bytes that it read, and the registers and the stop once
      it is done. */
  function ReplyText(sizes: seq<nat>, signals: byte -> byte, id: nat, c: Command,
                     found: seq<byte>, regs: seq<byte>, stop: Stop): seq<byte>
    requires PpcTable(sizes) && |regs| == RegisterBytes(sizes)
  {
    match c
    case Question => StopReply(sizes, signals, id, regs, stop)
    case Resume(_, _) => StopReply(sizes, signals, id, regs, stop)
    case ReadAll => HexEncode(found)
    case ReadOne(_) => HexEncode(found)
    case WriteAll(_) => OK
    case WriteOne(_, _) => OK
  }

  function Reply(sizes: seq<nat>, signals: byte -> byte, id: nat, s: State, c: Command): seq<byte>
    requires Shaped(sizes, s) && Fits(sizes, c)
  {
    var t := Step(sizes, s, c);
    ReplyText(sizes, signals, id, c, Output(sizes, s, c), View(t), t.stop)
  }

  lemma {:induction false} PpcOffset(sizes: seq<nat>, n: nat)
    requires PpcTable(sizes) && n <= |sizes|
    ensures BitOffset(sizes, n) ==
            if n <= 32 then 32 * n else if n <= 64 then 1024 + 64 * (n - 32) else 3072 + 32 * (n - 64)
  {
    if n > 0 {
      PpcOffset(sizes, n - 1);
    }
  }

  /** register_bytes of the PowerPC table */
  lemma PpcBytes(sizes: seq<nat>)
    requires PpcTable(sizes)
    ensures RegisterBytes(sizes) == REGISTER_BYTES
  {
    PpcOffset(sizes, PPC_NUM_REGS);
  }

  lemma OutregIsText(sizes: seq<nat>, regs: seq<byte>, n: nat)
    requires PpcTable(sizes) && |regs| == RegisterBytes(sizes) && n < PPC_NUM_REGS
    ensures NUL !in Outreg(sizes, regs, n)
  {
    HexIsText(RegAt(sizes, regs, n), 0);
  }

  lemma ReplyIsText(sizes: seq<nat>, signals: byte -> byte, id: nat, regs: seq<byte>, stop: Stop)
    requires PpcTable(sizes) && |regs| == RegisterBytes(sizes) && id <= ULONG_MAX && stop.status != NUL
    ensures NUL !in StopReply(sizes, signals, id, regs, stop) && |HexNumber(id)| <= 8
  {
    OutregIsText(sizes, regs, 1);
    OutregIsText(sizes, regs, 64);
    HexIsText([], id);
    assert NUL !in Details(sizes, id, regs);
    HexNumberLength(id, 8);
    assert Power16(8) == 0x1_0000_0000;
  }

  lemma Concat4(a: seq<byte>, b: seq<byte>, c: seq<byte>, d: seq<byte>)
    ensures a + b + c + d == a + (b + c + d)
  {}

  lemma StopReplyFits(sizes: seq<nat>, signals: byte -> byte, id: nat, regs: seq<byte>, stop: Stop)
    requires PpcTable(sizes) && |regs| == RegisterBytes(sizes) && id <= ULONG_MAX && stop.status != NUL
    ensures NUL !in StopReply(sizes, signals, id, regs, stop)
    ensures |StopReply(sizes, signals, id, regs, stop)| <= 50
  {
    ReplyIsText(sizes, signals, id, regs, stop);
    assert |Outreg(sizes, regs, 1)| == 12 && |Outreg(sizes, regs, 64)| == 12;
    assert |Details(sizes, id, regs)| <= 24 + 16;
  }

  lemma OverwrittenIs(prefix: seq<byte>, before: seq<byte>, after: seq<byte>)
    requires |prefix| <= |before| == |after| && after[..|prefix|] == prefix
    requires forall i :: |prefix| <= i < |after| ==> after[i] == before[i]
    ensures after == Overwritten(prefix, before)
  {}

  // ---------- the handlers ----------

  class Server {
    const thread: Thread           // current_inferior
    const ownBuf: array<byte>
    const signals: byte -> byte
    /** status and signal, which packet_loop keeps for the next ? packet */
    var stop: Stop
    /** where general_thread is */
    const control: Threads.Control

    constructor (thread: Thread, signals: byte -> byte, stop: Stop, ownBuf: array<byte>, control: Threads.Control)
      requires thread.Ready() && stop.status != NUL && 0 <= thread.id <= ULONG_MAX
      requires ownBuf.Length == PBUFSIZ && ownBuf != thread.registers
      ensures Ready() && this.thread == thread && this.stop == stop && this.signals == signals
      ensures this.ownBuf == ownBuf && this.control == control
    {
      this.thread, this.signals, this.stop, this.ownBuf, this.control := thread, signals, stop, ownBuf, control;
    }

    ghost predicate Ready()
      reads this, thread
    {
      && thread.Ready() && ownBuf.Length == PBUFSIZ && ownBuf != thread.registers
      && stop.status != NUL && 0 <= thread.id <= ULONG_MAX
    }

    ghost function Abs(): (s: State)
      requires Ready()
      reads this, thread, thread.registers
      ensures Shaped(thread.sizes, s) && View(s) == thread.Regs()
    {
      State(thread.valid, thread.registers[..], Flat(thread.sizes, thread.hw), stop)
    }

    /** The text that a command is answered with from here. */
    ghost function ReplyTo(c: Command): seq<byte>
      requires Ready() && Fits(thread.sizes, c)
      reads this, thread, thread.registers
    {
      Reply(thread.sizes, signals, thread.id, Abs(), c)
    }

    /** Write at the cursor `pos` and move it on. */
    method Put(pos: nat, text: seq<byte>) returns (end: nat)
      requires pos + |text| <= ownBuf.Length
      modifies ownBuf
      ensures end == pos + |text| && ownBuf[..end] == old(ownBuf[..pos]) + text
    {
      Target.CopyIn(ownBuf, pos, text);
      end := pos + |text|;
    }

    /** End the reply. */
    method Finish(pos: nat)
      requires pos < ownBuf.Length && NUL !in ownBuf[..pos]
      modifies ownBuf
      ensures Str(ownBuf[..]) == old(ownBuf[..pos])
    {
      ghost var text := ownBuf[..pos];
      var end := Put(pos, [NUL]);
      assert ownBuf[..][..pos] == text;
      StrIs(ownBuf[..], pos);
    }

    /** write_ok and write_enn */
    method WriteReply(text: seq<byte>)
      requires |text| < ownBuf.Length && NUL !in text
      modifies ownBuf
      ensures Str(ownBuf[..]) == text
    {
      var end := Put(0, text);
      assert ownBuf[..end] == text;
      Finish(end);
    }

    /** handle_g_read_regs with registers_to_string */
    method HandleReadAll()
      requires Ready()
      modifies ownBuf, thread`valid, thread.registers
      ensures Ready() && Abs() == Step(thread.sizes, old(Abs()), ReadAll)
      ensures Str(ownBuf[..]) == old(ReplyTo(ReadAll))
    {
      PpcBytes(thread.sizes);
      thread.GetRegcache(true);
      var n := thread.registers.Length;
      ConvertIntToAscii(thread.registers, ownBuf, n);
      assert thread.registers[..n] == thread.registers[..];
      assert ownBuf[..][..2 * n] == HexEncode(thread.registers[..]);
      StrIs(ownBuf[..], 2 * n);
    }

    /** registers_from_string: also when `error` cuts it short, what was read up to there is
        stored. */
    method RegistersFromString(digits: seq<byte>) returns (ok: bool)
      requires Ready()
      modifies thread`valid, thread.registers
      ensures Ready()
      ensures var n := PairsTaken(digits);
              var good := GoodPairs(digits, n);
              && ok == (good == n)
              && Abs() == Step(thread.sizes, old(Abs()), WriteAll(HexDecode(digits, good)))
    {
      PpcBytes(thread.sizes);
      var len := |digits|;
      thread.GetRegcache(true);
      if len != 2 * REGISTER_BYTES {
        if len > 2 * REGISTER_BYTES {
          len := 2 * REGISTER_BYTES;
        }
      }
      ghost var buf, good := thread.registers[..], GoodPairs(digits, len / 2);
      ok := ConvertAsciiToInt(digits, thread.registers, len / 2);
      OverwrittenIs(HexDecode(digits, good), buf, thread.registers[..]);
    }

    /** handle_G_write_regs */
    method HandleWriteAll() returns (ok: bool)
      requires Ready() && Str(ownBuf[..]) != [] && Str(ownBuf[..])[0] == UPPER_G
      modifies ownBuf, thread`valid, thread.registers
      ensures Ready()
      ensures var p := RegCommand(Str(old(ownBuf[..])));
              && (p.Do? || p.Fail?) && ok == p.Do?
              && Abs() == Step(thread.sizes, old(Abs()), if p.Do? then p.command else WriteAll(p.prefix))
              && Str(ownBuf[..]) == if ok then OK else Str(old(ownBuf[..]))
    {
      ok := RegistersFromString(Str(ownBuf[..])[1..]);
      if ok {
        WriteReply(OK);
      }
    }

    /** handle_p_read_reg with collect_register_as_string */
    method HandleReadOne()
      requires Ready() && Str(ownBuf[..]) != [] && Str(ownBuf[..])[0] == LOWER_P
      requires Strtol(Str(ownBuf[..]), 1).0 < PPC_NUM_REGS
      modifies ownBuf, thread`valid, thread.registers
      ensures Ready()
      ensures var p := RegCommand(Str(old(ownBuf[..])));
              if p.Do? then
                Abs() == Step(thread.sizes, old(Abs()), p.command) && Str(ownBuf[..]) == old(ReplyTo(p.command))
              else Abs() == old(Abs()) && Str(ownBuf[..]) == ERROR
    {
      var text := Str(ownBuf[..]);
      var regno := Strtol(text, 1).0;
      if regno >= 0 {
        var data := thread.CollectRegister(regno);
        WriteReply(HexEncode(data));
      } else {
        WriteReply(ERROR);
      }
    }

    /** Read one register's digits and supply it to the cache, whether that is valid or not. */
    method SupplyFromString(n: nat, digits: seq<byte>) returns (ok: bool)
      requires Ready() && n < PPC_NUM_REGS
      modifies thread.registers
      ensures Ready() && ok == (GoodPairs(digits, PpcWidth(n)) == PpcWidth(n))
      ensures Abs() == if ok then Step(thread.sizes, old(Abs()), WriteOne(n, HexDecode(digits, PpcWidth(n))))
                       else old(Abs())
    {
      var regBuf := new byte[16](_ => 0);
      var size := PpcWidth(n);
      ok := ConvertAsciiToInt(digits, regBuf, size);
      if ok {
        thread.SupplyRegister(n, regBuf[..size]);
      }
    }

    /** handle_P_write_reg */
    method HandleWriteOne() returns (ok: bool)
      requires Ready() && Str(ownBuf[..]) != [] && Str(ownBuf[..])[0] == UPPER_P
      requires Strtol(Str(ownBuf[..]), 1).0 < PPC_NUM_REGS
      modifies ownBuf, thread.registers
      ensures Ready()
      ensures var p := RegCommand(Str(old(ownBuf[..])));
              && ok == !p.Drop?
              && Abs() == (if p.Do? then Step(thread.sizes, old(Abs()), p.command) else old(Abs()))
              && Str(ownBuf[..]) == if p.Do? then OK else if p.Drop? then Str(old(ownBuf[..])) else ERROR
    {
      var text := Str(ownBuf[..]);
      var (regno, end) := Strtol(text, 1);
      if CharAt(text, end) == EQUALS {
        end := end + 1;
      }
      if regno < 0 {
        WriteReply(ERROR);
        return true;
      }
      ok := SupplyFromString(regno, text[end..]);
      ghost var s := Abs();
      if ok {
        WriteReply(OK);
        assert Abs() == s;
      }
    }

    /** outreg at the cursor */
    method PutRegister(pos: nat, n: nat) returns (end: nat)
      requires Ready() && n < PPC_NUM_REGS && pos + 20 <= ownBuf.Length
      modifies ownBuf, thread`valid, thread.registers
      ensures Ready() && Abs() == Fetched(old(Abs())) && end <= pos + 20 <= ownBuf.Length
      ensures ownBuf[..end] == old(ownBuf[..pos]) + Outreg(thread.sizes, old(thread.Regs()), n)
    {
      var data := thread.CollectRegister(n);
      end := PutAround(pos, [ToHex(n / 16), ToHex(n % 16), COLON], HexEncode(data), [SEMICOLON]);
    }

    /** Three texts one after the other. */
    method PutAround(pos: nat, before: seq<byte>, text: seq<byte>, after: seq<byte>) returns (end: nat)
      requires pos + |before| + |text| + |after| <= ownBuf.Length
      modifies ownBuf
      ensures end == pos + |before| + |text| + |after|
      ensures ownBuf[..end] == old(ownBuf[..pos]) + (before + text + after)
    {
      ghost var head := ownBuf[..pos];
      end := Put(pos, before);
      end := Put(end, text);
      end := Put(end, after);
      Concat4(head, before, text, after);
    }

    /** The part of a stop reply that only a stopped thread has. */
    method PutDetails(pos: nat) returns (end: nat)
      requires Ready() && pos + 60 <= ownBuf.Length && |HexNumber(thread.id)| <= 8
      modifies ownBuf, control`generalThread, thread`valid, thread.registers
      ensures Ready() && Abs() == Fetched(old(Abs())) && control.generalThread == thread.id
      ensures end <= pos + 60 <= ownBuf.Length
      ensures ownBuf[..end] == old(ownBuf[..pos]) + Details(thread.sizes, thread.id, old(thread.Regs()))
    {
      ghost var regs := thread.Regs();
      end := PutRegister(pos, 1);
      end := PutRegister(end, 64);
      control.generalThread := thread.id;
      var id := HexNumber(thread.id);
      end := PutAround(end, THREAD, id, [SEMICOLON]);
      Concat4(old(ownBuf[..pos]), Outreg(thread.sizes, regs, 1), Outreg(thread.sizes, regs, 64),
              THREAD + id + [SEMICOLON]);
    }

    /** The text of a reply, without the NUL. */
    method PutStop() returns (end: nat)
      requires Ready() && |HexNumber(thread.id)| <= 8
      modifies ownBuf, control`generalThread, thread`valid, thread.registers
      ensures Ready() && Abs() == if stop.status == STOPPED then Fetched(old(Abs())) else old(Abs())
      ensures end <= 63 && ownBuf[..end] == StopReply(thread.sizes, signals, thread.id, old(thread.Regs()), stop)
      ensures control.generalThread == if stop.status == STOPPED then thread.id else old(control.generalThread)
    {
      hide Details, HexNumber;
      var sig := signals(stop.signal);
      end := Put(0, [stop.status, ToHex(sig / 16), ToHex(sig % 16)]);
      if stop.status == STOPPED {
        end := PutDetails(end);
      }
    }

    /** prepare_resume_reply; for a stop it collects registers, which makes the cache valid. */
    method PrepareResumeReply()
      requires Ready()
      modifies ownBuf, control`generalThread, thread`valid, thread.registers
      ensures Ready() && Abs() == if stop.status == STOPPED then Fetched(old(Abs())) else old(Abs())
      ensures Str(ownBuf[..]) == StopReply(thread.sizes, signals, thread.id, old(thread.Regs()), stop)
      ensures control.generalThread == if stop.status == STOPPED then thread.id else old(control.generalThread)
    {
      ReplyIsText(thread.sizes, signals, thread.id, thread.Regs(), stop);
      var end := PutStop();
      Finish(end);
    }

    /** handle_question */
    method HandleQuestion()
      requires Ready()
      modifies ownBuf, control`generalThread, thread`valid, thread.registers
      ensures Ready() && Abs() == Step(thread.sizes, old(Abs()), Question)
      ensures Str(ownBuf[..]) == old(ReplyTo(Question))
    {
      PrepareResumeReply();
    }

    /** The end of darwin_resume: the cache is written back, and the inferior starts from there. */
    method WriteBack() returns (started: seq<byte>)
      requires Ready()
      modifies thread`hw, thread`valid
      ensures Ready() && started == old(thread.Regs())
      ensures Abs() == State(false, old(thread.registers[..]), started, stop)
    {
      thread.RegcacheInvalidateOne();
      started := thread.Snapshot();
    }

    /** The end of the c, s, C, S and vCont handlers: the inferior has stopped with the registers
        `ran` and for the reason `why`, and prepare_resume_reply answers. */
    method WaitAndReply(ran: seq<byte>, why: Stop)
      requires Ready() && |ran| == RegisterBytes(thread.sizes) && why.status != NUL && !thread.valid
      modifies ownBuf, this`stop, control`generalThread, thread`hw, thread`valid, thread.registers
      ensures Ready() && stop == why && Abs() == Step(thread.sizes, old(Abs()), Resume(ran, why))
      ensures Str(ownBuf[..]) == old(ReplyTo(Resume(ran, why)))
    {
      hide StopReply, HexEncode;
      thread.RunTo(ran);
      stop := why;
      PrepareResumeReply();
    }

    /** The ?, g, G, p and P branches of handle_packet; `spoken` is false after a call of `error`. */
    method HandlePacket() returns (spoken: bool)
      requires Ready()
      requires !RegCommand(Str(ownBuf[..])).Other? && Defined(thread.sizes, Str(ownBuf[..]))
      modifies ownBuf, control`generalThread, thread`valid, thread.registers
      ensures Ready()
      ensures var p := RegCommand(Str(old(ownBuf[..])));
              && spoken == (p.Do? || p.Refuse?)
              && Abs() == After(thread.sizes, old(Abs()), p)
              && (spoken ==> Str(ownBuf[..]) == if p.Do? then old(ReplyTo(p.command)) else ERROR)
    {
      hide Step;
      spoken := true;
      var letter := Str(ownBuf[..])[0];
      if letter == QUESTION_MARK {
        HandleQuestion();
      } else if letter == LOWER_G {
        HandleReadAll();
      } else if letter == UPPER_G {
        spoken := HandleWriteAll();
      } else if letter == LOWER_P {
        HandleReadOne();
      } else {
        spoken := HandleWriteOne();
      }
    }
  }

  // ---------- sessions in packet text ----------

  /** The commands that have a packet here; those that resume the inferior are the packets of
      module VCont and the single letters. */
  predicate Sendable(c: Command) {
    match c
    case WriteAll(prefix) => |prefix| <= REGISTER_BYTES
    case ReadOne(n) => n < PPC_NUM_REGS
    case WriteOne(n, data) => n < PPC_NUM_REGS && |data| == PpcWidth(n)
    case Resume(_, _) => false
    case _ => true
  }

  function Packet(c: Command): seq<byte>
    requires Sendable(c)
  {
    match c
    case Question => Ascii("?")
    case ReadAll => Ascii("g")
    case WriteAll(prefix) => Ascii("G") + HexEncode(prefix)
    case ReadOne(n) => Ascii("p") + HexNumber(n)
    case WriteOne(n, data) => Ascii("P") + HexNumber(n) + (Ascii("=") + HexEncode(data))
  }

  lemma NumberedPacket(letter: byte, n: nat, rest: seq<byte>)
    requires n < PPC_NUM_REGS && Ends(rest, 0)
    ensures var text := [letter] + HexNumber(n) + rest;
            && Strtol(text, 1) == (n, 1 + |HexNumber(n)|)
            && text[1 + |HexNumber(n)|..] == rest
  {
    HexNumberValue(n);
    var text := [letter] + HexNumber(n) + rest;
    StrtolReads(text, [letter], HexNumber(n), rest, false, 1);
  }

  lemma WriteOneParses(text: seq<byte>, n: nat, end: nat, data: seq<byte>)
    requires n < PPC_NUM_REGS && |data| == PpcWidth(n)
    requires end <= |text| && text[end..] == [EQUALS] + HexEncode(data)
    ensures WriteOneCommand(text, n, end) == Do(WriteOne(n, data))
  {
    assert text[end] == text[end..][0];
    assert text[end + 1..] == text[end..][1..] == HexEncode(data);
    HexRoundTripAlone(data);
  }

  lemma WriteOneText(text: seq<byte>, n: nat, end: nat, data: seq<byte>)
    requires n < PPC_NUM_REGS && |data| == PpcWidth(n) && text != [] && text[0] == UPPER_P
    requires Strtol(text, 1) == (n, end) && text[end..] == [EQUALS] + HexEncode(data)
    ensures RegCommand(text) == Do(WriteOne(n, data))
  {
    WriteOneParses(text, n, end, data);
  }

  lemma WriteOneRoundTrip(n: nat, data: seq<byte>)
    requires Sendable(WriteOne(n, data))
    ensures RegCommand(Packet(WriteOne(n, data))) == Do(WriteOne(n, data))
  {
    var text, rest := Packet(WriteOne(n, data)), [EQUALS] + HexEncode(data);
    assert text == [UPPER_P] + HexNumber(n) + rest by {
      hide HexNumber, HexEncode;
      assert Ascii("P") == [UPPER_P] && Ascii("=") == [EQUALS];
    }
    hide Packet, HexNumber, HexEncode, Strtol;
    NumberedPacket(UPPER_P, n, rest);
    WriteOneText(text, n, 1 + |HexNumber(n)|, data);
  }

  lemma WriteAllParses(digits: seq<byte>, prefix: seq<byte>)
    requires |prefix| <= REGISTER_BYTES && digits == HexEncode(prefix)
    ensures WriteAllCommand(digits) == Do(WriteAll(prefix))
  {
    HexRoundTripAlone(prefix);
    assert PairsTaken(digits) == |prefix|;
  }

  lemma WriteAllHeaded(digits: seq<byte>)
    ensures RegCommand([UPPER_G] + digits) == WriteAllCommand(digits)
  {
    hide WriteAllCommand, WriteOneCommand, Strtol;
    assert ([UPPER_G] + digits)[1..] == digits;
  }

  lemma WriteAllRoundTrip(prefix: seq<byte>)
    requires Sendable(WriteAll(prefix))
    ensures RegCommand(Packet(WriteAll(prefix))) == Do(WriteAll(prefix))
  {
    WriteAllParses(HexEncode(prefix), prefix);
    assert Ascii("G") == [UPPER_G];
    hide HexEncode, Ascii, WriteAllCommand, RegCommand;
    WriteAllHeaded(HexEncode(prefix));
  }

  lemma ReadOneRoundTrip(n: nat)
    requires Sendable(ReadOne(n))
    ensures RegCommand(Packet(ReadOne(n))) == Do(ReadOne(n))
  {
    assert Packet(ReadOne(n)) == [LOWER_P] + HexNumber(n) + [] by {
      hide HexNumber;
      assert Ascii("p") == [LOWER_P];
    }
    hide Packet, HexNumber, Strtol;
    NumberedPacket(LOWER_P, n, []);
  }

  /** The server understands each packet as it was meant. */
  lemma PacketRoundTrip(c: Command)
    requires Sendable(c)
    ensures RegCommand(Packet(c)) == Do(c)
  {
    match c
    case WriteAll(prefix) => WriteAllRoundTrip(prefix);
    case ReadOne(n) => ReadOneRoundTrip(n);
    case WriteOne(n, data) => WriteOneRoundTrip(n, data);
    case Question =>
    case ReadAll =>
  }

  /** Sending back what g replied restores every register, whatever happened in between. */
  lemma SaveAndRestore(sizes: seq<nat>, signals: byte -> byte, id: nat, s: State, t: State)
    requires Shaped(sizes, s) && Shaped(sizes, t)
    ensures var p := RegCommand(Ascii("G") + Reply(sizes, signals, id, s, ReadAll));
            p.Do? && Fits(sizes, p.command) && View(Step(sizes, t, p.command)) == View(s)
  {
    PpcBytes(sizes);
    WriteAllRoundTrip(View(s));
    hide RegCommand, Ascii, HexEncode;
    assert Ascii("G") + Reply(sizes, signals, id, s, ReadAll) == Packet(WriteAll(View(s)));
    assert Overwritten(View(s), View(t)) == View(s);
  }

  function Replies(sizes: seq<nat>, signals: byte -> byte, id: nat, s: State, cs: seq<Command>): seq<seq<byte>>
    requires Shaped(sizes, s) && AllFit(sizes, cs)
    decreases |cs|
  {
    if cs == [] then []
    else [Reply(sizes, signals, id, s, cs[0])] + Replies(sizes, signals, id, Step(sizes, s, cs[0]), cs[1..])
  }

  /** The replies of a server that keeps one register file `m` and no cache. */
  function PlainReplies(sizes: seq<nat>, signals: byte -> byte, id: nat, m: seq<byte>, stop: Stop,
                        cs: seq<Command>): seq<seq<byte>>
    requires PpcTable(sizes) && |m| == RegisterBytes(sizes) && AllFit(sizes, cs)
    decreases |cs|
  {
    if cs == [] then []
    else
      var c := cs[0];
      var after, last := PlainStep(sizes, m, c), if c.Resume? then c.stop else stop;
      [ReplyText(sizes, signals, id, c, PlainOutput(sizes, m, c), after, last)]
      + PlainReplies(sizes, signals, id, after, last, cs[1..])
  }

  /** A session whose cache is valid, or that starts with any of ?, g, G or p: each packet is
      understood, and answered, text for text, as if there were one register file. */
  lemma {:induction false} SessionOfPackets(sizes: seq<nat>, signals: byte -> byte, id: nat, s: State,
                                            cs: seq<Command>)
    requires Shaped(sizes, s) && AllFit(sizes, cs) && Stops(cs)
    requires s.valid || (cs != [] && Primes(s, cs[0]))
    requires forall i :: 0 <= i < |cs| ==> cs[i].Resume? || Sendable(cs[i])
    ensures forall i :: 0 <= i < |cs| && !cs[i].Resume? ==> RegCommand(Packet(cs[i])) == Do(cs[i])
    ensures Replies(sizes, signals, id, s, cs) == PlainReplies(sizes, signals, id, View(s), s.stop, cs)
    decreases |cs|
  {
    forall i | 0 <= i < |cs| && !cs[i].Resume? ensures RegCommand(Packet(cs[i])) == Do(cs[i]) {
      PacketRoundTrip(cs[i]);
    }
    if cs != [] {
      StepRefinesIff(sizes, s, cs[0]);
      SessionOfPackets(sizes, signals, id, Step(sizes, s, cs[0]), cs[1..]);
    }
  }
}
