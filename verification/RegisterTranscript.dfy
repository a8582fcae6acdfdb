/** The same for the packets about registers and those that resume. */
module RegisterTranscript {
  import opened Memory
  import opened Text
  import opened CLibrary
  import opened Spelling
  import opened Resumptions
  import opened Packets
  import opened Session
  import opened RegisterCache
  import opened EndToEnd
  import opened Branches
  import RegisterLayout
  import RegisterRuns
  import RegisterServer
  import VCont

  // ---------- registers ----------

  /** What follows one of these letters is a packet about registers. */
  lemma AboutRegisters(text: seq<byte>)
    requires text != [] && text[0] in {Letter('?'), Letter('g'), Letter('G'), Letter('p'), Letter('P')}
    ensures !IsMemory(text)
  {}

  /** g shows all registers, in the order of the table. */
  lemma ReadAllTranscript(k: Setup, s: Machine, rest: seq<byte>)
    requires Sound(k, s)
    ensures var (t, reaction) := RealReaction(k, s, Ascii("g") + rest);
            && reaction == Say(HexEncode(RegisterRuns.View(s.regs)))
            && RegisterRuns.View(t.regs) == RegisterRuns.View(s.regs) && t.mem == s.mem && t.runs == s.runs
  {
    RegistersSpelled(rest);
    AboutRegisters(Ascii("g") + rest);
    assert CharAt(Ascii("g") + rest, 0) == 103;
    hide RegisterServer.RegCommand, RealReaction, Ascii, HexEncode, IsMemory;
    RegisterReaction(k, s, Ascii("g") + rest);
  }

  /** ? is answered with the last stop. */
  lemma QuestionTranscript(k: Setup, s: Machine, rest: seq<byte>)
    requires Sound(k, s)
    ensures var (t, reaction) := RealReaction(k, s, Ascii("?") + rest);
            && reaction == Say(RegisterServer.StopReply(k.sizes, k.signals, k.id, RegisterRuns.View(s.regs), s.regs.stop))
            && RegisterRuns.View(t.regs) == RegisterRuns.View(s.regs) && t.mem == s.mem && t.runs == s.runs
  {
    RegistersSpelled(rest);
    AboutRegisters(Ascii("?") + rest);
    assert CharAt(Ascii("?") + rest, 0) == 63;
    hide RegisterServer.RegCommand, RealReaction, Ascii, RegisterServer.StopReply, IsMemory;
    RegisterReaction(k, s, Ascii("?") + rest);
  }

  /** p shows what g has at the register's place. */
  lemma ReadOneTranscript(k: Setup, s: Machine, n: nat)
    requires Sound(k, s) && n < 71
    ensures var (t, reaction) := RealReaction(k, s, Ascii("p") + HexNumber(n));
            var g := HexEncode(RegisterRuns.View(s.regs));
            && Place(n) + 2 * PpcWidth(n) <= |g| && reaction == Say(g[Place(n)..Place(n) + 2 * PpcWidth(n)])
            && RegisterRuns.View(t.regs) == RegisterRuns.View(s.regs) && t.mem == s.mem && t.runs == s.runs
  {
    var text := Ascii("p") + HexNumber(n);
    RegisterSpelled(k.sizes, RegisterRuns.View(s.regs), n);
    NumberSpelled(text, n);
    AboutRegisters(text);
    hide RegisterServer.RegCommand, RealReaction, Ascii, HexEncode, HexNumber, IsMemory, RegAt, Place, PpcWidth;
    RegisterReaction(k, s, text);
  }

  lemma NumberSpelled(text: seq<byte>, n: nat)
    requires text == Ascii("p") + HexNumber(n) && n < 71
    ensures RegisterServer.RegCommand(text) == RegisterServer.Do(RegisterRuns.ReadOne(n))
    ensures RegisterServer.Exists(text) && text != [] && text[0] == Letter('p')
  {
    RegisterServer.PacketRoundTrip(RegisterRuns.ReadOne(n));
    assert Ascii("p") == [RegisterServer.LOWER_P];
    hide RegisterServer.RegCommand, Ascii, HexNumber, Strtol;
    assert text == [RegisterServer.LOWER_P] + HexNumber(n) + [];
    RegisterServer.NumberedPacket(RegisterServer.LOWER_P, n, []);
  }

  /** A negative number gets E01. */
  lemma NegativeTranscript(k: Setup, s: Machine, digits: seq<byte>)
    requires Sound(k, s) && AllHex(digits) && digits != [] && 0 < HexValue(digits) <= 0x8000_0000
    ensures RealReaction(k, s, Ascii("p-") + digits) == (s, Say(Ascii("E01")))
  {
    var text := Ascii("p-") + digits;
    NegativeSpelled(digits);
    Marks();
    AboutRegisters(text);
    NegativeExists(text, digits);
    hide RegisterServer.RegCommand, RealReaction, Ascii, HexValue, IsMemory, RegisterServer.Exists;
    RegisterReaction(k, s, text);
  }

  lemma NegativeExists(text: seq<byte>, digits: seq<byte>)
    requires text == Ascii("p-") + digits
    requires AllHex(digits) && digits != [] && 0 < HexValue(digits) <= 0x8000_0000
    ensures RegisterServer.Exists(text)
  {
    var lead := Ascii("p-");
    assert lead == [RegisterServer.LOWER_P, MINUS] && text == lead + digits + [];
    hide Ascii, HexValue, Strtol;
    StrtolReads(text, lead, digits, [], true, 1);
  }

  /** A G with all registers replaces them all. */
  lemma WriteAllTranscript(k: Setup, s: Machine, data: seq<byte>)
    requires Sound(k, s) && |data| == 412
    ensures var (t, reaction) := RealReaction(k, s, Ascii("G") + HexEncode(data));
            reaction == Say(Ascii("OK")) && RegisterRuns.View(t.regs) == data && t.mem == s.mem && t.runs == s.runs
  {
    var text := Ascii("G") + HexEncode(data);
    RegisterServer.PacketRoundTrip(RegisterRuns.WriteAll(data));
    RegisterServer.PpcBytes(k.sizes);
    Marks();
    assert text[0] == Letter('G');
    AboutRegisters(text);
    assert CharAt(text, 0) == 71;
    hide RegisterServer.RegCommand, RealReaction, Ascii, HexEncode, IsMemory;
    RegisterReaction(k, s, text);
    assert RegisterRuns.Overwritten(data, RegisterRuns.View(s.regs)) == data;
  }

  function WriteOneText(n: nat, data: seq<byte>): seq<byte> {
    Ascii("P") + HexNumber(n) + (Ascii("=") + HexEncode(data))
  }

  lemma WriteOneHandled(k: Setup, s: Machine, n: nat, data: seq<byte>)
    requires Sound(k, s) && n < 71 && |data| == PpcWidth(n)
    ensures RealReaction(k, s, WriteOneText(n, data)) ==
            (s.(regs := RegisterRuns.Step(k.sizes, s.regs, RegisterRuns.WriteOne(n, data))), Say(Ascii("OK")))
  {
    var text := WriteOneText(n, data);
    RegisterServer.PacketRoundTrip(RegisterRuns.WriteOne(n, data));
    Marks();
    assert text[0] == Letter('P');
    AboutRegisters(text);
    WriteExists(text, n, data);
    hide RegisterServer.RegCommand, RealReaction, Ascii, HexEncode, HexNumber, IsMemory, RegisterServer.Exists;
    hide RegisterRuns.Step, WriteOneText;
    RegisterReaction(k, s, text);
  }

  /** P, once the cache is valid, sets that register and no other. */
  lemma WriteOneTranscript(k: Setup, s: Machine, n: nat, data: seq<byte>, m: nat)
    requires Sound(k, s) && s.regs.valid && n < 71 && m < 71 && |data| == PpcWidth(n)
    ensures var (t, reaction) := RealReaction(k, s, WriteOneText(n, data));
            && reaction == Say(Ascii("OK")) && t.mem == s.mem && t.runs == s.runs && RegisterRuns.Shaped(k.sizes, t.regs)
            && RegAt(k.sizes, RegisterRuns.View(t.regs), m) ==
               if m == n then data else RegAt(k.sizes, RegisterRuns.View(s.regs), m)
  {
    hide RealReaction, Ascii, WriteOneText, RegisterLayout.Supply;
    WriteOneHandled(k, s, n, data);
    RegisterLayout.CollectSupplied(k.sizes, s.regs.cache, n, data, m);
  }

  lemma WriteExists(text: seq<byte>, n: nat, data: seq<byte>)
    requires text == Ascii("P") + HexNumber(n) + (Ascii("=") + HexEncode(data)) && n < 71
    ensures RegisterServer.Exists(text)
  {
    assert Ascii("P") == [RegisterServer.UPPER_P] && Ascii("=") == [RegisterServer.EQUALS];
    hide Ascii, HexNumber, HexEncode, Strtol;
    RegisterServer.NumberedPacket(RegisterServer.UPPER_P, n, [RegisterServer.EQUALS] + HexEncode(data));
  }

  // ---------- resumptions ----------

  /** What a packet leads to that has ptrace called with `order`: the inferior starts from the
      registers that the client saw, and its stop is reported with the registers that it left. */
  lemma Resumed(k: Setup, s: Machine, text: seq<byte>, order: Order)
    requires Sound(k, s) && IsResume(k.hostSignals, text) && OrderOf(k.hostSignals, k.id, text) == order
    requires Possible(k, k.inferior(s.runs, order, RegisterRuns.View(s.regs)))
    ensures var r := k.inferior(s.runs, order, RegisterRuns.View(s.regs));
            var (t, reaction) := RealReaction(k, s, text);
            && reaction == Say(RegisterServer.StopReply(k.sizes, k.signals, k.id, r.regs, r.stop))
            && RegisterRuns.View(t.regs) == r.regs && t.regs.stop == r.stop && t.runs == s.runs + 1
            && t.mem == s.mem.(raw := Overlay(s.mem.raw, r.addr, r.data))
  {
    ResumeAlone(k, text);
    hide RealReaction, IsResume, OrderOf, RegisterServer.StopReply, IsMemory, IsRegister;
    ResumedMachine(k, s, text, k.inferior(s.runs, order, RegisterRuns.View(s.regs)));
  }

  lemma ResumeAlone(k: Setup, text: seq<byte>)
    requires PpcTable(k.sizes) && IsResume(k.hostSignals, text)
    ensures !IsMemory(text) && !IsRegister(k, text)
  {
    hide VCont.Parse;
  }

  /** c runs on and s takes one step, whatever follows. */
  lemma ContinueTranscript(k: Setup, s: Machine, rest: seq<byte>)
    requires Sound(k, s) && Possible(k, k.inferior(s.runs, Order(k.id, false, 0), RegisterRuns.View(s.regs)))
    ensures var r := k.inferior(s.runs, Order(k.id, false, 0), RegisterRuns.View(s.regs));
            RealReaction(k, s, Ascii("c") + rest).1 ==
            Say(RegisterServer.StopReply(k.sizes, k.signals, k.id, r.regs, r.stop))
  {
    hide RealReaction, IsResume, OrderOf, RegisterServer.StopReply, Ascii;
    StepsSpelled(k.hostSignals, k.id, rest);
    Resumed(k, s, Ascii("c") + rest, Order(k.id, false, 0));
  }

  lemma StepTranscript(k: Setup, s: Machine, rest: seq<byte>)
    requires Sound(k, s) && Possible(k, k.inferior(s.runs, Order(k.id, true, 0), RegisterRuns.View(s.regs)))
    ensures var r := k.inferior(s.runs, Order(k.id, true, 0), RegisterRuns.View(s.regs));
            RealReaction(k, s, Ascii("s") + rest).1 ==
            Say(RegisterServer.StopReply(k.sizes, k.signals, k.id, r.regs, r.stop))
  {
    hide RealReaction, IsResume, OrderOf, RegisterServer.StopReply, Ascii;
    StepsSpelled(k.hostSignals, k.id, rest);
    Resumed(k, s, Ascii("s") + rest, Order(k.id, true, 0));
  }

  // ---------- short and bad packets ----------

  /** A G packet with a bad digit gets no reply, but the bytes before it are stored. */
  lemma BadWriteAllTranscript(k: Setup, s: Machine, prefix: seq<byte>, rest: seq<byte>)
    requires Sound(k, s) && |prefix| < |RegisterRuns.View(s.regs)| && |rest| >= 2 && !GoodPair(rest, 0)
    ensures var (t, reaction) := RealReaction(k, s, Ascii("G") + (HexEncode(prefix) + rest));
            && reaction == Silence && t.mem == s.mem && t.runs == s.runs
            && RegisterRuns.View(t.regs) == prefix + RegisterRuns.View(s.regs)[|prefix|..]
  {
    var digits := HexEncode(prefix) + rest;
    var text := Ascii("G") + digits;
    assert Ascii("G") == [RegisterServer.UPPER_G] && text[0] == Letter('G');
    RegisterServer.PpcBytes(k.sizes);
    PrefixRead(prefix, rest);
    RegisterServer.WriteAllHeaded(digits);
    AboutRegisters(text);
    assert CharAt(text, 0) == 71;
    hide RegisterServer.RegCommand, RealReaction, Ascii, HexEncode, IsMemory, RegisterServer.WriteAllCommand, GoodPair;
    RegisterReaction(k, s, text);
  }

  lemma PrefixRead(prefix: seq<byte>, rest: seq<byte>)
    requires |prefix| < 412 && |rest| >= 2 && !GoodPair(rest, 0)
    ensures RegisterServer.WriteAllCommand(HexEncode(prefix) + rest) == RegisterServer.Fail(prefix)
  {
    var digits, n := HexEncode(prefix) + rest, |prefix|;
    HexRoundTrip(prefix, rest);
    assert digits[2 * n] == rest[0] && digits[2 * n + 1] == rest[1];
    assert !GoodPair(digits, n);
    GoodUpTo(digits, n, RegisterServer.PairsTaken(digits));
  }

  lemma {:induction false} GoodUpTo(digits: seq<byte>, n: nat, m: nat)
    requires GoodPairs(digits, n) == n <= m && !GoodPair(digits, n)
    ensures GoodPairs(digits, m) == n
  {
    if m > n {
      GoodUpTo(digits, n, m - 1);
    }
  }

  /** A P packet with too few or bad digits gets no reply and changes nothing. */
  lemma BadWriteOneTranscript(k: Setup, s: Machine, n: nat, rest: seq<byte>)
    requires Sound(k, s) && n < 71 && GoodPairs(rest, PpcWidth(n)) < PpcWidth(n)
    ensures RealReaction(k, s, Ascii("P") + HexNumber(n) + (Ascii("=") + rest)) == (s, Silence)
  {
    var text := Ascii("P") + HexNumber(n) + (Ascii("=") + rest);
    assert text[0] == Letter('P') && CharAt(text, 0) == 80;
    AboutRegisters(text);
    BadValue(text, n, rest);
    hide RegisterServer.RegCommand, RealReaction, Ascii, HexNumber, IsMemory, RegisterServer.Exists, GoodPairs;
    RegisterReaction(k, s, text);
  }

  lemma BadValue(text: seq<byte>, n: nat, rest: seq<byte>)
    requires text == Ascii("P") + HexNumber(n) + (Ascii("=") + rest)
    requires n < 71 && GoodPairs(rest, PpcWidth(n)) < PpcWidth(n)
    ensures RegisterServer.RegCommand(text) == RegisterServer.Drop && RegisterServer.Exists(text)
  {
    assert Ascii("P") == [RegisterServer.UPPER_P] && Ascii("=") == [RegisterServer.EQUALS];
    hide Ascii, HexNumber, Strtol, GoodPairs;
    RegisterServer.NumberedPacket(RegisterServer.UPPER_P, n, [RegisterServer.EQUALS] + rest);
    var end := 1 + |HexNumber(n)|;
    assert text[end..] == [RegisterServer.EQUALS] + rest;
    assert text[end] == text[end..][0] && text[end + 1..] == text[end..][1..] == rest;
  }
}
