/** The m, M, Z and z packets of src/server.c, from packet text to reply text. */
module MemoryServer {
  import opened Memory
  import opened DarwinMemory
  import opened Protocol
  import opened Text
  import opened CLibrary
  import opened HexCodec
  import opened Shadow
  import opened ShadowRuns
  import opened ShadowClients
  import opened Breakpoints

  const LOWER_M: byte := 109
  const UPPER_M: byte := 77
  const LOWER_Z: byte := 122
  const UPPER_Z: byte := 90

  /** The most bytes whose digits fit the packet buffer with a NUL. */
  const MAX_READ: nat := 999

  /** Addresses have 32 bits when they reach the target, with vm_address_t and unsigned long. */
  const SPACE_SIZE: int := 0x1_0000_0000

  /** What a packet asks for. `Fail` is a call of `error`, which abandons the packet without a
      reply; `Refuse` is the empty reply; `Other` is a packet of another kind. */
  datatype Command = Do(event: Event) | Refuse | Fail | Other

  function WriteCommand(body: seq<byte>): Command {
    var r := DecodedWrite(body);
    if r.None? then Fail
    else
      var (args, start) := r.value;
      var pairs := body[start..];
      if GoodPairs(pairs, args.len) < args.len then Fail
      else Do(Write(args.addr, HexDecode(pairs, args.len)))
  }

  function PointCommand(text: seq<byte>, insert: bool): Command {
    if CharAt(text, 1) != DIGIT_0 then Refuse
    else if |text| < 3 then Other
    else
      var addr := Strtoul(text, 3).0;
      Do(if insert then Insert(addr) else Remove(addr))
  }

  function MemCommand(text: seq<byte>): Command {
    if text == [] then Other
    else if text[0] == LOWER_M then
      var r := DecodedRead(text[1..]);
      if r.None? then Fail else Do(Read(r.value.addr, r.value.len))
    else if text[0] == UPPER_M then WriteCommand(text[1..])
    else if text[0] == UPPER_Z then PointCommand(text, true)
    else if text[0] == LOWER_Z then PointCommand(text, false)
    else Other
  }

  /** The reply to an event, given the bytes that a read found. */
  function ReplyText(e: Event, found: seq<byte>): seq<byte> {
    if e.Read? then HexEncode(found) else OK
  }

  class Server {
    const table: BreakpointTable
    const ownBuf: array<byte>
    const memBuf: array<byte>

    constructor (table: BreakpointTable, ownBuf: array<byte>)
      requires table.Valid() && table.target.Sound() && ownBuf.Length == PBUFSIZ && ownBuf !in table.chain.repr
      ensures this.table == table && this.ownBuf == ownBuf && Ready() && fresh(memBuf)
    {
      this.table, this.ownBuf := table, ownBuf;
      memBuf := new byte[PBUFSIZ](_ => 0);
    }

    ghost predicate Ready()
      reads table, table.chain.repr, table.target
    {
      && ownBuf != memBuf && ownBuf.Length == PBUFSIZ && memBuf.Length == PBUFSIZ
      && table.Valid() && table.target.Sound()
      && ownBuf !in table.chain.repr && memBuf !in table.chain.repr
    }

    /** Put a short literal in the packet buffer. */
    method WriteReply(text: seq<byte>)
      requires Ready() && |text| < ownBuf.Length && NUL !in text
      modifies ownBuf
      ensures Ready() && table.Abs() == old(table.Abs()) && Str(ownBuf[..]) == text
    {
      Target.CopyIn(ownBuf, 0, text + [NUL]);
      assert ownBuf[..|text|] == text;
      assert ownBuf[..][..|text|] == text;
      StrIs(ownBuf[..], |text|);
    }

    /** handle_m_read_mem */
    method HandleReadMem() returns (ok: bool)
      requires Ready() && |Str(ownBuf[..])| > 0
      requires var r := DecodedRead(Str(ownBuf[..])[1..]); r.Some? ==> r.value.len <= MAX_READ
      modifies ownBuf, memBuf
      ensures var r := DecodedRead(Str(old(ownBuf[..]))[1..]);
              && ok == r.Some?
              && Str(ownBuf[..]) == if r.None? then Str(old(ownBuf[..]))
                                    else HexEncode(Slice(Logical(table.Abs()), r.value.addr, r.value.len))
    {
      var text := Str(ownBuf[..]);
      var r := DecodeReadPacket(text[1..]);
      if r.None? {
        return false;
      }
      var len := r.value.len;
      table.ReadInferiorMemory(r.value.addr, memBuf, len);
      ConvertIntToAscii(memBuf, ownBuf, len);
      assert ownBuf[..][..2 * len] == HexEncode(memBuf[..len]);
      StrIs(ownBuf[..], 2 * len);
      ok := true;
    }

    /** Decode the data of an M packet into the buffer and write it. */
    method WriteDecoded(addr: int, len: nat, digits: seq<byte>) returns (ok: bool, res: int)
      requires Ready() && GoodPairs(digits, len) <= memBuf.Length
      modifies memBuf, table`chain, set n | n in table.chain.nodes :: n.oldData, table.target`bytes
      ensures Ready() && table.chain.repr == old(table.chain.repr)
      ensures ok == (GoodPairs(digits, len) == len) && res == 0
      ensures if ok then SameState(table.Abs(), Step(table.trap, old(table.Abs()), Write(addr, HexDecode(digits, len))))
              else table.Abs() == old(table.Abs())
    {
      ok := ConvertAsciiToInt(digits, memBuf, len);
      res := 0;
      if ok {
        res := table.WriteInferiorMemory(addr, memBuf[..len]);
      }
    }

    /** handle_M_write_mem; memory and breakpoints are untouched when the packet does not parse. */
    method HandleWriteMem() returns (ok: bool)
      requires Ready() && |Str(ownBuf[..])| > 0 && Str(ownBuf[..])[0] == UPPER_M
      modifies ownBuf, memBuf, table`chain, set n | n in table.chain.nodes :: n.oldData, table.target`bytes
      ensures Ready() && table.chain.repr == old(table.chain.repr)
      ensures var c := MemCommand(Str(old(ownBuf[..])));
              && ok == c.Do?
              && (ok ==> SameState(table.Abs(), Step(table.trap, old(table.Abs()), c.event)))
              && (!ok ==> table.Abs() == old(table.Abs()))
              && Str(ownBuf[..]) == if ok then OK else Str(old(ownBuf[..]))
    {
      var body := Str(ownBuf[..])[1..];
      var r := DecodeWritePacket(body);
      if r.None? {
        return false;
      }
      var (args, start) := r.value;
      GoodPairsFit(body[start..], args.len);
      var res;
      ok, res := WriteDecoded(args.addr, args.len, body[start..]);
      if ok {
        WriteReply(if res == 0 then OK else ERROR);
      }
    }

    /** handle_Z_insert_bp */
    method HandleInsert()
      requires Ready() && |Str(ownBuf[..])| > 0 && Str(ownBuf[..])[0] == UPPER_Z
      requires !MemCommand(Str(ownBuf[..])).Other?
      modifies ownBuf, table`breakpoints, table`chain, table.target`bytes
      ensures Ready() && fresh(table.chain.repr - old(table.chain.repr))
      ensures var c := MemCommand(Str(old(ownBuf[..])));
              && (c.Do? ==> SameState(table.Abs(), Step(table.trap, old(table.Abs()), c.event)))
              && (!c.Do? ==> table.Abs() == old(table.Abs()))
              && Str(ownBuf[..]) == if c.Do? then OK else []
    {
      var text := Str(ownBuf[..]);
      if CharAt(text, 1) != DIGIT_0 {
        WriteReply([]);
        return;
      }
      var addr := Strtoul(text, 3).0;
      assert MemCommand(text) == Do(Insert(addr));
      InsertAt(addr);
      WriteReply(OK);
    }

    method InsertAt(addr: int)
      requires Ready()
      modifies table`breakpoints, table`chain, table.target`bytes
      ensures Ready() && fresh(table.chain.repr - old(table.chain.repr))
      ensures SameState(table.Abs(), Step(table.trap, old(table.Abs()), Insert(addr)))
    {
      table.SetBreakpointAt(addr, NoHandler);
    }

    method RemoveAt(addr: int)
      requires Ready()
      modifies table`breakpoints, table`chain, table.chain.nodes`next, table.target`bytes
      ensures Ready() && table.chain.repr == old(table.chain.repr)
      ensures SameState(table.Abs(), Step(table.trap, old(table.Abs()), Remove(addr)))
    {
      table.DeleteBreakpointAt(addr);
    }

    /** handle_z_remove_bp */
    method HandleRemove()
      requires Ready() && |Str(ownBuf[..])| > 0 && Str(ownBuf[..])[0] == LOWER_Z
      requires !MemCommand(Str(ownBuf[..])).Other?
      modifies ownBuf, table`breakpoints, table`chain, table.chain.nodes`next, table.target`bytes
      ensures Ready() && table.chain.repr == old(table.chain.repr)
      ensures var c := MemCommand(Str(old(ownBuf[..])));
              && (c.Do? ==> SameState(table.Abs(), Step(table.trap, old(table.Abs()), c.event)))
              && (!c.Do? ==> table.Abs() == old(table.Abs()))
              && Str(ownBuf[..]) == if c.Do? then OK else []
    {
      var text := Str(ownBuf[..]);
      if CharAt(text, 1) != DIGIT_0 {
        WriteReply([]);
        return;
      }
      var addr := Strtoul(text, 3).0;
      assert MemCommand(text) == Do(Remove(addr));
      RemoveAt(addr);
      WriteReply(OK);
    }

    /** The m, M, Z and z branches of handle_packet; `spoken` is false after a call of `error`. */
    method HandlePacket() returns (spoken: bool)
      requires Ready() && !MemCommand(Str(ownBuf[..])).Other?
      requires var c := MemCommand(Str(ownBuf[..])); c.Do? && c.event.Read? ==> c.event.len <= MAX_READ
      modifies ownBuf, memBuf, table, table.chain.repr, table.target`bytes
      ensures Ready() && fresh(table.chain.repr - old(table.chain.repr))
      ensures var c := MemCommand(Str(old(ownBuf[..])));
              && spoken == !c.Fail?
              && SameState(table.Abs(), if c.Do? then Step(table.trap, old(table.Abs()), c.event) else old(table.Abs()))
              && (spoken ==> Str(ownBuf[..]) ==
                               if c.Do? then ReplyText(c.event, ShadowRuns.Reply(old(table.Abs()), c.event)) else [])
    {
      var letter := Str(ownBuf[..])[0];
      if letter == LOWER_M {
        spoken := ReadPacket();
      } else if letter == UPPER_M {
        spoken := HandleWriteMem();
      } else {
        spoken := true;
        if letter == UPPER_Z {
          HandleInsert();
        } else {
          HandleRemove();
        }
      }
    }

    method ReadPacket() returns (spoken: bool)
      requires Ready() && Str(ownBuf[..]) != [] && Str(ownBuf[..])[0] == LOWER_M
      requires var c := MemCommand(Str(ownBuf[..])); c.Do? && c.event.Read? ==> c.event.len <= MAX_READ
      modifies ownBuf, memBuf
      ensures Ready()
      ensures var c := MemCommand(Str(old(ownBuf[..])));
              && spoken == c.Do? && (c.Do? ==> c.event.Read?)
              && (spoken ==> Str(ownBuf[..]) == ReplyText(c.event, ShadowRuns.Reply(table.Abs(), c.event)))
    {
      hide Str, DecodedRead, Logical, ReadBack, Slice, HexEncode;
      ghost var c := MemCommand(Str(ownBuf[..]));
      if c.Do? {
        ReadBackIsLogical(table.Abs(), c.event.addr, c.event.len);
      }
      spoken := HandleReadMem();
    }
  }

  // ---------- sessions in packet text ----------

  /** The packet by which a client asks for an event. */
  function Packet(e: Event): seq<byte>
    requires Printable(e)
  {
    match e
    case Read(addr, len) => Ascii("m") + PrintRead(addr, len)
    case Write(addr, data) => Ascii("M") + PrintWrite(addr, data)
    case Insert(addr) => Ascii("Z0,") + HexNumber(addr) + Ascii(",4")
    case Remove(addr) => Ascii("z0,") + HexNumber(addr) + Ascii(",4")
  }

  /** The events that a packet can carry without loss. */
  predicate Printable(e: Event) {
    match e
    case Read(addr, len) => 0 <= addr < 0x8000_0000_0000_0000 && len < 0x10000
    case Write(addr, data) => 0 <= addr < 0x8000_0000_0000_0000 && |data| < 0x1_0000_0000
    case Insert(addr) => 0 <= addr <= ULONG_MAX
    case Remove(addr) => 0 <= addr <= ULONG_MAX
    case _ => false
  }

  /** The event stays within the target's addresses, and what is read within the buffer in which
      putpkt frames the reply. */
  predicate Within(trap: seq<byte>, e: Event) {
    match e
    case Read(addr, len) => 0 <= addr && addr + len <= SPACE_SIZE && 2 * len + 5 <= PBUFSIZ
    case Write(addr, data) => 0 <= addr && addr + |data| <= SPACE_SIZE
    case Insert(addr) => 0 <= addr && addr + |trap| <= SPACE_SIZE
    case Remove(addr) => 0 <= addr && addr + |trap| <= SPACE_SIZE
    case Stored(addr, data) => 0 <= addr && addr + |data| <= SPACE_SIZE
    case _ => true
  }

  lemma ReadPacketRoundTrip(addr: nat, len: nat)
    requires Printable(Read(addr, len))
    ensures MemCommand(Packet(Read(addr, len))) == Do(Read(addr, len))
  {
    assert Ascii("m") == [LOWER_M];
    assert Packet(Read(addr, len))[1..] == PrintRead(addr, len);
    ReadRoundTripIff(addr, len);
  }

  lemma WriteHeaded(body: seq<byte>)
    ensures MemCommand([UPPER_M] + body) == WriteCommand(body)
  {
    hide WriteCommand, PointCommand, DecodedRead;
    assert ([UPPER_M] + body)[1..] == body;
  }

  lemma WritePacketRoundTrip(addr: nat, data: seq<byte>)
    requires Printable(Write(addr, data))
    ensures MemCommand(Packet(Write(addr, data))) == Do(Write(addr, data))
  {
    var body, start := WriteRoundTrip(addr, data);
    assert Ascii("M") == [UPPER_M];
    hide Ascii, PrintWrite, DecodedWrite, GoodPairs, HexDecode, MemCommand;
    assert WriteCommand(body) == Do(Write(addr, data));
    WriteHeaded(body);
  }

  /** The kind, behind the address, is not looked at. */
  lemma PointParses(letter: byte, addr: nat, kind: seq<byte>, insert: bool)
    requires addr <= ULONG_MAX && kind != [] && kind[0] == COMMA
    ensures PointCommand([letter, DIGIT_0, COMMA] + HexNumber(addr) + kind, insert) ==
            Do(if insert then Insert(addr) else Remove(addr))
  {
    StrtoulRoundTrip([letter, DIGIT_0, COMMA], addr, kind);
  }

  lemma InsertPacketRoundTrip(addr: nat)
    requires addr <= ULONG_MAX
    ensures MemCommand(Packet(Insert(addr))) == Do(Insert(addr))
  {
    assert Ascii("Z0,") == [UPPER_Z, DIGIT_0, COMMA] && Ascii(",4")[0] == COMMA;
    PointParses(UPPER_Z, addr, Ascii(",4"), true);
  }

  lemma RemovePacketRoundTrip(addr: nat)
    requires addr <= ULONG_MAX
    ensures MemCommand(Packet(Remove(addr))) == Do(Remove(addr))
  {
    assert Ascii("z0,") == [LOWER_Z, DIGIT_0, COMMA] && Ascii(",4")[0] == COMMA;
    PointParses(LOWER_Z, addr, Ascii(",4"), false);
  }

  /** The server understands each packet as it was meant. */
  lemma PacketRoundTrip(e: Event)
    requires Printable(e)
    ensures MemCommand(Packet(e)) == Do(e)
  {
    match e
    case Read(addr, len) => ReadPacketRoundTrip(addr, len);
    case Write(addr, data) => WritePacketRoundTrip(addr, data);
    case Insert(addr) => InsertPacketRoundTrip(addr);
    case Remove(addr) => RemovePacketRoundTrip(addr);
  }

  /** The replies to a list of packets, none of which fails to parse. */
  function Serve(trap: seq<byte>, s: State, packets: seq<seq<byte>>): seq<seq<byte>>
    requires Sized(trap, s.recs)
    requires forall i :: 0 <= i < |packets| ==> MemCommand(packets[i]).Do?
    decreases |packets|
  {
    if packets == [] then []
    else
      var e := MemCommand(packets[0]).event;
      [ReplyText(e, Reply(s, e))] + Serve(trap, Step(trap, s, e), packets[1..])
  }

  /** The replies of a server whose memory has no breakpoints in it. */
  function PlainServe(m: Space, es: seq<Event>): seq<seq<byte>> {
    if es == [] then []
    else
      [ReplyText(es[0], if es[0].Read? then Slice(m, es[0].addr, es[0].len) else [])]
      + PlainServe(PlainStep(m, es[0]), es[1..])
  }

  function Packets(es: seq<Event>): (ps: seq<seq<byte>>)
    requires forall i :: 0 <= i < |es| ==> Printable(es[i])
    ensures |ps| == |es| && forall i :: 0 <= i < |es| ==> ps[i] == Packet(es[i])
  {
    seq(|es|, i requires 0 <= i < |es| => Packet(es[i]))
  }

  /** Events that the server can serve from their packets. */
  predicate Sendable(trap: seq<byte>, es: seq<Event>) {
    && (forall i :: 0 <= i < |es| ==> Printable(es[i]))
    && (forall i :: 0 <= i < |es| ==> Within(trap, es[i]) && |Packets(es)[i]| < PBUFSIZ)
  }

  lemma {:induction false} PlainServeSame(m: Space, n: Space, es: seq<Event>)
    requires Same(m, n)
    ensures PlainServe(m, es) == PlainServe(n, es)
  {
    if es != [] {
      PlainServeSame(PlainStep(m, es[0]), PlainStep(n, es[0]), es[1..]);
      if es[0].Read? {
        assert Slice(m, es[0].addr, es[0].len) == Slice(n, es[0].addr, es[0].len);
      }
    }
  }

  lemma PacketsParse(es: seq<Event>)
    requires forall i :: 0 <= i < |es| ==> Printable(es[i])
    ensures forall i :: 0 <= i < |es| ==> MemCommand(Packets(es)[i]) == Do(es[i])
  {
    forall i | 0 <= i < |es| ensures MemCommand(Packets(es)[i]) == Do(es[i]) {
      PacketRoundTrip(es[i]);
    }
  }

  /** A session of packets is answered, text for text, as by a server on plain memory. */
  lemma {:induction false} ServeRefines(trap: seq<byte>, s: State, es: seq<Event>)
    requires Sized(trap, s.recs) && Guarded(trap, s, es)
    requires Sendable(trap, es)
    requires forall i :: 0 <= i < |es| ==> MemCommand(Packets(es)[i]) == Do(es[i])
    ensures Serve(trap, s, Packets(es)) == PlainServe(Logical(s), es)
    decreases |es|
  {
    if es != [] {
      var e, t := es[0], Step(trap, s, es[0]);
      assert Packets(es)[1..] == Packets(es[1..]);
      StepRefinesIff(trap, s, e);
      ServeRefines(trap, t, es[1..]);
      PlainServeSame(Logical(t), PlainStep(Logical(s), e), es[1..]);
      if e.Read? {
        ReadBackIsLogical(s, e.addr, e.len);
      }
    }
  }

  /** In particular when breakpoints go to multiples of the trap length, as for instructions
      of fixed size, and no write touches a byte under two of them. */
  lemma AlignedSession(trap: seq<byte>, raw: Space, es: seq<Event>)
    requires |trap| > 0 && AlignedRun(trap, State(raw, [], 1), es)
    requires Sendable(trap, es)
    ensures forall i :: 0 <= i < |es| ==> MemCommand(Packets(es)[i]).Do?
    ensures Serve(trap, State(raw, [], 1), Packets(es)) == PlainServe(raw, es)
    ensures var t := Run(trap, State(raw, [], 1), es); t.recs == [] ==> Same(t.raw, PlainRun(raw, es))
  {
    var s := State(raw, [], 1);
    PacketsParse(es);
    AlignedRunIsGuarded(trap, s, es);
    ServeRefines(trap, s, es);
    assert Same(Logical(s), raw);
    PlainServeSame(Logical(s), raw, es);
    PlainRunSame(Logical(s), raw, es);
    if Run(trap, s, es).recs == [] {
      RunRestores(trap, s, es);
    }
  }
}
