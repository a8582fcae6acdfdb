/** What the branches of handle_packet (src/server.c) come to, and what a session comes to one
    reading after the other; for the methods of module Dispatch. */
module Branches {
  import opened Memory
  import opened Protocol
  import opened Text
  import opened CLibrary
  import opened Framing
  import opened Bursts
  import opened Packets
  import opened Session
  import opened ReadAhead
  import opened PatientClients
  import opened EndToEnd
  import ShadowRuns
  import HexCodec
  import MemoryServer
  import RegisterRuns
  import RegisterServer
  import Threads
  import VCont

  /** A read that is longer than the packet buffer has room for. */
  predicate TooLong(packet: seq<byte>) {
    var c := MemoryServer.MemCommand(packet);
    c.Do? && c.event.Read? && c.event.len > MemoryServer.MAX_READ
  }

  lemma MemoryReaction(k: Setup, s: Machine, text: seq<byte>)
    requires Sound(k, s) && IsMemory(text)
    ensures var c := MemoryServer.MemCommand(text);
            RealReaction(k, s, text) ==
            (s.(mem := if c.Do? then ShadowRuns.Step(k.trap, s.mem, c.event) else s.mem),
             if c.Fail? then Silence
             else Say(if c.Do? then MemoryServer.ReplyText(c.event, ShadowRuns.Reply(s.mem, c.event)) else []))
  {
    hide MemoryServer.MemCommand, ShadowRuns.Step;
  }

  lemma RegisterReaction(k: Setup, s: Machine, text: seq<byte>)
    requires Sound(k, s) && !IsMemory(text) && IsRegister(k, text)
    ensures var p := RegisterServer.RegCommand(text);
            RealReaction(k, s, text) ==
            (s.(regs := RegisterServer.After(k.sizes, s.regs, p)),
             if p.Do? then Say(RegisterServer.Reply(k.sizes, k.signals, k.id, s.regs, p.command))
             else if p.Refuse? then Say(ERROR) else Silence)
  {
    hide RegisterServer.RegCommand, RegisterServer.After;
  }

  lemma IdFits(id: nat)
    requires id <= ULONG_MAX
    ensures |HexNumber(id)| <= 8
  {
    HexCodec.HexNumberLength(id, 8);
    assert HexCodec.Power16(8) == 0x1_0000_0000;
  }

  lemma AsideReaction(k: Setup, s: Machine, text: seq<byte>)
    requires Sound(k, s) && !IsMemory(text) && !IsRegister(k, text) && !IsResume(k.hostSignals, text) && NUL !in text
    ensures RealReaction(k, s, text) == (s, Aside(k, s.runs, text))
    ensures var reply := FixedReply(k.id, k.alive(s.runs), text);
            reply == text || (NUL !in reply && |reply| < PBUFSIZ)
  {
    hide IsResume, Aside, FixedReply, MemoryServer.MemCommand, RegisterServer.RegCommand;
    IdFits(k.id);
    FixedReplyFits(k.id, k.alive(s.runs), text);
  }

  lemma ResumedMachine(k: Setup, s: Machine, text: seq<byte>, r: Ran)
    requires Sound(k, s) && !IsMemory(text) && !IsRegister(k, text) && IsResume(k.hostSignals, text)
    requires r == RunOf(k, s.runs, text, RegisterRuns.View(s.regs)) && Possible(k, r)
    ensures RealReaction(k, s, text) ==
            (Machine(ShadowRuns.Step(k.trap, s.mem, ShadowRuns.Stored(r.addr, r.data)),
                     RegisterRuns.Step(k.sizes, s.regs, Resumption(r)), s.runs + 1),
             Say(RegisterServer.Reply(k.sizes, k.signals, k.id, s.regs, Resumption(r))))
  {
    hide IsResume, IsMemory, IsRegister, RegisterRuns.Step, ShadowRuns.Step, RegisterServer.Reply;
  }

  /** Writing the cache back first makes no difference to what a resumption leaves. */
  lemma WrittenBack(k: Setup, s: RegisterRuns.State, c: RegisterRuns.Command)
    requires RegisterRuns.Shaped(k.sizes, s) && c.Resume? && RegisterRuns.Fits(k.sizes, c)
    ensures var t := RegisterRuns.State(false, s.cache, RegisterRuns.View(s), s.stop);
            && RegisterRuns.Shaped(k.sizes, t) && RegisterRuns.Step(k.sizes, t, c) == RegisterRuns.Step(k.sizes, s, c)
            && RegisterServer.Reply(k.sizes, k.signals, k.id, t, c) == RegisterServer.Reply(k.sizes, k.signals, k.id, s, c)
  {}

  lemma OneThread(ids: seq<int>, id: nat)
    requires ids == [id] && id <= ULONG_MAX
    ensures Threads.ThreadReply(ids, 0) == Ascii("m") + HexNumber(id) && Threads.ThreadReply(ids, 1) == Ascii("l")
  {
    hide HexNumber;
    assert Ascii("m") == [Threads.LOWER_M] && Ascii("l") == [Threads.LOWER_L];
  }

  lemma SetThreadReply(id: nat, alive: int -> bool, text: seq<byte>)
    requires CharAt(text, 0) == Letter('H')
    ensures FixedReply(id, alive, text) ==
            if CharAt(text, 1) in {Letter('g'), Letter('c'), Letter('s')} then OK else []
  {}

  lemma RequestReply(id: nat, alive: int -> bool, text: seq<byte>)
    requires CharAt(text, 0) == Letter('v')
    ensures FixedReply(id, alive, text) == if StartsWith(text, Ascii("vCont?")) then Ascii("vCont;c;C;s;S") else []
  {
    hide StartsWith, Ascii, QueryReply, Strtol;
  }

  lemma VContHasNoQuestion(text: seq<byte>)
    requires IsVCont(text)
    ensures !StartsWith(text, Ascii("vCont?"))
  {
    assert text[5] == SEMICOLON && Ascii("vCont?")[5] == 63;
  }

  /** The switch packet belongs to none of the other branches. */
  lemma SwitchReaction(k: Setup, s: Machine)
    requires Sound(k, s)
    ensures !IsMemory(START_NO_ACK) && !IsRegister(k, START_NO_ACK) && !IsResume(k.hostSignals, START_NO_ACK)
    ensures RealReaction(k, s, START_NO_ACK) == (s, Say(OK))
  {
    hide IsVCont;
  }

  /** What getpkt has put into the buffer is read as a C string. */
  lemma StrOf(packet: seq<byte>, buf: seq<byte>)
    requires |packet| < |buf| && buf[..|packet|] == packet && buf[|packet|] == NUL
    ensures Str(buf) == Str(packet)
  {
    var n := |Str(packet)|;
    assert buf[..n] == packet[..n];
    assert n < |packet| ==> buf[n] == packet[n];
    StrIs(buf, n);
  }

  /** The source gives the packet a meaning, and the inferior gives its run one. */
  predicate Defined(k: Setup, s: Machine, packet: seq<byte>)
    requires Sound(k, s)
  {
    && !TooLong(packet) && (IsMemory(packet) || IsRegister(k, packet) || !Undefined(packet))
    && (IsResume(k.hostSignals, packet) && !IsMemory(packet) && !IsRegister(k, packet) ==>
          Possible(k, RunOf(k, s.runs, packet, RegisterRuns.View(s.regs))))
  }

  /** What is allowed is defined. */
  lemma AllowedIsDefined(k: Setup, s: Machine, packet: seq<byte>)
    requires Sound(k, s) && Allowed(k, s, packet)
    ensures Defined(k, s, packet)
  {
    hide VCont.Parse, MemoryServer.MemCommand, RegisterServer.RegCommand;
  }

  /** The next packet of an allowed session: the handlers are defined on it, it fits the buffer,
      and both machines react to it in the same way. */
  lemma NextPacket(k: Setup, s: Machine, m: PlainMachine, noAck: bool, qs: seq<Request>)
    requires EndToEnd.Shows(k, s, m) && AllAllowed(k, s, noAck, qs) && qs != []
    ensures var packet := Str(qs[0].packet);
            && |qs[0].packet| < PBUFSIZ && Defined(k, s, packet)
            && var (t, mode, reaction) := Handle(Real(k), s, noAck, packet);
               var (n, plainMode, plain) := Handle(EndToEnd.Plain(k), m, noAck, qs[0].packet);
               && mode == plainMode && reaction == plain && Finished(t.regs.stop, reaction) == reaction
               && EndToEnd.Shows(k, t, n) && (Stays(reaction) ==> AllAllowed(k, t, mode, qs[1..]))
  {
    hide Allowed, RealReaction, EndToEnd.Plain, EndToEnd.Shows, Defined, Str;
    StrAgain(Str(qs[0].packet));
    OnePacket(k, s, m, noAck, qs[0].packet);
    AllowedIsDefined(k, s, Str(qs[0].packet));
  }

  lemma Regrouped(before: seq<byte>, out: seq<byte>, written: seq<byte>, later: seq<byte>)
    ensures before + (out + (written + later)) == before + out + written + later
  {}

  /** What is read next in a session, what it is taken for, and what is written and left. */
  lemma NextReading(k: Setup, s: Machine, m: PlainMachine, noAck: bool, qs: seq<Request>, tail: seq<byte>, w: Wire)
    requires EndToEnd.Shows(k, s, m) && AllAllowed(k, s, noAck, qs) && Junk(tail) && Arriving(w.bursts)
    requires forall i :: 0 <= i < |qs| ==> Proper(qs[i])
    requires Stream(w) == ClientStream(EndToEnd.Plain(k), m, noAck, qs, tail)
    requires Patient(EndToEnd.Plain(k), m, noAck, qs, w)
    ensures var r := GetPkt(Stream(w), noAck);
            if qs == [] then r == Receipt(Eof, []) && ServerStream(EndToEnd.Plain(k), m, noAck, qs) == []
            else
              && r.got.Packet? && r.got.body == qs[0].packet != [] && |r.got.body| < PBUFSIZ
              && Defined(k, s, Str(r.got.body)) && |r.got.rest| <= |Stream(w)|
              && GoesOn(k, s, m, noAck, qs, tail, Left(w, |r.got.rest|), r.out)
  {
    if qs == [] {
      JunkOnly(tail);
    } else {
      hide GetPkt, Left, Real, EndToEnd.Plain, EndToEnd.Shows, ClientStream, ServerStream, Patient;
      hide ReadAhead.Answered, Written, Defined, AllAllowed, Handle, Stream;
      NextPacket(k, s, m, noAck, qs);
      ServedTurn(EndToEnd.Plain(k), m, noAck, qs, tail, w);
    }
  }

  /** Both machines react alike to the first request, and the session goes on behind it. */
  ghost predicate GoesOn(k: Setup, s: Machine, m: PlainMachine, noAck: bool, qs: seq<Request>, tail: seq<byte>,
                         v: Wire, out: seq<byte>)
    requires qs != [] && Arriving(v.bursts)
  {
    var (t, mode, reaction) := Handle(Real(k), s, noAck, Str(qs[0].packet));
    var (n, plainMode, plain) := Handle(EndToEnd.Plain(k), m, noAck, qs[0].packet);
    var after := ReadAhead.Answered(v, mode, reaction);
    && mode == plainMode && reaction == plain && Finished(t.regs.stop, reaction) == reaction && EndToEnd.Shows(k, t, n)
    && ServerStream(EndToEnd.Plain(k), m, noAck, qs) ==
       out + (Written(v, mode, reaction)
              + if Stays(reaction) then ServerStream(EndToEnd.Plain(k), n, mode, qs[1..]) else [])
    && (Stays(reaction) ==>
          && AllAllowed(k, t, mode, qs[1..])
          && Stream(after) == ClientStream(EndToEnd.Plain(k), n, mode, qs[1..], tail)
          && Patient(EndToEnd.Plain(k), n, mode, qs[1..], after))
  }
}
