/** Whole sessions from the client's bytes to the server's bytes: the packet loop on a connection
    with noise, and behind it the handlers of every packet. */
module EndToEnd {
  import opened Memory
  import opened Protocol
  import opened Text
  import opened HexCodec
  import opened Framing
  import opened Bursts
  import opened Connection
  import opened Session
  import opened ReadAhead
  import opened PatientClients
  import opened PacketLoop
  import opened RegisterCache
  import opened Packets
  import CLibrary
  import Shadow
  import ShadowRuns
  import ShadowClients
  import MemoryServer
  import VCont
  import RegisterRuns
  import RegisterServer

  /** What became of a resumption: where the registers ended up, why the inferior stopped, and
      what it stored. */
  datatype Ran = Ran(regs: seq<byte>, stop: RegisterRuns.Stop, addr: int, data: seq<byte>)

  /** What the target is made of besides memory and registers, fixed for the session. The
      inferior's n-th run depends on what ptrace was called with and on the registers that it
      starts with; which threads are alive depends on the number of runs. */
  datatype Setup = Setup(trap: seq<byte>, sizes: seq<nat>, signals: byte -> byte, hostSignals: VCont.Signals,
                         id: nat, inferior: (nat, Order, seq<byte>) -> Ran, alive: nat -> int -> bool)

  /** Raw memory with its breakpoint records, and the hardware registers with their cache. */
  datatype Machine = Machine(mem: Shadow.State, regs: RegisterRuns.State, runs: nat)

  /** Memory without breakpoints and one register file. */
  datatype PlainMachine = PlainMachine(mem: Space, regs: seq<byte>, stop: RegisterRuns.Stop, runs: nat)

  predicate Sound(k: Setup, s: Machine) {
    && Shadow.Sized(k.trap, s.mem.recs) && RegisterRuns.Shaped(k.sizes, s.regs)
    && s.regs.stop.status != NUL && k.id <= CLibrary.ULONG_MAX
  }

  predicate PlainSound(k: Setup, m: PlainMachine) {
    PpcTable(k.sizes) && |m.regs| == RegisterBytes(k.sizes)
  }

  // ---------- the reactions to packets ----------

  /** A packet about memory or breakpoints, well-formed or not. */
  predicate IsMemory(packet: seq<byte>) {
    !MemoryServer.MemCommand(packet).Other?
  }

  /** A packet about registers, well-formed or not, but of registers that exist. */
  predicate IsRegister(k: Setup, packet: seq<byte>)
    requires PpcTable(k.sizes)
  {
    !RegisterServer.RegCommand(packet).Other? && RegisterServer.Defined(k.sizes, packet)
  }

  function Resumption(r: Ran): RegisterRuns.Command {
    RegisterRuns.Resume(r.regs, r.stop)
  }

  /** The inferior has exited or was terminated. */
  predicate Gone(stop: RegisterRuns.Stop) {
    stop.status in {Letter('W'), Letter('X')}
  }

  /** Once the inferior is gone the server exits after its reply. */
  function Finished(stop: RegisterRuns.Stop, reaction: Reaction): Reaction {
    if reaction.Say? && Gone(stop) then Farewell(reaction.text) else reaction
  }

  /** The packets that change neither memory nor registers. */
  function Aside(k: Setup, runs: nat, packet: seq<byte>): Reaction {
    if HasSignal(packet) then Silence   // parse_signal_byte met a bad digit
    else if IsDetach(packet) then Farewell(OK)
    else if IsKill(packet) then Quit
    else Say(FixedReply(k.id, k.alive(runs), packet))
  }

  /** handle_packet and handle_terminated_inferior */
  function Real(k: Setup): Handler<Machine> {
    (s: Machine, packet: seq<byte>) =>
      if !Sound(k, s) then (s, Silence)
      else
        var (t, reaction) := RealReaction(k, s, Str(packet));
        (t, Finished(t.regs.stop, reaction))
  }

  function RealReaction(k: Setup, s: Machine, packet: seq<byte>): (Machine, Reaction)
    requires Sound(k, s)
  {
    if IsMemory(packet) then
      var (t, reaction) := RealMemory(k, s.mem, MemoryServer.MemCommand(packet));
      (s.(mem := t), reaction)
    else if IsRegister(k, packet) then
      var (t, reaction) := RealRegisters(k, s.regs, RegisterServer.RegCommand(packet));
      (s.(regs := t), reaction)
    else if IsResume(k.hostSignals, packet) then RealResume(k, s, packet)
    else (s, Aside(k, s.runs, packet))
  }

  function RealMemory(k: Setup, s: Shadow.State, c: MemoryServer.Command): (Shadow.State, Reaction)
    requires Shadow.Sized(k.trap, s.recs)
  {
    match c
    case Do(e) => (ShadowRuns.Step(k.trap, s, e), Say(MemoryServer.ReplyText(e, ShadowRuns.Reply(s, e))))
    case Fail => (s, Silence)
    case _ => (s, Say([]))
  }

  function RealRegisters(k: Setup, s: RegisterRuns.State, p: RegisterServer.Parsed): (RegisterRuns.State, Reaction)
    requires RegisterRuns.Shaped(k.sizes, s) && (p.Do? ==> RegisterRuns.Fits(k.sizes, p.command))
  {
    (RegisterServer.After(k.sizes, s, p),
     match p
     case Do(c) => Say(RegisterServer.Reply(k.sizes, k.signals, k.id, s, c))
     case Fail(_) => Silence
     case Drop => Silence
     case Refuse => Say(ERROR)
     case Other => Say([]))
  }

  /** The run that a resumption leads to, from the registers that the inferior is given. */
  function RunOf(k: Setup, runs: nat, packet: seq<byte>, started: seq<byte>): Ran {
    k.inferior(runs, OrderOf(k.hostSignals, k.id, packet), started)
  }

  /** All registers are there, and the status is a character. */
  predicate Possible(k: Setup, r: Ran)
    requires PpcTable(k.sizes)
  {
    |r.regs| == RegisterBytes(k.sizes) && r.stop.status != NUL
  }

  /** Write the cache back, let the inferior run, and reply. */
  function RealResume(k: Setup, s: Machine, packet: seq<byte>): (Machine, Reaction)
    requires Sound(k, s)
  {
    var started := if s.regs.valid then s.regs.cache else s.regs.hw;
    var r := RunOf(k, s.runs, packet, started);
    if !Possible(k, r) then (s, Silence)
    else
      (Machine(ShadowRuns.Step(k.trap, s.mem, ShadowRuns.Stored(r.addr, r.data)),
               RegisterRuns.Step(k.sizes, s.regs, Resumption(r)), s.runs + 1),
       Say(RegisterServer.Reply(k.sizes, k.signals, k.id, s.regs, Resumption(r))))
  }

  /** A server with nothing to hide. */
  function Plain(k: Setup): Handler<PlainMachine> {
    (m: PlainMachine, packet: seq<byte>) =>
      if !PlainSound(k, m) then (m, Silence)
      else
        var (n, reaction) := PlainReaction(k, m, Str(packet));
        (n, Finished(n.stop, reaction))
  }

  function PlainReaction(k: Setup, m: PlainMachine, packet: seq<byte>): (PlainMachine, Reaction)
    requires PlainSound(k, m)
  {
    if IsMemory(packet) then
      var (n, reaction) := PlainMemory(m.mem, MemoryServer.MemCommand(packet));
      (m.(mem := n), reaction)
    else if IsRegister(k, packet) then
      var (n, reaction) := PlainRegisters(k, m, RegisterServer.RegCommand(packet));
      (m.(regs := n), reaction)
    else if IsResume(k.hostSignals, packet) then PlainResume(k, m, packet)
    else (m, Aside(k, m.runs, packet))
  }

  function PlainMemory(m: Space, c: MemoryServer.Command): (Space, Reaction) {
    match c
    case Do(e) =>
      (ShadowRuns.PlainStep(m, e),
       Say(MemoryServer.ReplyText(e, if e.Read? then Slice(m, e.addr, e.len) else [])))
    case Fail => (m, Silence)
    case _ => (m, Say([]))
  }

  function PlainRegisters(k: Setup, m: PlainMachine, p: RegisterServer.Parsed): (seq<byte>, Reaction)
    requires PlainSound(k, m) && (p.Do? ==> RegisterRuns.Fits(k.sizes, p.command))
  {
    match p
    case Do(c) =>
      var after := RegisterRuns.PlainStep(k.sizes, m.regs, c);
      (after, Say(RegisterServer.ReplyText(k.sizes, k.signals, k.id, c,
                                           RegisterRuns.PlainOutput(k.sizes, m.regs, c), after, m.stop)))
    case Fail(prefix) => (RegisterRuns.PlainStep(k.sizes, m.regs, RegisterRuns.WriteAll(prefix)), Silence)
    case Drop => (m.regs, Silence)
    case Refuse => (m.regs, Say(ERROR))
    case Other => (m.regs, Say([]))
  }

  function PlainResume(k: Setup, m: PlainMachine, packet: seq<byte>): (PlainMachine, Reaction)
    requires PlainSound(k, m)
  {
    var r := RunOf(k, m.runs, packet, m.regs);
    if !Possible(k, r) then (m, Silence)
    else
      (PlainMachine(Overlay(m.mem, r.addr, r.data), r.regs, r.stop, m.runs + 1),
       Say(RegisterServer.StopReply(k.sizes, k.signals, k.id, r.regs, r.stop)))
  }

  // ---------- what is asked of a packet ----------

  /** The machine shows the plain machine. */
  ghost predicate Shows(k: Setup, s: Machine, m: PlainMachine) {
    && Sound(k, s) && PlainSound(k, m)
    && Same(Shadow.Logical(s.mem), m.mem) && RegisterRuns.View(s.regs) == m.regs && s.regs.stop == m.stop
    && s.runs == m.runs
  }

  /** The inferior stores within its memory, and under a breakpoint only what is shown there. */
  ghost predicate Behaves(k: Setup, s: Machine, packet: seq<byte>)
    requires Sound(k, s)
  {
    var r := RunOf(k, s.runs, packet, RegisterRuns.View(s.regs));
    var stored := ShadowRuns.Stored(r.addr, r.data);
    && Possible(k, r)
    && ShadowRuns.Guard(k.trap, s.mem, stored) && MemoryServer.Within(k.trap, stored)
  }

  /** The source reads old bytes of its buffer for a short Z or z packet, and past its table for
      a register that does not exist; and putpkt has no room for the echo of a long d packet. */
  predicate Undefined(packet: seq<byte>) {
    || CharAt(packet, 0) in {Letter('Z'), Letter('z'), Letter('p'), Letter('P')}
    || (CharAt(packet, 0) == Letter('d') && |packet| + 5 > PBUFSIZ)
  }

  /** What a packet asks of the machine it meets: see ShadowRuns and RegisterRuns. */
  ghost predicate Allowed(k: Setup, s: Machine, packet: seq<byte>)
    requires Sound(k, s)
  {
    if IsMemory(packet) then
      var c := MemoryServer.MemCommand(packet);
      c.Do? ==> ShadowRuns.Guard(k.trap, s.mem, c.event) && MemoryServer.Within(k.trap, c.event)
    else if IsRegister(k, packet) then
      var p := RegisterServer.RegCommand(packet);
      p.Do? && p.command.WriteOne? ==>
        s.regs.valid || RegAt(k.sizes, s.regs.hw, p.command.n) == p.command.data
    else if IsResume(k.hostSignals, packet) then Behaves(k, s, packet)
    else !Undefined(packet)
  }

  lemma MemoryPacket(k: Setup, s: Shadow.State, m: Space, c: MemoryServer.Command)
    requires Shadow.Sized(k.trap, s.recs) && Same(Shadow.Logical(s), m)
    requires c.Do? ==> ShadowRuns.Guard(k.trap, s, c.event)
    ensures var (t, reaction) := RealMemory(k, s, c);
            var (n, plain) := PlainMemory(m, c);
            reaction == plain && Shadow.Sized(k.trap, t.recs) && Same(Shadow.Logical(t), n)
  {
    if c.Do? {
      ShadowRuns.StepRefinesIff(k.trap, s, c.event);
      if c.event.Read? {
        Shadow.ReadBackIsLogical(s, c.event.addr, c.event.len);
        assert Slice(Shadow.Logical(s), c.event.addr, c.event.len) == Slice(m, c.event.addr, c.event.len);
      }
    }
  }

  lemma RegisterPacket(k: Setup, s: RegisterRuns.State, m: PlainMachine, p: RegisterServer.Parsed)
    requires RegisterRuns.Shaped(k.sizes, s) && PlainSound(k, m)
    requires RegisterRuns.View(s) == m.regs && s.stop == m.stop
    requires p.Do? ==> RegisterRuns.Fits(k.sizes, p.command) && !p.command.Resume?
    requires p.Do? && p.command.WriteOne? ==> s.valid || RegAt(k.sizes, s.hw, p.command.n) == p.command.data
    ensures var (t, reaction) := RealRegisters(k, s, p);
            var (n, plain) := PlainRegisters(k, m, p);
            && reaction == plain && RegisterRuns.Shaped(k.sizes, t)
            && RegisterRuns.View(t) == n && t.stop == m.stop && |n| == RegisterBytes(k.sizes)
  {
    if p.Do? {
      RegisterRuns.StepRefinesIff(k.sizes, s, p.command);
    } else if p.Fail? {
      RegisterRuns.StepRefinesIff(k.sizes, s, RegisterRuns.WriteAll(p.prefix));
    }
  }

  lemma ResumePacket(k: Setup, s: Machine, m: PlainMachine, packet: seq<byte>)
    requires Shows(k, s, m) && Behaves(k, s, packet)
    ensures RealResume(k, s, packet).1 == PlainResume(k, m, packet).1
    ensures Shows(k, RealResume(k, s, packet).0, PlainResume(k, m, packet).0)
  {
    var r := RunOf(k, m.runs, packet, m.regs);
    RegisterRuns.StepRefinesIff(k.sizes, s.regs, Resumption(r));
    ShadowRuns.StepRefinesIff(k.trap, s.mem, ShadowRuns.Stored(r.addr, r.data));
  }

  lemma NoResumePacket(packet: seq<byte>)
    requires RegisterServer.RegCommand(packet).Do?
    ensures !RegisterServer.RegCommand(packet).command.Resume?
  {}

  /** One packet, whatever its letter. */
  lemma OneReaction(k: Setup, s: Machine, m: PlainMachine, packet: seq<byte>)
    requires Shows(k, s, m) && Allowed(k, s, packet)
    ensures RealReaction(k, s, packet).1 == PlainReaction(k, m, packet).1
    ensures Shows(k, RealReaction(k, s, packet).0, PlainReaction(k, m, packet).0)
  {
    hide RealMemory, PlainMemory, RealRegisters, PlainRegisters, RealResume, PlainResume, Aside;
    hide MemoryServer.MemCommand, RegisterServer.RegCommand, IsResume;
    if IsMemory(packet) {
      MemoryPacket(k, s.mem, m.mem, MemoryServer.MemCommand(packet));
    } else if IsRegister(k, packet) {
      var p := RegisterServer.RegCommand(packet);
      if p.Do? { NoResumePacket(packet); }
      RegisterPacket(k, s.regs, m, p);
    } else if IsResume(k.hostSignals, packet) {
      ResumePacket(k, s, m, packet);
    }
  }

  // ---------- replies as texts ----------

  lemma RegisterReplyFits(k: Setup, s: RegisterRuns.State, c: RegisterRuns.Command)
    requires RegisterRuns.Shaped(k.sizes, s) && RegisterRuns.Fits(k.sizes, c) && k.id <= CLibrary.ULONG_MAX
    requires RegisterRuns.Step(k.sizes, s, c).stop.status != NUL
    ensures var reply := RegisterServer.Reply(k.sizes, k.signals, k.id, s, c);
            NUL !in reply && |reply| + 5 <= PBUFSIZ
  {
    hide RegisterRuns.Step, HexNumber, RegisterServer.StopReply, RegisterServer.Outreg;
    var t, found := RegisterRuns.Step(k.sizes, s, c), RegisterRuns.Output(k.sizes, s, c);
    HexIsText(found, 0);
    RegisterServer.PpcBytes(k.sizes);
    RegisterServer.StopReplyFits(k.sizes, k.signals, k.id, RegisterRuns.View(t), t.stop);
  }

  lemma MemoryReplyFits(k: Setup, s: Shadow.State, c: MemoryServer.Command)
    requires Shadow.Sized(k.trap, s.recs)
    ensures var reaction := RealMemory(k, s, c).1;
            Speaks(reaction) ==>
              NUL !in reaction.text
              && ((c.Do? ==> MemoryServer.Within(k.trap, c.event)) ==> |reaction.text| + 5 <= PBUFSIZ)
  {
    if c.Do? {
      var found := ShadowRuns.Reply(s, c.event);
      HexIsText(found, 0);
      assert c.event.Read? ==> |found| == c.event.len;
    }
  }

  lemma RegistersReplyFits(k: Setup, s: RegisterRuns.State, p: RegisterServer.Parsed)
    requires RegisterRuns.Shaped(k.sizes, s) && k.id <= CLibrary.ULONG_MAX && s.stop.status != NUL
    requires p.Do? ==> RegisterRuns.Fits(k.sizes, p.command) && !p.command.Resume?
    ensures var reaction := RealRegisters(k, s, p).1;
            Speaks(reaction) ==> NUL !in reaction.text && |reaction.text| + 5 <= PBUFSIZ
  {
    if p.Do? {
      RegisterReplyFits(k, s, p.command);
    }
  }

  lemma ResumeReplyFits(k: Setup, s: Machine, packet: seq<byte>)
    requires Sound(k, s)
    ensures var reaction := RealResume(k, s, packet).1;
            Speaks(reaction) ==> NUL !in reaction.text && |reaction.text| + 5 <= PBUFSIZ
  {
    var r := RunOf(k, s.runs, packet, if s.regs.valid then s.regs.cache else s.regs.hw);
    if Possible(k, r) {
      RegisterReplyFits(k, s.regs, Resumption(r));
    }
  }

  lemma AsideFits(k: Setup, runs: nat, packet: seq<byte>)
    requires NUL !in packet && k.id <= CLibrary.ULONG_MAX
    ensures var reaction := Aside(k, runs, packet);
            Speaks(reaction) ==>
              NUL !in reaction.text && (!Undefined(packet) ==> |reaction.text| + 5 <= PBUFSIZ)
  {
    hide FixedReply, HexNumber;
    HexNumberLength(k.id, 8);
    assert Power16(8) == 0x1_0000_0000;
    FixedReplyFits(k.id, k.alive(runs), packet);
  }

  /** Every reply is a C string, and that of an allowed packet fits the buffer in which putpkt
      frames it. */
  lemma ReplyFits(k: Setup, s: Machine, packet: seq<byte>)
    requires Sound(k, s) && NUL !in packet
    ensures var reaction := RealReaction(k, s, packet).1;
            Speaks(reaction) ==>
              NUL !in reaction.text && (Allowed(k, s, packet) ==> |reaction.text| + 5 <= PBUFSIZ)
  {
    hide RealMemory, RealRegisters, RealResume, Aside, Undefined;
    hide MemoryServer.MemCommand, RegisterServer.RegCommand, IsResume;
    if IsMemory(packet) {
      MemoryReplyFits(k, s.mem, MemoryServer.MemCommand(packet));
    } else if IsRegister(k, packet) {
      var p := RegisterServer.RegCommand(packet);
      if p.Do? { NoResumePacket(packet); }
      RegistersReplyFits(k, s.regs, p);
    } else if IsResume(k.hostSignals, packet) {
      ResumeReplyFits(k, s, packet);
    } else {
      AsideFits(k, s.runs, packet);
    }
  }

  lemma RealIsTextual(k: Setup)
    ensures Textual(Real(k))
  {
    hide RealReaction, Allowed;
    forall s: Machine, packet | Speaks(Real(k)(s, packet).1) ensures NUL !in Real(k)(s, packet).1.text {
      if Sound(k, s) {
        ReplyFits(k, s, Str(packet));
      }
    }
  }

  // ---------- sessions ----------

  lemma OnePacket(k: Setup, s: Machine, m: PlainMachine, noAck: bool, packet: seq<byte>)
    requires Shows(k, s, m) && Allowed(k, s, Str(packet))
    ensures var (t, mode, reaction) := Handle(Real(k), s, noAck, packet);
            var (n, plainMode, plain) := Handle(Plain(k), m, noAck, packet);
            && mode == plainMode && reaction == plain && Shows(k, t, n)
            && (Speaks(reaction) ==> |reaction.text| + 5 <= PBUFSIZ)
  {
    hide RealReaction, PlainReaction, Str;
    var text := Str(packet);
    if text != START_NO_ACK {
      StrAgain(text);
      OneReaction(k, s, m, text);
      ReplyFits(k, s, text);
    }
  }

  /** Each packet fits its buffer and is allowed in the state that the ones before it have led
      to, in which the inferior is still there. */
  ghost predicate AllAllowed(k: Setup, s: Machine, noAck: bool, qs: seq<Request>)
    decreases |qs|
  {
    qs != [] ==>
      && Sound(k, s) && !Gone(s.regs.stop) && Roomy(qs[0]) && Allowed(k, s, Str(qs[0].packet))
      && var (t, mode, reaction) := Handle(Real(k), s, noAck, qs[0].packet);
         Stays(reaction) ==> AllAllowed(k, t, mode, qs[1..])
  }

  lemma {:induction false} StreamsAgree(k: Setup, s: Machine, m: PlainMachine, noAck: bool, qs: seq<Request>)
    requires Shows(k, s, m) && AllAllowed(k, s, noAck, qs)
    ensures ServerStream(Real(k), s, noAck, qs) == ServerStream(Plain(k), m, noAck, qs)
    decreases |qs|
  {
    hide Handle, Shows, Allowed, Repeat, Frame;
    if qs != [] {
      OnePacket(k, s, m, noAck, qs[0].packet);
      var (t, mode, reaction) := Handle(Real(k), s, noAck, qs[0].packet);
      var (n, _, _) := Handle(Plain(k), m, noAck, qs[0].packet);
      if Stays(reaction) {
        StreamsAgree(k, t, n, mode, qs[1..]);
      }
    }
  }

  /** What the client has to send, and when, does not depend on which of the two servers it is. */
  lemma {:induction false} ClientsAgree(k: Setup, s: Machine, m: PlainMachine, noAck: bool, qs: seq<Request>,
                                        tail: seq<byte>)
    requires Shows(k, s, m) && AllAllowed(k, s, noAck, qs)
    ensures ClientStream(Real(k), s, noAck, qs, tail) == ClientStream(Plain(k), m, noAck, qs, tail)
    decreases |qs|
  {
    hide Handle, Shows, Allowed, Asked;
    if qs != [] {
      OnePacket(k, s, m, noAck, qs[0].packet);
      var (t, mode, reaction) := Handle(Real(k), s, noAck, qs[0].packet);
      var (n, _, _) := Handle(Plain(k), m, noAck, qs[0].packet);
      if Stays(reaction) {
        ClientsAgree(k, t, n, mode, qs[1..], tail);
      }
    }
  }

  lemma {:induction false} PatienceAgrees(k: Setup, s: Machine, m: PlainMachine, noAck: bool, qs: seq<Request>, w: Wire)
    requires Shows(k, s, m) && AllAllowed(k, s, noAck, qs) && Arriving(w.bursts)
    ensures Patient(Real(k), s, noAck, qs, w) <==> Patient(Plain(k), m, noAck, qs, w)
    decreases |qs|
  {
    hide Handle, Shows, Allowed, Asked, EndsBurst, ReadAhead.Answered, Left, Stream;
    if qs != [] {
      OnePacket(k, s, m, noAck, qs[0].packet);
      var (t, mode, reaction) := Handle(Real(k), s, noAck, qs[0].packet);
      var (n, _, _) := Handle(Plain(k), m, noAck, qs[0].packet);
      var asked := |Asked(qs[0])|;
      if Stays(reaction) && asked <= |Stream(w)| {
        PatienceAgrees(k, t, n, mode, qs[1..], ReadAhead.Answered(Left(w, |Stream(w)| - asked), mode, reaction));
      }
    }
  }

  /** Byte for byte: over a connection with junk, damaged frames and repeated replies, before and
      after acknowledgments are turned off, and until the inferior or the session ends, the
      client gets what a server on plain memory and one register file would send, as long as it
      waits for replies and each packet is allowed where it is handled. */
  lemma SessionIsPlain(k: Setup, s: Machine, m: PlainMachine, noAck: bool, qs: seq<Request>, tail: seq<byte>, w: Wire)
    requires Shows(k, s, m) && AllAllowed(k, s, noAck, qs)
    requires Junk(tail) && forall i :: 0 <= i < |qs| ==> Proper(qs[i])
    requires Arriving(w.bursts) && Stream(w) == ClientStream(Plain(k), m, noAck, qs, tail)
    requires Patient(Plain(k), m, noAck, qs, w)
    ensures WireLoop(Real(k), s, noAck, w) == ServerStream(Plain(k), m, noAck, qs)
  {
    hide Real, Plain, Shows, AllAllowed;
    ClientsAgree(k, s, m, noAck, qs, tail);
    PatienceAgrees(k, s, m, noAck, qs, w);
    PatientSessionServed(Real(k), s, noAck, qs, tail, w);
    StreamsAgree(k, s, m, noAck, qs);
  }

  /** packet_loop with these handlers, on such a connection. */
  method ServeClient(remote: Remote, k: Setup, s: Machine, ghost m: PlainMachine,
                     ghost qs: seq<Request>, ghost tail: seq<byte>)
    requires remote.Valid() && Shows(k, s, m) && AllAllowed(k, s, remote.noAckMode, qs)
    requires Junk(tail) && forall i :: 0 <= i < |qs| ==> Proper(qs[i])
    requires remote.Stream() == ClientStream(Plain(k), m, remote.noAckMode, qs, tail)
    requires Patient(Plain(k), m, remote.noAckMode, qs, remote.Connected())
    modifies remote, remote.buf
    ensures remote.outgoing == old(remote.outgoing) + ServerStream(Plain(k), m, old(remote.noAckMode), qs)
  {
    hide Real, Plain, Shows, AllAllowed, Textual;
    RealIsTextual(k);
    SessionIsPlain(k, s, m, remote.noAckMode, qs, tail, remote.Connected());
    Serve(remote, Real(k), s);
  }

  // ---------- a client that only sends allowed packets ----------

  /** Breakpoints at multiples of the trap length, no write under two of them, no store by the
      inferior under one, and no P packet before the register cache is valid. */
  ghost predicate Careful(k: Setup, s: Machine, packet: seq<byte>)
    requires Sound(k, s) && |k.trap| > 0
  {
    if IsMemory(packet) then
      var c := MemoryServer.MemCommand(packet);
      c.Do? ==> ShadowClients.AlignedRun(k.trap, s.mem, [c.event]) && MemoryServer.Within(k.trap, c.event)
    else if IsRegister(k, packet) then
      var p := RegisterServer.RegCommand(packet);
      p.Do? && p.command.WriteOne? ==> s.regs.valid
    else if IsResume(k.hostSignals, packet) then
      var r := RunOf(k, s.runs, packet, RegisterRuns.View(s.regs));
      Behaves(k, s, packet) && ShadowRuns.Clear(s.mem.recs, r.addr, |r.data|)
    else !Undefined(packet)
  }

  ghost predicate AllCareful(k: Setup, s: Machine, noAck: bool, qs: seq<Request>)
    requires |k.trap| > 0
    decreases |qs|
  {
    qs != [] ==>
      && Sound(k, s) && !Gone(s.regs.stop) && Roomy(qs[0]) && Careful(k, s, Str(qs[0].packet))
      && var (t, mode, reaction) := Handle(Real(k), s, noAck, qs[0].packet);
         Stays(reaction) ==> AllCareful(k, t, mode, qs[1..])
  }

  /** A careful packet is allowed and keeps the shape of the breakpoints. */
  lemma CarefulReaction(k: Setup, s: Machine, packet: seq<byte>)
    requires Sound(k, s) && |k.trap| > 0 && Careful(k, s, packet) && ShadowClients.Stacked(k.trap, s.mem)
    ensures Allowed(k, s, packet) && ShadowClients.Stacked(k.trap, RealReaction(k, s, packet).0.mem)
  {
    hide ShadowClients.Stacked, RegisterServer.RegCommand, IsResume, Aside, RealRegisters;
    if IsMemory(packet) {
      var c := MemoryServer.MemCommand(packet);
      if c.Do? {
        ShadowClients.StepKeepsStacked(k.trap, s.mem, [c.event]);
      }
    } else if IsResume(k.hostSignals, packet) && !IsRegister(k, packet) {
      var r := RunOf(k, s.runs, packet, RegisterRuns.View(s.regs));
      ShadowClients.StepKeepsStacked(k.trap, s.mem, [ShadowRuns.Stored(r.addr, r.data)]);
    }
  }

  lemma {:induction false} CarefulIsAllowed(k: Setup, s: Machine, noAck: bool, qs: seq<Request>)
    requires |k.trap| > 0 && AllCareful(k, s, noAck, qs) && ShadowClients.Stacked(k.trap, s.mem)
    ensures AllAllowed(k, s, noAck, qs)
    decreases |qs|
  {
    hide ShadowClients.Stacked, RealReaction, Careful, Allowed, Str;
    if qs != [] {
      var text := Str(qs[0].packet);
      CarefulReaction(k, s, text);
      StrAgain(text);
      var (t, mode, reaction) := Handle(Real(k), s, noAck, qs[0].packet);
      if Stays(reaction) {
        CarefulIsAllowed(k, t, mode, qs[1..]);
      }
    }
  }

  /** So a client that starts on untouched memory, is careful and waits for every reply cannot
      tell the difference. */
  lemma CarefulSessionIsPlain(k: Setup, raw: Space, regs: RegisterRuns.State, qs: seq<Request>, tail: seq<byte>)
    requires |k.trap| > 0 && Sound(k, Machine(Shadow.State(raw, [], 1), regs, 0))
    requires AllCareful(k, Machine(Shadow.State(raw, [], 1), regs, 0), false, qs)
    requires Junk(tail) && forall i :: 0 <= i < |qs| ==> Proper(qs[i])
    ensures var s := Machine(Shadow.State(raw, [], 1), regs, 0);
            var m := PlainMachine(raw, RegisterRuns.View(regs), regs.stop, 0);
            WireLoop(Real(k), s, false, Wire([], TurnByTurn(Plain(k), m, false, qs, tail, []))) ==
            ServerStream(Plain(k), m, false, qs)
  {
    hide Real, Plain, AllCareful, AllAllowed, TurnByTurn, ServerStream, WireLoop, ClientStream;
    var s := Machine(Shadow.State(raw, [], 1), regs, 0);
    var m := PlainMachine(raw, RegisterRuns.View(regs), regs.stop, 0);
    assert Same(Shadow.Logical(s.mem), raw);
    CarefulIsAllowed(k, s, false, qs);
    TurnByTurnIsPatient(Plain(k), m, false, qs, tail);
    SessionIsPlain(k, s, m, false, qs, tail, Wire([], TurnByTurn(Plain(k), m, false, qs, tail, [])));
  }
}
