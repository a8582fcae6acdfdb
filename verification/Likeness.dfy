/** Machines that differ in the representation of memory only: the same packets do the same to
    them. */
module Likeness {
  import opened Memory
  import opened Text
  import opened Session
  import opened Packets
  import opened Breakpoints
  import opened EndToEnd
  import Shadow
  import ShadowRuns
  import MemoryServer
  import RegisterRuns
  import RegisterServer

  ghost predicate SameMachine(s: Machine, t: Machine) {
    SameState(s.mem, t.mem) && s.regs == t.regs && s.runs == t.runs
  }

  lemma SetSame(trap: seq<byte>, s: Shadow.State, t: Shadow.State, where: int, handler: Shadow.Handler)
    requires SameState(s, t)
    ensures SameState(Shadow.Set(trap, s, where, handler), Shadow.Set(trap, t, where, handler))
  {
    assert Slice(s.raw, where, |trap|) == Slice(t.raw, where, |trap|);
  }

  lemma StepOverSame(trap: seq<byte>, s: Shadow.State, t: Shadow.State, stopPc: int, stopAt: int)
    requires SameState(s, t)
    ensures SameState(Shadow.StepOver(trap, s, stopPc, stopAt).0, Shadow.StepOver(trap, t, stopPc, stopAt).0)
  {
    hide Shadow.Set;
    SetSame(trap, s, t, stopAt, Shadow.Reinserter);
  }

  lemma CheckSame(trap: seq<byte>, s: Shadow.State, t: Shadow.State, pc: int)
    requires SameState(s, t)
    ensures SameState(Shadow.Check(trap, s, pc).0, Shadow.Check(trap, t, pc).0)
    ensures Shadow.Check(trap, s, pc).1 == Shadow.Check(trap, t, pc).1
  {}

  /** Events do the same to memory that is the same. */
  lemma StepSame(trap: seq<byte>, s: Shadow.State, t: Shadow.State, e: ShadowRuns.Event)
    requires Shadow.Sized(trap, s.recs) && SameState(s, t)
    ensures SameState(ShadowRuns.Step(trap, s, e), ShadowRuns.Step(trap, t, e))
    ensures ShadowRuns.Reply(s, e) == ShadowRuns.Reply(t, e)
  {
    hide Shadow.Set, Shadow.StepOver, Shadow.Check, Shadow.ReadBack, Shadow.PassedAll, Shadow.ResavedAll;
    match e
    case Read(addr, len) => assert Slice(s.raw, addr, len) == Slice(t.raw, addr, len);
    case Insert(at) => SetSame(trap, s, t, at, Shadow.NoHandler);
    case Stepping(pc, at) => StepOverSame(trap, s, t, pc, at);
    case Stopped(pc) => CheckSame(trap, s, t, pc);
    case _ =>
  }

  lemma GuardSame(trap: seq<byte>, s: Shadow.State, t: Shadow.State, e: ShadowRuns.Event)
    requires Shadow.Sized(trap, s.recs) && SameState(s, t)
    ensures ShadowRuns.Guard(trap, s, e) <==> ShadowRuns.Guard(trap, t, e)
  {
    if e.Stopped? {
      CheckSame(trap, s, t, e.pc);
    }
  }

  lemma ReactionSame(k: Setup, s: Machine, t: Machine, packet: seq<byte>)
    requires Sound(k, s) && SameMachine(s, t)
    ensures Sound(k, t) && SameMachine(RealReaction(k, s, packet).0, RealReaction(k, t, packet).0)
    ensures RealReaction(k, s, packet).1 == RealReaction(k, t, packet).1
  {
    hide MemoryServer.MemCommand, RegisterServer.RegCommand, IsResume, Aside, RealRegisters;
    hide ShadowRuns.Step, ShadowRuns.Reply;
    var c := MemoryServer.MemCommand(packet);
    if IsMemory(packet) {
      if c.Do? {
        StepSame(k.trap, s.mem, t.mem, c.event);
      }
    } else if IsResume(k.hostSignals, packet) && !IsRegister(k, packet) {
      var r := RunOf(k, s.runs, packet, RegisterRuns.View(s.regs));
      StepSame(k.trap, s.mem, t.mem, ShadowRuns.Stored(r.addr, r.data));
    }
  }

  lemma HandledSame(k: Setup, s: Machine, t: Machine, noAck: bool, packet: seq<byte>)
    requires Sound(k, s) && SameMachine(s, t)
    ensures var (s', mode, reaction) := Handle(Real(k), s, noAck, packet);
            var (t', mode', reaction') := Handle(Real(k), t, noAck, packet);
            SameMachine(s', t') && mode == mode' && reaction == reaction'
  {
    hide RealReaction, Str;
    ReactionSame(k, s, t, Str(Str(packet)));
    ReactionSame(k, s, t, Str(packet));
  }

  lemma AllowedSame(k: Setup, s: Machine, t: Machine, packet: seq<byte>)
    requires Sound(k, s) && SameMachine(s, t)
    ensures Allowed(k, s, packet) <==> Allowed(k, t, packet)
  {
    hide MemoryServer.MemCommand, RegisterServer.RegCommand, IsResume, Undefined, ShadowRuns.Guard;
    var c := MemoryServer.MemCommand(packet);
    if IsMemory(packet) && c.Do? {
      GuardSame(k.trap, s.mem, t.mem, c.event);
    }
    var r := RunOf(k, s.runs, packet, RegisterRuns.View(s.regs));
    GuardSame(k.trap, s.mem, t.mem, ShadowRuns.Stored(r.addr, r.data));
  }

  lemma {:induction false} AllAllowedSame(k: Setup, s: Machine, t: Machine, noAck: bool, qs: seq<Request>)
    requires SameMachine(s, t) && AllAllowed(k, s, noAck, qs)
    ensures AllAllowed(k, t, noAck, qs)
    decreases |qs|
  {
    hide Handle, Allowed, Str, Roomy;
    if qs != [] {
      HandledSame(k, s, t, noAck, qs[0].packet);
      AllowedSame(k, s, t, Str(qs[0].packet));
      var (s', mode, reaction) := Handle(Real(k), s, noAck, qs[0].packet);
      var (t', _, _) := Handle(Real(k), t, noAck, qs[0].packet);
      if Stays(reaction) {
        AllAllowedSame(k, s', t', mode, qs[1..]);
      }
    }
  }

  lemma ShowsSame(k: Setup, s: Machine, t: Machine, m: PlainMachine)
    requires SameMachine(s, t) && Shows(k, s, m)
    ensures Shows(k, t, m)
  {
    forall a: int ensures Shadow.Logical(t.mem)(a) == m.mem(a) {
      assert Shadow.Logical(s.mem)(a) == m.mem(a);
    }
  }
}
