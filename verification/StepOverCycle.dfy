/** Stepping over a breakpoint by a second one: reinsert_breakpoint_by_bp, then the stop at the
    second breakpoint puts the first one back. */
module StepOverCycle {
  import opened Memory
  import opened Options
  import opened Shadow
  import opened ShadowRuns

  // ---------- links between records ----------

  /** Records are told apart by their address. */
  ghost predicate Distinct(s: State) {
    && (forall i :: 0 <= i < |s.recs| ==> s.recs[i].id < s.nextId)
    && (forall i, k :: 0 <= i < k < |s.recs| ==> s.recs[i].id != s.recs[k].id)
  }

  function Ids(recs: seq<Record>): set<nat> {
    set i | 0 <= i < |recs| :: recs[i].id
  }

  function Targets(recs: seq<Record>): set<nat> {
    set i | 0 <= i < |recs| && recs[i].link.Some? :: recs[i].link.value
  }

  /** Every link to a breakpoint that awaits reinsertion points into the chain. */
  predicate Linked(recs: seq<Record>) {
    Targets(recs) <= Ids(recs)
  }

  /** The record that an event frees, if it frees one. */
  function Victim(trap: seq<byte>, s: State, e: Event): (i: nat)
    ensures i <= |s.recs|
  {
    match e
    case Remove(addr) => Find(s.recs, addr)
    case Stopped(pc) => if Check(trap, s, pc).1 == Handled then Find(s.recs, pc) else |s.recs|
    case _ => |s.recs|
  }

  /** Another record links to the one at `i`. */
  predicate LinkedTo(recs: seq<Record>, i: nat)
    requires i < |recs|
  {
    recs[i].id in Targets(recs[..i] + recs[i + 1..])
  }

  lemma IdsWithout(recs: seq<Record>, i: nat)
    requires i < |recs|
    requires forall k :: 0 <= k < |recs| && k != i ==> recs[k].id != recs[i].id
    ensures Ids(recs[..i] + recs[i + 1..]) == Ids(recs) - {recs[i].id}
  {
    var rest := recs[..i] + recs[i + 1..];
    forall x | x in Ids(recs) && x != recs[i].id ensures x in Ids(rest) {
      var k :| 0 <= k < |recs| && recs[k].id == x;
      assert rest[if k < i then k else k - 1].id == x;
    }
    forall k | 0 <= k < |rest| ensures rest[k].id in Ids(recs) - {recs[i].id} {
      assert rest[k] == recs[if k < i then k else k + 1];
    }
  }

  lemma TargetsWithout(recs: seq<Record>, i: nat)
    requires i < |recs|
    ensures Targets(recs[..i] + recs[i + 1..]) <= Targets(recs)
  {
    var rest := recs[..i] + recs[i + 1..];
    forall k | 0 <= k < |rest| && rest[k].link.Some? ensures rest[k].link.value in Targets(recs) {
      assert rest[k] == recs[if k < i then k else k + 1];
    }
  }

  lemma DeleteKeepsLinksIff(trap: seq<byte>, s: State, i: nat)
    requires Distinct(s) && Linked(s.recs) && i < |s.recs|
    ensures Distinct(Delete(trap, s, i))
    ensures Linked(Delete(trap, s, i).recs) <==> !LinkedTo(s.recs, i)
  {
    IdsWithout(s.recs, i);
    TargetsWithout(s.recs, i);
  }

  /** Equal ids and links. */
  ghost predicate SameShape(p: seq<Record>, q: seq<Record>) {
    |p| == |q| && forall i :: 0 <= i < |p| ==> q[i].id == p[i].id && q[i].link == p[i].link
  }

  lemma ShapeFixesLinks(p: seq<Record>, q: seq<Record>)
    requires SameShape(p, q)
    ensures Ids(p) == Ids(q) && Targets(p) == Targets(q)
  {
    forall i | 0 <= i < |p| ensures p[i].id in Ids(q) && q[i].id in Ids(p) {}
    forall i | 0 <= i < |p| && p[i].link.Some?
      ensures p[i].link.value in Targets(q) && q[i].link.value in Targets(p)
    {}
  }

  lemma IdsPrepend(r: Record, recs: seq<Record>)
    ensures Ids([r] + recs) == {r.id} + Ids(recs)
    ensures Targets([r] + recs) == (if r.link.Some? then {r.link.value} else {}) + Targets(recs)
  {
    var all := [r] + recs;
    assert all[0] == r;
    forall i | 0 <= i < |recs| ensures recs[i].id in Ids(all) {
      assert all[i + 1] == recs[i];
    }
    forall i | 0 <= i < |recs| && recs[i].link.Some? ensures recs[i].link.value in Targets(all) {
      assert all[i + 1] == recs[i];
    }
  }

  lemma ShapeFixesLinkedTo(p: seq<Record>, q: seq<Record>, i: nat)
    requires SameShape(p, q) && i < |p|
    ensures LinkedTo(p, i) <==> LinkedTo(q, i)
  {
    ShapeFixesLinks(p[..i] + p[i + 1..], q[..i] + q[i + 1..]);
  }

  lemma DropKeepsShape(trap: seq<byte>, s: State, k: nat)
    requires Distinct(s) && Linked(s.recs) && k < |s.recs|
    ensures var t := Drop(trap, s, k); Distinct(t) && Linked(t.recs) && SameShape(s.recs, t.recs)
  {
    ShapeFixesLinks(s.recs, Drop(trap, s, k).recs);
  }

  lemma StoppedKeepsLinksIff(trap: seq<byte>, s: State, pc: int)
    requires Distinct(s) && Linked(s.recs) && Check(trap, s, pc).1 == Handled
    ensures Distinct(Check(trap, s, pc).0)
    ensures Linked(Check(trap, s, pc).0.recs) <==> !LinkedTo(s.recs, Find(s.recs, pc))
  {
    var i := Find(s.recs, pc);
    var k := IndexOf(s.recs, s.recs[i].link.value);
    var t := Drop(trap, s, k);
    DropKeepsShape(trap, s, k);
    ShapeFixesLinkedTo(s.recs, t.recs, i);
    DeleteKeepsLinksIff(trap, t, i);
  }

  lemma SetKeepsLinks(trap: seq<byte>, s: State, where: int, handler: Handler)
    requires Distinct(s) && Linked(s.recs)
    ensures var t := Set(trap, s, where, handler); Distinct(t) && Linked(t.recs)
  {
    IdsPrepend(Set(trap, s, where, handler).recs[0], s.recs);
  }

  lemma RelinkKeepsLinks(s: State, i: nat)
    requires Distinct(s) && Linked(s.recs) && i < |s.recs|
    ensures var t := Relink(s, s.recs[i].id); Distinct(t) && Linked(t.recs)
  {
    var t := Relink(s, s.recs[i].id);
    assert s.recs == [s.recs[0]] + s.recs[1..];
    IdsPrepend(s.recs[0], s.recs[1..]);
    IdsPrepend(t.recs[0], s.recs[1..]);
    assert s.recs[i].id in Ids(s.recs);
  }

  lemma LiftKeepsLinks(trap: seq<byte>, s: State, i: nat)
    requires Distinct(s) && Linked(s.recs) && i < |s.recs|
    ensures var t := Lift(trap, s, i); Distinct(t) && Linked(t.recs)
  {
    ShapeFixesLinks(s.recs, Lift(trap, s, i).recs);
  }

  lemma StepOverKeepsLinks(trap: seq<byte>, s: State, stopPc: int, stopAt: int)
    requires Distinct(s) && Linked(s.recs)
    ensures var t := StepOver(trap, s, stopPc, stopAt).0; Distinct(t) && Linked(t.recs)
  {
    var s1 := Set(trap, s, stopAt, Reinserter);
    SetKeepsLinks(trap, s, stopAt, Reinserter);
    var i := Find(s1.recs, stopPc);
    if i < |s1.recs| {
      RelinkKeepsLinks(s1, i);
      LiftKeepsLinks(trap, Relink(s1, s1.recs[i].id), i);
    }
  }

  lemma KeepingStep(trap: seq<byte>, s: State, e: Event)
    requires Sized(trap, s.recs) && Distinct(s) && Linked(s.recs) && !e.Remove? && !e.Stopped?
    ensures Distinct(Step(trap, s, e)) && Linked(Step(trap, s, e).recs)
  {
    match e
    case Insert(at) => SetKeepsLinks(trap, s, at, NoHandler);
    case Stepping(p, q) => StepOverKeepsLinks(trap, s, p, q);
    case Write(addr, data) => ShapeFixesLinks(s.recs, Shadow.Write(trap, s, addr, data).recs);
    case Lifted(pc) =>
      var i := Find(s.recs, pc);
      if i < |s.recs| { LiftKeepsLinks(trap, s, i); }
    case Dropped(pc) =>
      var i := Find(s.recs, pc);
      if i < |s.recs| { DropKeepsShape(trap, s, i); }
    case Read(_, _) =>
    case Stored(_, _) =>
  }

  /** Links stay good through every event, except exactly when a record that another one
      links to is freed. */
  lemma StepKeepsLinksIff(trap: seq<byte>, s: State, e: Event)
    requires Sized(trap, s.recs) && Distinct(s) && Linked(s.recs)
    ensures Distinct(Step(trap, s, e))
    ensures var i := Victim(trap, s, e);
            Linked(Step(trap, s, e).recs) <==> (i < |s.recs| ==> !LinkedTo(s.recs, i))
  {
    if e.Remove? {
      var i := Find(s.recs, e.addr);
      if i < |s.recs| { DeleteKeepsLinksIff(trap, s, i); }
    } else if e.Stopped? {
      if Check(trap, s, e.pc).1 == Handled { StoppedKeepsLinksIff(trap, s, e.pc); }
    } else {
      KeepingStep(trap, s, e);
    }
  }

  /** With good links a stop is one that check_breakpoints can deal with exactly when no breakpoint
      of a client, which has no handler, is the newest one there and stands. */
  lemma LinkedIsAnswerable(trap: seq<byte>, s: State, pc: int)
    requires Linked(s.recs)
    ensures Check(trap, s, pc).1 != DanglingLink
    ensures Answerable(s.recs, pc) <==>
            !(Standing(s.recs, pc) && s.recs[Find(s.recs, pc)].handler == NoHandler)
  {
    if Standing(s.recs, pc) {
      var r := s.recs[Find(s.recs, pc)];
      if r.link.Some? {
        assert r.link.value in Targets(s.recs);
        var k :| 0 <= k < |s.recs| && s.recs[k].id == r.link.value;
        assert IndexOf(s.recs, r.link.value) <= k;
      }
    }
  }

  /** No event of the run frees a record that another one links to. */
  predicate FreesNoTarget(trap: seq<byte>, s: State, es: seq<Event>)
    requires Sized(trap, s.recs)
    decreases |es|
  {
    es != [] ==>
      && (var i := Victim(trap, s, es[0]); i < |s.recs| ==> !LinkedTo(s.recs, i))
      && FreesNoTarget(trap, Step(trap, s, es[0]), es[1..])
  }

  /** The links are good in every state of the run. */
  predicate AlwaysLinked(trap: seq<byte>, s: State, es: seq<Event>)
    requires Sized(trap, s.recs)
    decreases |es|
  {
    Linked(s.recs) && (es != [] ==> AlwaysLinked(trap, Step(trap, s, es[0]), es[1..]))
  }

  /** So no stop on the run meets a dangling link as long as no record is freed that another one
      links to, and the links are good throughout exactly then. */
  lemma {:induction false} RunKeepsLinksIff(trap: seq<byte>, s: State, es: seq<Event>)
    requires Sized(trap, s.recs) && Distinct(s) && Linked(s.recs)
    ensures AlwaysLinked(trap, s, es) <==> FreesNoTarget(trap, s, es)
    ensures FreesNoTarget(trap, s, es) ==>
              Distinct(Run(trap, s, es)) && forall pc :: Check(trap, Run(trap, s, es), pc).1 != DanglingLink
    decreases |es|
  {
    if es != [] {
      StepKeepsLinksIff(trap, s, es[0]);
      if Linked(Step(trap, s, es[0]).recs) {
        RunKeepsLinksIff(trap, Step(trap, s, es[0]), es[1..]);
      }
    } else {
      forall pc ensures Check(trap, s, pc).1 != DanglingLink {
        LinkedIsAnswerable(trap, s, pc);
      }
    }
  }

  // ---------- the cycle on its own ----------

  /** Record `i` of a chain is record `i + 1` under a new head. */
  lemma Below(head: Record, recs: seq<Record>, i: nat, r: Record)
    requires i < |recs|
    ensures ([head] + recs)[1..] == recs && ([head] + recs)[i + 1] == recs[i]
    ensures ([head] + recs)[i + 1 := r] == [head] + recs[i := r]
  {}

  lemma StepOverKeepsDistinct(trap: seq<byte>, s: State, stopPc: int, stopAt: int)
    requires Distinct(s)
    ensures Distinct(StepOver(trap, s, stopPc, stopAt).0)
  {
    var s1 := Set(trap, s, stopAt, Reinserter);
    assert Distinct(s1);
    var i := Find(s1.recs, stopPc);
    hide Set, Find, Overlay;
    if i < |s1.recs| {
      assert Distinct(Relink(s1, s1.recs[i].id));
    }
  }

  /** The state between the two halves of the cycle. */
  lemma StepOverShape(trap: seq<byte>, s: State, stopPc: int, stopAt: int)
    requires Find(s.recs, stopPc) < |s.recs| && stopPc != stopAt
    ensures var i := Find(s.recs, stopPc);
            var (t, ok) := StepOver(trap, s, stopPc, stopAt);
            && ok && t.nextId == s.nextId + 1
            && t.recs == [Record(s.nextId, stopAt, Slice(s.raw, stopAt, |trap|), false,
                                 Some(s.recs[i].id), Reinserter)]
                         + s.recs[i := s.recs[i].(reinserting := true)]
            && t.raw == Overlay(Overlay(s.raw, stopAt, trap), stopPc, s.recs[i].saved)
  {
    var s1 := Set(trap, s, stopAt, Reinserter);
    var i := Find(s.recs, stopPc);
    Below(s1.recs[0], s.recs, i, s.recs[i]);
    assert Find(s1.recs, stopPc) == i + 1;
    var bp := s1.recs[0].(link := Some(s.recs[i].id));
    Below(bp, s.recs, i, s.recs[i].(reinserting := true));
    assert Relink(s1, s.recs[i].id) == s1.(recs := [bp] + s.recs);
  }

  /** What a stop at the newest record does when that record steps over the one at `i`. */
  lemma StopShape(trap: seq<byte>, u: State, i: nat)
    requires Distinct(u) && 0 < i < |u.recs|
    requires !u.recs[0].reinserting && u.recs[0].handler == Reinserter
    requires u.recs[0].link == Some(u.recs[i].id)
    ensures var (v, hit) := Check(trap, u, u.recs[0].pc);
            && hit == Handled && v.nextId == u.nextId
            && v.recs == u.recs[1..][i - 1 := u.recs[i].(reinserting := false)]
            && v.raw == Overlay(Overlay(u.raw, u.recs[i].pc, trap), u.recs[0].pc, u.recs[0].saved)
  {
    assert Find(u.recs, u.recs[0].pc) == 0;
    assert IndexOf(u.recs, u.recs[i].id) == i;
  }

  lemma CycleRaw(trap: seq<byte>, raw: Space, p: int, q: int, saved: seq<byte>)
    requires |saved| == |trap| && Slice(raw, p, |trap|) == trap
    ensures Same(Overlay(Overlay(Overlay(Overlay(raw, q, trap), p, saved), p, trap), q, Slice(raw, q, |trap|)), raw)
  {
    forall a: int | p <= a < p + |trap| ensures raw(a) == trap[a - p] {
      assert raw(a) == Slice(raw, p, |trap|)[a - p];
    }
  }

  /** The cycle restores the chain and raw memory, wherever the second breakpoint goes, as long
      as it goes elsewhere and the first one was standing. */
  lemma CycleRestores(trap: seq<byte>, s: State, stopPc: int, stopAt: int)
    requires Sized(trap, s.recs) && Distinct(s) && stopPc != stopAt
    requires var i := Find(s.recs, stopPc);
             i < |s.recs| && !s.recs[i].reinserting && Slice(s.raw, stopPc, |trap|) == trap
    ensures var (t, ok) := StepOver(trap, s, stopPc, stopAt);
            var (u, hit) := Check(trap, t, stopAt);
            ok && hit == Handled && u.recs == s.recs && Same(u.raw, s.raw)
  {
    var i := Find(s.recs, stopPc);
    StepOverShape(trap, s, stopPc, stopAt);
    StepOverKeepsDistinct(trap, s, stopPc, stopAt);
    CycleRaw(trap, s.raw, stopPc, stopAt, s.recs[i].saved);
    StopShape(trap, StepOver(trap, s, stopPc, stopAt).0, i + 1);
  }

  // ---------- the cycle with memory traffic in between ----------

  /** Events that leave the chain as it is, except for saved bytes. */
  predicate Traffic(es: seq<Event>) {
    forall i :: 0 <= i < |es| ==> es[i].Read? || es[i].Write? || es[i].Stored?
  }

  /** Equal but for the saved bytes. */
  ghost predicate Alike(p: seq<Record>, q: seq<Record>) {
    |p| == |q| && forall i :: 0 <= i < |p| ==> q[i] == p[i].(saved := q[i].saved)
  }

  lemma {:induction false} TrafficKeepsShape(trap: seq<byte>, s: State, es: seq<Event>)
    requires Sized(trap, s.recs) && Traffic(es)
    ensures var t := Run(trap, s, es); Alike(s.recs, t.recs) && t.nextId == s.nextId
    decreases |es|
  {
    if es != [] {
      TrafficKeepsShape(trap, Step(trap, s, es[0]), es[1..]);
    }
  }

  lemma NewestIsDeletable(recs: seq<Record>)
    requires recs != []
    ensures Deletable(recs, 0)
  {
    assert recs[..0] == [];
  }

  /** The newest record is a live temporary breakpoint that steps over the one at `i`. */
  ghost predicate Armed(s: State, i: nat) {
    && Distinct(s) && 0 < i < |s.recs|
    && !s.recs[0].reinserting && s.recs[0].handler == Reinserter
    && s.recs[0].link == Some(s.recs[i].id)
  }

  lemma StopKeepsView(trap: seq<byte>, u: State, i: nat)
    requires Sized(trap, u.recs) && Armed(u, i)
    ensures Same(Logical(Check(trap, u, u.recs[0].pc).0), Logical(u))
  {
    StopShape(trap, u, i);
    assert Find(u.recs, u.recs[0].pc) == 0;
    NewestIsDeletable(u.recs);
    CheckKeepsViewIff(trap, u, u.recs[0].pc);
  }

  lemma TrafficKeepsArmed(trap: seq<byte>, s: State, i: nat, es: seq<Event>)
    requires Sized(trap, s.recs) && Armed(s, i) && Traffic(es)
    ensures var u := Run(trap, s, es); Armed(u, i) && Alike(s.recs, u.recs)
  {
    TrafficKeepsShape(trap, s, es);
    var u := Run(trap, s, es);
    assert forall k :: 0 <= k < |s.recs| ==> u.recs[k].id == s.recs[k].id;
  }

  lemma TrafficThenStop(trap: seq<byte>, t: State, i: nat, es: seq<Event>)
    requires Sized(trap, t.recs) && Armed(t, i) && Traffic(es) && Guarded(trap, t, es)
    ensures var (v, hit) := Check(trap, Run(trap, t, es), t.recs[0].pc);
            && hit == Handled
            && Alike(t.recs[1..][i - 1 := t.recs[i].(reinserting := false)], v.recs)
            && Same(Logical(v), PlainRun(Logical(t), es))
  {
    TrafficKeepsArmed(trap, t, i, es);
    RunRefines(trap, t, es);
    var u := Run(trap, t, es);
    StopShape(trap, u, i);
    StopKeepsView(trap, u, i);
  }

  /** Writes made while the breakpoint is lifted survive the cycle as logical memory, and
      the chain comes back as it was. */
  lemma CycleWithTraffic(trap: seq<byte>, s: State, stopPc: int, stopAt: int, es: seq<Event>)
    requires Sized(trap, s.recs) && Distinct(s) && stopPc != stopAt && Traffic(es)
    requires var i := Find(s.recs, stopPc); i < |s.recs| && !s.recs[i].reinserting
    requires Guarded(trap, StepOver(trap, s, stopPc, stopAt).0, es)
    ensures var (v, hit) := Check(trap, Run(trap, StepOver(trap, s, stopPc, stopAt).0, es), stopAt);
            hit == Handled && Alike(s.recs, v.recs) && Same(Logical(v), PlainRun(Logical(s), es))
  {
    var i := Find(s.recs, stopPc);
    StepOverShape(trap, s, stopPc, stopAt);
    StepOverKeepsDistinct(trap, s, stopPc, stopAt);
    StepOverKeepsView(trap, s, stopPc, stopAt);
    var t := StepOver(trap, s, stopPc, stopAt).0;
    hide StepOver, Set, Run, PlainRun, Check, Logical, Guarded;
    PlainRunSame(Logical(t), Logical(s), es);
    TrafficThenStop(trap, t, i + 1, es);
    assert t.recs[1..][i := t.recs[i + 1].(reinserting := false)] == s.recs;
  }
}
