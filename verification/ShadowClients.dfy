/** Conditions on the packets alone under which the breakpoint layer is exact, and what
    the step-over cycle restores. */
module ShadowClients {
  import opened Arithmetic
  import opened Memory
  import opened Shadow
  import opened ShadowWrite
  import opened ShadowRuns

  // ---------- pairwise disjoint breakpoints ----------

  ghost predicate Disjoint(recs: seq<Record>) {
    forall i, k, a: int {:trigger recs[i].Covers(a), recs[k].Covers(a)} ::
      0 <= i < k < |recs| ==> !(recs[i].Covers(a) && recs[k].Covers(a))
  }

  /** Every state of the run has pairwise disjoint breakpoints, the inferior stores only where
      there is none, and no stop is reported that the code cannot handle. */
  ghost predicate DisjointRun(trap: seq<byte>, s: State, es: seq<Event>)
    requires Sized(trap, s.recs)
    decreases |es|
  {
    && Disjoint(s.recs)
    && (es != [] ==>
          && (es[0].Stored? ==> Clear(s.recs, es[0].addr, |es[0].data|))
          && (es[0].Stopped? ==> Answerable(s.recs, es[0].pc))
          && DisjointRun(trap, Step(trap, s, es[0]), es[1..]))
  }

  lemma DisjointIsDeletable(recs: seq<Record>, i: nat)
    requires Disjoint(recs) && i < |recs|
    ensures Deletable(recs, i)
  {
    forall a: int ensures !Exposes(recs, i, a) {
      assert recs[i].Covers(a) ==> forall k :: 0 <= k < i ==> !recs[..i][k].Covers(a);
    }
  }

  lemma {:induction false} DisjointRunIsGuarded(trap: seq<byte>, s: State, es: seq<Event>)
    requires Sized(trap, s.recs) && DisjointRun(trap, s, es)
    ensures Guarded(trap, s, es)
    decreases |es|
  {
    if es != [] {
      match es[0] {
        case Write(addr, data) => SingleIsWritable(trap, s.recs, addr, data);
        case Remove(at) =>
          var i := Find(s.recs, at);
          if i < |s.recs| { DisjointIsDeletable(s.recs, i); }
        case Stopped(pc) =>
          var i := Find(s.recs, pc);
          if i < |s.recs| { DisjointIsDeletable(s.recs, i); }
        case _ =>
      }
      DisjointRunIsGuarded(trap, Step(trap, s, es[0]), es[1..]);
    }
  }

  lemma SetKeepsInPlace(trap: seq<byte>, s: State, where: int, handler: Handler)
    requires Sized(trap, s.recs) && InPlace(trap, s) && Disjoint(Set(trap, s, where, handler).recs)
    ensures InPlace(trap, Set(trap, s, where, handler))
  {
    var t := Set(trap, s, where, handler);
    forall i, a {:trigger t.recs[i].Covers(a)} | 0 <= i < |t.recs| && t.recs[i].Covers(a)
      ensures t.raw(a) == Planted(trap, t.recs[i], a)
    {
      if i > 0 {
        assert s.recs[i - 1].Covers(a) && !t.recs[0].Covers(a);
      }
    }
  }

  lemma ReplantKeepsInPlace(trap: seq<byte>, s: State, t: State, i: nat, reinserting: bool)
    requires Sized(trap, s.recs) && InPlace(trap, s) && Disjoint(s.recs) && i < |s.recs|
    requires t == if reinserting then Lift(trap, s, i) else Drop(trap, s, i)
    ensures InPlace(trap, t) && Disjoint(t.recs)
  {
    forall k, a {:trigger t.recs[k].Covers(a)} | 0 <= k < |t.recs| && t.recs[k].Covers(a)
      ensures s.recs[k].Covers(a) && t.raw(a) == Planted(trap, t.recs[k], a)
    {
      assert s.recs[k].Covers(a);
      assert k != i ==> !s.recs[i].Covers(a);
    }
  }

  lemma DeleteKeepsInPlace(trap: seq<byte>, s: State, i: nat)
    requires Sized(trap, s.recs) && InPlace(trap, s) && Disjoint(s.recs) && i < |s.recs|
    ensures InPlace(trap, Delete(trap, s, i))
  {
    var t := Delete(trap, s, i);
    forall k, a {:trigger t.recs[k].Covers(a)} | 0 <= k < |t.recs| && t.recs[k].Covers(a)
      ensures t.raw(a) == Planted(trap, t.recs[k], a)
    {
      var k' := if k < i then k else k + 1;
      assert t.recs[k] == s.recs[k'];
      assert s.recs[k'].Covers(a) && !s.recs[i].Covers(a);
    }
  }

  lemma StepOverKeepsInPlace(trap: seq<byte>, s: State, stopPc: int, stopAt: int)
    requires Sized(trap, s.recs) && InPlace(trap, s)
    requires Disjoint(StepOver(trap, s, stopPc, stopAt).0.recs)
    ensures InPlace(trap, StepOver(trap, s, stopPc, stopAt).0)
  {
    var s1 := Set(trap, s, stopAt, Reinserter);
    var i := Find(s1.recs, stopPc);
    if i < |s1.recs| {
      var t := StepOver(trap, s, stopPc, stopAt).0;
      var s2 := Relink(s1, s1.recs[i].id);
      forall k, a | 0 <= k < |s1.recs| && s1.recs[k].Covers(a)
        ensures t.recs[k].Covers(a) && s2.recs[k].Covers(a)
      {}
      SetKeepsInPlace(trap, s, stopAt, Reinserter);
      assert InPlace(trap, s2) && Disjoint(s2.recs) by {
        assert forall k, a :: 0 <= k < |s2.recs| && s2.recs[k].Covers(a) ==> s1.recs[k].Covers(a) && t.recs[k].Covers(a);
      }
      ReplantKeepsInPlace(trap, s2, t, i, true);
    } else {
      SetKeepsInPlace(trap, s, stopAt, Reinserter);
    }
  }

  lemma StoredKeepsInPlace(trap: seq<byte>, s: State, addr: int, data: seq<byte>)
    requires Sized(trap, s.recs) && InPlace(trap, s) && Clear(s.recs, addr, |data|)
    ensures InPlace(trap, Step(trap, s, Stored(addr, data)))
  {
    forall i, a | 0 <= i < |s.recs| && s.recs[i].Covers(a)
      ensures !(addr <= a < addr + |data|)
    {
      assert Oldest(s.recs, a) >= i;
    }
  }

  lemma StepKeepsInPlace(trap: seq<byte>, s: State, es: seq<Event>)
    requires Sized(trap, s.recs) && InPlace(trap, s) && es != [] && DisjointRun(trap, s, es)
    ensures InPlace(trap, Step(trap, s, es[0]))
  {
    assert Disjoint(Step(trap, s, es[0]).recs);
    match es[0]
    case Read(_, _) =>
    case Write(addr, data) => WriteKeepsInPlace(trap, s, addr, data);
    case Insert(at) => SetKeepsInPlace(trap, s, at, NoHandler);
    case Remove(at) =>
      var i := Find(s.recs, at);
      if i < |s.recs| { DeleteKeepsInPlace(trap, s, i); }
    case Lifted(pc) =>
      var i := Find(s.recs, pc);
      if i < |s.recs| { ReplantKeepsInPlace(trap, s, Lift(trap, s, i), i, true); }
    case Dropped(pc) =>
      var i := Find(s.recs, pc);
      if i < |s.recs| && s.recs[i].reinserting { ReplantKeepsInPlace(trap, s, Drop(trap, s, i), i, false); }
    case Stepping(p, q) => StepOverKeepsInPlace(trap, s, p, q);
    case Stopped(pc) =>
      if Check(trap, s, pc).1 == Handled {
        var i := Find(s.recs, pc);
        var k := IndexOf(s.recs, s.recs[i].link.value);
        ReplantKeepsInPlace(trap, s, Drop(trap, s, k), k, false);
        DeleteKeepsInPlace(trap, Drop(trap, s, k), i);
      }
    case Stored(addr, data) => StoredKeepsInPlace(trap, s, addr, data);
  }

  lemma {:induction false} DisjointRunKeepsInPlace(trap: seq<byte>, s: State, es: seq<Event>)
    requires Sized(trap, s.recs) && InPlace(trap, s) && DisjointRun(trap, s, es)
    ensures InPlace(trap, Run(trap, s, es)) && Disjoint(Run(trap, s, es).recs)
    decreases |es|
  {
    if es != [] {
      StepKeepsInPlace(trap, s, es);
      DisjointRunKeepsInPlace(trap, Step(trap, s, es[0]), es[1..]);
    }
  }

  /** With disjoint breakpoints a session ends with raw memory equal to plain memory but for
      the traps of the inserted breakpoints; each read on the way was answered as by plain memory. */
  lemma DisjointRunRefines(trap: seq<byte>, s: State, es: seq<Event>)
    requires Sized(trap, s.recs) && InPlace(trap, s) && DisjointRun(trap, s, es)
    ensures Replies(trap, s, es) == PlainReplies(Logical(s), es)
    ensures var t := Run(trap, s, es);
            forall a: int ::
              var i := Oldest(t.recs, a);
              t.raw(a) == if i >= 0 && !t.recs[i].reinserting then trap[a - t.recs[i].pc]
                          else PlainRun(Logical(s), es)(a)
  {
    hide DisjointRun, Guarded, Run, PlainRun, Replies, PlainReplies, Seen, Oldest;
    DisjointRunIsGuarded(trap, s, es);
    DisjointRunKeepsInPlace(trap, s, es);
    RunRefines(trap, s, es);
    var t := Run(trap, s, es);
    forall a: int
      ensures var i := Oldest(t.recs, a);
              t.raw(a) == if i >= 0 && !t.recs[i].reinserting then trap[a - t.recs[i].pc]
                          else PlainRun(Logical(s), es)(a)
    {
      SeenIsOldest(t.raw(a), t.recs, a);
      assert Logical(t)(a) == PlainRun(Logical(s), es)(a);
    }
  }

  // ---------- aligned breakpoints: same place or apart ----------

  ghost predicate Aligned(trap: seq<byte>, recs: seq<Record>) {
    |trap| > 0 && forall i :: 0 <= i < |recs| ==> recs[i].pc % |trap| == 0
  }

  /** A client that only sends packets: it sets breakpoints at multiples of the trap length, as
      for instructions of fixed size, and writes no byte under two of them. The same address
      may be set and removed any number of times. */
  ghost predicate AlignedRun(trap: seq<byte>, s: State, es: seq<Event>)
    requires Sized(trap, s.recs) && |trap| > 0
    decreases |es|
  {
    es != [] ==>
      && (match es[0]
          case Read(_, _) => true
          case Insert(addr) => addr % |trap| == 0
          case Remove(_) => true
          case Write(addr, data) => Single(s.recs, addr, |data|)
          case Stored(addr, data) => Clear(s.recs, addr, |data|)
          case _ => false)
      && AlignedRun(trap, Step(trap, s, es[0]), es[1..])
  }

  /** The shape of every state that such a client can reach: all breakpoints are inserted, all
      traps stand, and a breakpoint set on top of another saved the other's trap. */
  ghost predicate Stacked(trap: seq<byte>, s: State) {
    && Sized(trap, s.recs) && Aligned(trap, s.recs)
    && InPlace(trap, s)
    && (forall i :: 0 <= i < |s.recs| ==> !s.recs[i].reinserting)
    && (forall i, k :: 0 <= i < k < |s.recs| && s.recs[i].pc == s.recs[k].pc ==> s.recs[i].saved == trap)
  }

  lemma AlignedApart(p: int, q: int, n: int, a: int)
    requires n > 0 && p % n == 0 && q % n == 0
    requires p <= a < p + n && q <= a < q + n
    ensures p == q
  {
    assert p == n * (p / n) && q == n * (q / n);
    var d := p / n - q / n;
    assert p - q == n * d;
    MultipleIsFar(n, d);
  }

  lemma AlignedIsDeletable(trap: seq<byte>, recs: seq<Record>, where: int)
    requires Sized(trap, recs) && Aligned(trap, recs)
    ensures DeletableAt(recs, where)
  {
    var i := Find(recs, where);
    if i < |recs| {
      forall a: int ensures !Exposes(recs, i, a) {
        var k := Oldest(recs[..i], a);
        if k >= 0 && recs[i].Covers(a) { AlignedApart(recs[k].pc, recs[i].pc, |trap|, a); }
      }
    }
  }

  lemma InsertKeepsStacked(trap: seq<byte>, s: State, at: int)
    requires Stacked(trap, s) && at % |trap| == 0
    ensures Stacked(trap, Set(trap, s, at, NoHandler))
  {
    var t := Set(trap, s, at, NoHandler);
    forall i, a {:trigger t.recs[i].Covers(a)} | 0 <= i < |t.recs| && t.recs[i].Covers(a)
      ensures t.raw(a) == Planted(trap, t.recs[i], a)
    {
      if i > 0 {
        assert s.recs[i - 1].Covers(a);
        if at <= a < at + |trap| { AlignedApart(at, t.recs[i].pc, |trap|, a); }
      }
    }
    forall k | 0 < k < |t.recs| && t.recs[k].pc == at
      ensures t.recs[0].saved == trap
    {
      var r := s.recs[k - 1];
      forall j | 0 <= j < |trap| ensures t.recs[0].saved[j] == trap[j] {
        assert r.Covers(at + j);
      }
    }
  }

  lemma RemoveKeepsStacked(trap: seq<byte>, s: State, at: int)
    requires Stacked(trap, s)
    ensures Stacked(trap, DeleteAt(trap, s, at))
  {
    var i := Find(s.recs, at);
    if i < |s.recs| {
      var t := Delete(trap, s, i);
      forall k, a {:trigger t.recs[k].Covers(a)} | 0 <= k < |t.recs| && t.recs[k].Covers(a)
        ensures t.raw(a) == Planted(trap, t.recs[k], a)
      {
        var k' := if k < i then k else k + 1;
        assert t.recs[k] == s.recs[k'];
        assert s.recs[k'].Covers(a);
        if at <= a < at + |trap| { AlignedApart(at, t.recs[k].pc, |trap|, a); }
      }
    }
  }

  lemma WriteKeepsStacked(trap: seq<byte>, s: State, addr: int, data: seq<byte>)
    requires Stacked(trap, s) && Single(s.recs, addr, |data|)
    ensures Stacked(trap, Shadow.Write(trap, s, addr, data))
  {
    var t := Shadow.Write(trap, s, addr, data);
    WriteKeepsInPlace(trap, s, addr, data);
    forall i, k | 0 <= i < k < |t.recs| && t.recs[i].pc == t.recs[k].pc
      ensures t.recs[i].saved == trap
    {
      forall j | 0 <= j < |trap| ensures t.recs[i].saved[j] == trap[j] {
        var a := s.recs[i].pc + j;
        assert s.recs[i].Covers(a) && s.recs[k].Covers(a);
      }
    }
  }

  /** The shape is kept by every event of such a client. */
  lemma StepKeepsStacked(trap: seq<byte>, s: State, es: seq<Event>)
    requires Stacked(trap, s) && es != [] && AlignedRun(trap, s, es)
    ensures Stacked(trap, Step(trap, s, es[0])) && Guard(trap, s, es[0])
  {
    match es[0]
    case Insert(at) => InsertKeepsStacked(trap, s, at);
    case Remove(at) =>
      RemoveKeepsStacked(trap, s, at);
      AlignedIsDeletable(trap, s.recs, at);
    case Write(addr, data) =>
      WriteKeepsStacked(trap, s, addr, data);
      SingleIsWritable(trap, s.recs, addr, data);
    case Stored(addr, data) =>
      forall i, a | 0 <= i < |s.recs| && s.recs[i].Covers(a)
        ensures !(addr <= a < addr + |data|)
      {
        assert Oldest(s.recs, a) >= i;
      }
    case Read(_, _) =>
  }

  /** Packets with aligned breakpoints, set and removed in any order and any number of times,
      are answered as by plain memory; the traps of all live breakpoints stand throughout, so
      a trap set several times stays until its last removal. */
  lemma {:induction false} AlignedRunRefines(trap: seq<byte>, s: State, es: seq<Event>)
    requires Stacked(trap, s) && AlignedRun(trap, s, es)
    ensures Guarded(trap, s, es)
    ensures Replies(trap, s, es) == PlainReplies(Logical(s), es)
    ensures var t := Run(trap, s, es);
            forall i :: 0 <= i < |t.recs| ==> Slice(t.raw, t.recs[i].pc, |trap|) == trap
    decreases |es|
  {
    AlignedRunIsGuarded(trap, s, es);
    RunRefines(trap, s, es);
    var t := Run(trap, s, es);
    forall i, j | 0 <= i < |t.recs| && 0 <= j < |trap|
      ensures t.raw(t.recs[i].pc + j) == trap[j]
    {
      assert t.recs[i].Covers(t.recs[i].pc + j);
    }
  }

  lemma {:induction false} AlignedRunIsGuarded(trap: seq<byte>, s: State, es: seq<Event>)
    requires Stacked(trap, s) && AlignedRun(trap, s, es)
    ensures Guarded(trap, s, es) && Stacked(trap, Run(trap, s, es))
    decreases |es|
  {
    if es != [] {
      StepKeepsStacked(trap, s, es);
      AlignedRunIsGuarded(trap, Step(trap, s, es[0]), es[1..]);
    }
  }
}
