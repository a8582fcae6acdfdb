/** Sessions that do not look like plain memory: inputs for which the conditions of module
    ShadowRuns fail, and the client sees a trap instruction. */
module ShadowLimits {
  import opened Memory
  import opened Options
  import opened Shadow
  import opened ShadowWrite
  import opened ShadowRuns

  /** ppc_breakpoint */
  const TRAP: seq<byte> := [0x7f, 0xe0, 0x00, 0x08]

  /** Memory full of zeros with breakpoints set at `p` and then at `q`. */
  function TwoBreakpoints(p: int, q: int): (s: State)
    ensures Sized(TRAP, s.recs) && |s.recs| == 2 && s.recs[0].pc == q && s.recs[1].pc == p
  {
    var s := Step(TRAP, State((a: int) => 0, [], 1), Insert(p));
    assert Sized(TRAP, s.recs);
    Step(TRAP, s, Insert(q))
  }

  /** Two breakpoints that overlap in part, removed oldest first: the newer one had saved a
      byte of the older one's trap, which comes to light. */
  lemma OverlapRemovedOldestFirst()
    ensures var s := TwoBreakpoints(0, 1);
            && Reply(s, Read(1, 1)) == [0]
            && Reply(Step(TRAP, s, Remove(0)), Read(1, 1)) == [TRAP[1]]
            && !Guard(TRAP, s, Remove(0))
  {
    var s := TwoBreakpoints(0, 1);
    var t := Step(TRAP, s, Remove(0));
    ReadBackIsLogical(s, 1, 1);
    ReadBackIsLogical(t, 1, 1);
    DeleteByte(TRAP, s, 1, 1);
    SeenIsOldest(s.raw(1), s.recs, 1);
    assert Oldest(s.recs, 1) == 1 && Oldest(s.recs[..1], 1) == 0;
    StepsApart(s, t, 1);
  }

  lemma StepsApart(s: State, t: State, a: int)
    requires Sized(TRAP, s.recs) && t == Step(TRAP, s, Remove(0))
    requires Logical(t)(a) != Logical(s)(a)
    ensures !Guard(TRAP, s, Remove(0))
  {
    if Guard(TRAP, s, Remove(0)) {
      StepRefinesIff(TRAP, s, Remove(0));
    }
  }

  /** A write under two breakpoints at one address: the older one saves the newer one's trap
      instead of the client's byte, so the client reads back a byte it did not write. */
  lemma WriteUnderTwo(w: byte)
    requires w != TRAP[0]
    ensures var s := TwoBreakpoints(0, 0);
            && Reply(Step(TRAP, s, Write(0, [w])), Read(0, 1)) == [TRAP[0]]
            && !Guard(TRAP, s, Write(0, [w]))
  {
    var s := TwoBreakpoints(0, 0);
    var t := Step(TRAP, s, Write(0, [w]));
    ReadBackIsLogical(t, 0, 1);
    WriteByte(TRAP, s, 0, [w], 0);
    assert Oldest(s.recs, 0) == 1;
    assert OldestInserted(s.recs[..1], 0) == 0;
    PassedIs(TRAP, s.recs[..1], 0, w);
    assert !Fit(TRAP, s.recs, 0 + 0, [w][0]);
  }

  /** A store by the inferior under a breakpoint: the client goes on seeing the byte saved there. */
  lemma StoreUnderBreakpoint(w: byte)
    requires w != 0
    ensures var s := TwoBreakpoints(0, 0);
            && Reply(Step(TRAP, s, Stored(0, [w])), Read(0, 1)) == [0]
            && !Guard(TRAP, s, Stored(0, [w]))
  {
    var s := TwoBreakpoints(0, 0);
    var t := Step(TRAP, s, Stored(0, [w]));
    ReadBackIsLogical(t, 0, 1);
    SeenIsOldest(t.raw(0), t.recs, 0);
    assert Oldest(s.recs, 0) == 1;
    assert !HarmlessAt(s.recs, 0, [w], 0);
  }

  /** A stop at a breakpoint of a Z0 packet: check_breakpoints would call a null handler. */
  lemma StopAtClientsBreakpoint()
    ensures var s := Step(TRAP, State((a: int) => 0, [], 1), Insert(0));
            Check(TRAP, s, 0).1 == NullCall && !Answerable(s.recs, 0)
  {
    var s := Step(TRAP, State((a: int) => 0, [], 1), Insert(0));
    assert s.recs[0].pc == 0;
  }

  /** Step over a breakpoint, and remove it with a z0 packet before the temporary one is hit: it
      would follow the link to the freed record. */
  lemma OriginalRemovedMeanwhile()
    ensures var s := Run(TRAP, State((a: int) => 0, [], 1), [Insert(0), Stepping(0, 4), Remove(0)]);
            Check(TRAP, s, 4).1 == DanglingLink && !Answerable(s.recs, 4)
  {
    var s0 := State((a: int) => 0, [], 1);
    var s1 := Step(TRAP, s0, Insert(0));
    var s2 := Step(TRAP, s1, Stepping(0, 4));
    var s3 := Step(TRAP, s2, Remove(0));
    var es := [Insert(0), Stepping(0, 4), Remove(0)];
    assert es[1..] == [Stepping(0, 4), Remove(0)] && es[1..][1..] == [Remove(0)] && es[1..][1..][1..] == [];
    assert s1.recs[0].pc == 0 && s1.recs[0].id == 1;
    assert s2.recs[0].pc == 4 && s2.recs[0].link == Some(1) && s2.recs[1].pc == 0;
    assert s3.recs == [s2.recs[0]];
    assert s3.recs[0].id == 2;
  }
}
