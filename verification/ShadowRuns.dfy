/** Whole sessions over the breakpoint layer: whatever the interleaving, the client cannot tell
    raw memory plus breakpoint records from plain memory. */
module ShadowRuns {
  import opened Memory
  import opened Shadow
  import opened ShadowWrite

  datatype Event =
    | Read(addr: int, len: nat)              // m packet
    | Write(addr: int, data: seq<byte>)      // M packet
    | Insert(addr: int)                      // Z0 packet
    | Remove(addr: int)                      // z0 packet
    | Lifted(pc: int)                        // uninsert_breakpoint
    | Dropped(pc: int)                       // reinsert_breakpoint
    | Stepping(stopPc: int, stopAt: int)     // reinsert_breakpoint_by_bp
    | Stopped(pc: int)                       // check_breakpoints
    | Stored(addr: int, data: seq<byte>)     // the inferior ran and stored data

  function Step(trap: seq<byte>, s: State, e: Event): (t: State)
    requires Sized(trap, s.recs)
    ensures Sized(trap, t.recs)
  {
    match e
    case Read(_, _) => s
    case Write(addr, data) => Shadow.Write(trap, s, addr, data)
    case Insert(addr) => Set(trap, s, addr, NoHandler)
    case Remove(addr) => DeleteAt(trap, s, addr)
    case Lifted(pc) => Uninsert(trap, s, pc).0
    case Dropped(pc) => Reinsert(trap, s, pc).0
    case Stepping(stopPc, stopAt) => StepOver(trap, s, stopPc, stopAt).0
    case Stopped(pc) => Check(trap, s, pc).0
    case Stored(addr, data) => s.(raw := Overlay(s.raw, addr, data))
  }

  /** The bytes of an m reply. */
  function Reply(s: State, e: Event): seq<byte> {
    if e.Read? then ReadBack(s.recs, Slice(s.raw, e.addr, e.len), e.addr) else []
  }

  /** What each event asks of the state it meets; Read, Insert, Lifted, Dropped and Stepping
      ask nothing. */
  ghost predicate Guard(trap: seq<byte>, s: State, e: Event)
    requires Sized(trap, s.recs)
  {
    match e
    case Write(addr, data) => Writable(trap, s.recs, addr, data)
    case Remove(addr) => DeletableAt(s.recs, addr)
    case Stopped(pc) =>
      Answerable(s.recs, pc) && (Check(trap, s, pc).1 == Handled ==> DeletableAt(s.recs, pc))
    case Stored(addr, data) => Harmless(s.recs, addr, data)
    case _ => true
  }

  /** Each byte that the inferior stores lies under no breakpoint, or is what the client was
      shown there all along. */
  ghost predicate Harmless(recs: seq<Record>, addr: int, data: seq<byte>) {
    forall a: int :: HarmlessAt(recs, addr, data, a)
  }

  predicate HarmlessAt(recs: seq<Record>, addr: int, data: seq<byte>, a: int) {
    var o := Oldest(recs, a);
    o >= 0 && addr <= a < addr + |data| ==> recs[o].saved[a - recs[o].pc] == data[a - addr]
  }

  /** The inferior stores under no breakpoint at all. */
  ghost predicate Clear(recs: seq<Record>, addr: int, n: nat) {
    forall a: int :: addr <= a < addr + n ==> Oldest(recs, a) < 0
  }

  ghost predicate DeletableAt(recs: seq<Record>, where: int) {
    var i := Find(recs, where);
    i < |recs| ==> Deletable(recs, i)
  }

  function Run(trap: seq<byte>, s: State, es: seq<Event>): (t: State)
    requires Sized(trap, s.recs)
    ensures Sized(trap, t.recs)
    decreases |es|
  {
    if es == [] then s else Run(trap, Step(trap, s, es[0]), es[1..])
  }

  function Replies(trap: seq<byte>, s: State, es: seq<Event>): seq<seq<byte>>
    requires Sized(trap, s.recs)
    decreases |es|
  {
    if es == [] then [] else [Reply(s, es[0])] + Replies(trap, Step(trap, s, es[0]), es[1..])
  }

  ghost predicate Guarded(trap: seq<byte>, s: State, es: seq<Event>)
    requires Sized(trap, s.recs)
    decreases |es|
  {
    es != [] ==> Guard(trap, s, es[0]) && Guarded(trap, Step(trap, s, es[0]), es[1..])
  }

  // ---------- the simple form: memory without breakpoints ----------

  function PlainStep(m: Space, e: Event): Space {
    match e
    case Write(addr, data) => Overlay(m, addr, data)
    case Stored(addr, data) => Overlay(m, addr, data)
    case _ => m
  }

  function PlainRun(m: Space, es: seq<Event>): Space {
    if es == [] then m else PlainRun(PlainStep(m, es[0]), es[1..])
  }

  function PlainReplies(m: Space, es: seq<Event>): seq<seq<byte>> {
    if es == [] then []
    else [if es[0].Read? then Slice(m, es[0].addr, es[0].len) else []]
         + PlainReplies(PlainStep(m, es[0]), es[1..])
  }

  // ---------- refinement ----------

  lemma {:induction false} OldestByCover(p: seq<Record>, q: seq<Record>, a: int)
    requires |p| == |q|
    requires forall i :: 0 <= i < |p| ==> p[i].pc == q[i].pc && p[i].saved == q[i].saved
    ensures Oldest(p, a) == Oldest(q, a)
  {
    var i, j := Oldest(p, a), Oldest(q, a);
    assert i >= 0 ==> q[i].Covers(a);
    assert j >= 0 ==> p[j].Covers(a);
  }

  lemma DeletableBySaved(p: seq<Record>, q: seq<Record>, i: nat)
    requires |p| == |q| && i < |p|
    requires forall k :: 0 <= k < |p| ==> p[k].pc == q[k].pc && p[k].saved == q[k].saved
    ensures Deletable(p, i) ==> Deletable(q, i)
  {
    hide Oldest;
    forall a: int ensures Exposes(q, i, a) ==> Exposes(p, i, a) {
      OldestByCover(p[i + 1..], q[i + 1..], a);
      OldestByCover(p[..i], q[..i], a);
    }
  }

  lemma DropThenDelete(trap: seq<byte>, s: State, k: nat, i: nat)
    requires Sized(trap, s.recs) && i < |s.recs| && k < |s.recs|
    ensures var s1 := Drop(trap, s, k);
            Same(Logical(Delete(trap, s1, i)), Logical(s)) <==> Deletable(s.recs, i)
  {
    hide Deletable, Logical, Delete;
    var s1 := Drop(trap, s, k);
    ReplantKeepsView(s, s1, k, trap, false);
    DeletableBySaved(s.recs, s1.recs, i);
    DeletableBySaved(s1.recs, s.recs, i);
    DeleteKeepsViewIff(trap, s1, i);
  }

  /** A stop at a temporary breakpoint is invisible exactly when freeing it is. */
  lemma CheckKeepsViewIff(trap: seq<byte>, s: State, pc: int)
    requires Sized(trap, s.recs) && Answerable(s.recs, pc)
    ensures Same(Logical(Check(trap, s, pc).0), Logical(s)) <==> Guard(trap, s, Stopped(pc))
  {
    hide Deletable, Logical, Delete, Drop;
    if Check(trap, s, pc).1 == Handled {
      var i := Find(s.recs, pc);
      DropThenDelete(trap, s, IndexOf(s.recs, s.recs[i].link.value), i);
    }
  }

  /** A store by the inferior goes to raw memory, so the client sees it exactly where there is
      no breakpoint. */
  lemma StoreExactIff(trap: seq<byte>, s: State, addr: int, data: seq<byte>)
    requires Sized(trap, s.recs)
    ensures Same(Logical(Step(trap, s, Stored(addr, data))), Overlay(Logical(s), addr, data))
            <==> Harmless(s.recs, addr, data)
  {
    var t, wanted := Step(trap, s, Stored(addr, data)), Overlay(Logical(s), addr, data);
    forall a: int
      ensures Logical(t)(a) == wanted(a) <==> HarmlessAt(s.recs, addr, data, a)
    {
      SeenIsOldest(t.raw(a), s.recs, a);
      SeenIsOldest(s.raw(a), s.recs, a);
    }
  }

  /** An event, seen by the client, is the same event on plain memory if and only if its guard
      holds. The code gives no meaning to the stops that are excluded; nothing in the repository
      calls check_breakpoints. */
  lemma StepRefinesIff(trap: seq<byte>, s: State, e: Event)
    requires Sized(trap, s.recs)
    requires e.Stopped? ==> Answerable(s.recs, e.pc)
    ensures Same(Logical(Step(trap, s, e)), PlainStep(Logical(s), e)) <==> Guard(trap, s, e)
  {
    match e
    case Read(_, _) =>
    case Write(addr, data) => WriteExactIff(trap, s, addr, data);
    case Insert(addr) => SetKeepsView(trap, s, addr, NoHandler);
    case Remove(addr) =>
      var i := Find(s.recs, addr);
      if i < |s.recs| { DeleteKeepsViewIff(trap, s, i); }
    case Lifted(pc) => UninsertKeepsView(trap, s, pc);
    case Dropped(pc) => ReinsertKeepsView(trap, s, pc);
    case Stepping(stopPc, stopAt) => StepOverKeepsView(trap, s, stopPc, stopAt);
    case Stopped(pc) => CheckKeepsViewIff(trap, s, pc);
    case Stored(addr, data) => StoreExactIff(trap, s, addr, data);
  }

  lemma {:induction false} PlainRunSame(m: Space, n: Space, es: seq<Event>)
    requires Same(m, n)
    ensures Same(PlainRun(m, es), PlainRun(n, es))
    ensures PlainReplies(m, es) == PlainReplies(n, es)
  {
    if es != [] {
      PlainRunSame(PlainStep(m, es[0]), PlainStep(n, es[0]), es[1..]);
      if es[0].Read? {
        assert Slice(m, es[0].addr, es[0].len) == Slice(n, es[0].addr, es[0].len);
      }
    }
  }

  /** Every guarded run answers every read as plain memory would and leaves the plain memory
      in view; no restriction on how breakpoints overlap. */
  lemma {:induction false} RunRefines(trap: seq<byte>, s: State, es: seq<Event>)
    requires Sized(trap, s.recs) && Guarded(trap, s, es)
    ensures Same(Logical(Run(trap, s, es)), PlainRun(Logical(s), es))
    ensures Replies(trap, s, es) == PlainReplies(Logical(s), es)
    decreases |es|
  {
    if es != [] {
      var e, t := es[0], Step(trap, s, es[0]);
      StepRefinesIff(trap, s, e);
      RunRefines(trap, t, es[1..]);
      PlainRunSame(Logical(t), PlainStep(Logical(s), e), es[1..]);
      if e.Read? {
        ReadBackIsLogical(s, e.addr, e.len);
      }
    }
  }

  /** Once every breakpoint is gone, raw memory is the plain memory. */
  lemma RunRestores(trap: seq<byte>, s: State, es: seq<Event>)
    requires Sized(trap, s.recs) && Guarded(trap, s, es)
    requires Run(trap, s, es).recs == []
    ensures Same(Run(trap, s, es).raw, PlainRun(Logical(s), es))
  {
    RunRefines(trap, s, es);
    var t := Run(trap, s, es);
    forall a: int ensures t.raw(a) == PlainRun(Logical(s), es)(a) {
      assert Logical(t)(a) == t.raw(a);
    }
  }
}
