/** The bookkeeping of src/mem-break.c on values: raw memory plus the chain of breakpoint
    records, newest first, and what each operation does to the two. */
module Shadow {
  import opened Memory
  import opened Options

  datatype Handler = NoHandler | Reinserter

  /** A breakpoint record. `id` stands for its address in the heap, `link` for
      breakpoint_to_reinsert. */
  datatype Record = Record(id: nat, pc: int, saved: seq<byte>, reinserting: bool,
                           link: Option<nat>, handler: Handler)
  {
    predicate Covers(a: int) {
      pc <= a < pc + |saved|
    }
  }

  datatype State = State(raw: Space, recs: seq<Record>, nextId: nat)

  /** Every record saved as many bytes as the trap instruction has. */
  predicate Sized(trap: seq<byte>, recs: seq<Record>) {
    forall i :: 0 <= i < |recs| ==> |recs[i].saved| == |trap|
  }

  // ---------- the view through the records ----------

  /** What a reader sees at `a` when the raw byte is `x`: records are applied from the newest
      to the oldest, so the oldest one that covers `a` has the last word. */
  function Seen(x: byte, recs: seq<Record>, a: int): byte {
    if recs == [] then x
    else
      var last := recs[|recs| - 1];
      if last.Covers(a) then last.saved[a - last.pc] else Seen(x, recs[..|recs| - 1], a)
  }

  /** The memory that the client is meant to see. */
  function Logical(s: State): Space {
    (a: int) => Seen(s.raw(a), s.recs, a)
  }

  /** The index of the oldest record that covers `a`, or -1. */
  function Oldest(recs: seq<Record>, a: int): (i: int)
    ensures -1 <= i < |recs|
    ensures i >= 0 ==> recs[i].Covers(a)
    ensures forall j :: i < j < |recs| ==> !recs[j].Covers(a)
  {
    if recs == [] then -1
    else if recs[|recs| - 1].Covers(a) then |recs| - 1
    else Oldest(recs[..|recs| - 1], a)
  }

  /** check_mem_read on a buffer that holds the bytes from `addr` on. */
  function ReadBack(recs: seq<Record>, buf: seq<byte>, addr: int): (r: seq<byte>)
    ensures |r| == |buf|
  {
    if recs == [] then buf
    else
      var last := recs[|recs| - 1];
      Clip(ReadBack(recs[..|recs| - 1], buf, addr), addr, last.pc, last.saved)
  }

  lemma {:induction false} SeenIsOldest(x: byte, recs: seq<Record>, a: int)
    ensures var i := Oldest(recs, a);
            Seen(x, recs, a) == if i < 0 then x else recs[i].saved[a - recs[i].pc]
  {
    if recs != [] && !recs[|recs| - 1].Covers(a) {
      SeenIsOldest(x, recs[..|recs| - 1], a);
    }
  }

  lemma {:induction false} ReadBackAt(recs: seq<Record>, buf: seq<byte>, addr: int, j: nat)
    requires j < |buf|
    ensures ReadBack(recs, buf, addr)[j] == Seen(buf[j], recs, addr + j)
  {
    if recs != [] {
      ReadBackAt(recs[..|recs| - 1], buf, addr, j);
    }
  }

  /** A raw read patched by the loop of check_mem_read is a read of the view. */
  lemma ReadBackIsLogical(s: State, addr: int, n: nat)
    ensures ReadBack(s.recs, Slice(s.raw, addr, n), addr) == Slice(Logical(s), addr, n)
  {
    forall j: nat | j < n
      ensures ReadBack(s.recs, Slice(s.raw, addr, n), addr)[j] == Slice(Logical(s), addr, n)[j]
    {
      ReadBackAt(s.recs, Slice(s.raw, addr, n), addr, j);
    }
  }

  /** Two stretches of the chain act one after the other. */
  lemma {:induction false} SeenConcat(x: byte, newer: seq<Record>, older: seq<Record>, a: int)
    ensures Seen(x, newer + older, a) == Seen(Seen(x, newer, a), older, a)
  {
    if older == [] {
      assert newer + older == newer;
    } else {
      var init := older[..|older| - 1];
      assert (newer + older)[..|newer + older| - 1] == newer + init;
      SeenConcat(x, newer, init, a);
    }
  }

  // ---------- operations ----------

  /** find_breakpoint_at: the newest record at `where`, or the length of the chain. */
  function Find(recs: seq<Record>, where: int): (i: nat)
    ensures i <= |recs|
    ensures i < |recs| ==> recs[i].pc == where
    ensures forall j :: 0 <= j < i ==> recs[j].pc != where
  {
    if recs == [] then 0
    else if recs[0].pc == where then 0
    else 1 + Find(recs[1..], where)
  }

  /** set_breakpoint_at: the displaced bytes are read raw, not through the view. */
  function Set(trap: seq<byte>, s: State, where: int, handler: Handler): (t: State)
    ensures Sized(trap, s.recs) ==> Sized(trap, t.recs)
  {
    var bp := Record(s.nextId, where, Slice(s.raw, where, |trap|), false, None, handler);
    State(Overlay(s.raw, where, trap), [bp] + s.recs, s.nextId + 1)
  }

  /** delete_breakpoint on the record at index `i`. */
  function Delete(trap: seq<byte>, s: State, i: nat): (t: State)
    requires i < |s.recs|
    ensures Sized(trap, s.recs) ==> Sized(trap, t.recs)
  {
    State(Overlay(s.raw, s.recs[i].pc, s.recs[i].saved), s.recs[..i] + s.recs[i + 1..], s.nextId)
  }

  /** delete_breakpoint_at */
  function DeleteAt(trap: seq<byte>, s: State, where: int): (t: State)
    ensures Sized(trap, s.recs) ==> Sized(trap, t.recs)
  {
    var i := Find(s.recs, where);
    if i < |s.recs| then Delete(trap, s, i) else s
  }

  /** Take the record at `i` out of raw memory, keeping it in the chain. */
  function Lift(trap: seq<byte>, s: State, i: nat): (t: State)
    requires i < |s.recs|
    ensures Sized(trap, s.recs) ==> Sized(trap, t.recs)
  {
    s.(raw := Overlay(s.raw, s.recs[i].pc, s.recs[i].saved),
       recs := s.recs[i := s.recs[i].(reinserting := true)])
  }

  /** Put the trap of the record at `i` back. */
  function Drop(trap: seq<byte>, s: State, i: nat): (t: State)
    requires i < |s.recs|
    ensures Sized(trap, s.recs) ==> Sized(trap, t.recs)
  {
    s.(raw := Overlay(s.raw, s.recs[i].pc, trap),
       recs := s.recs[i := s.recs[i].(reinserting := false)])
  }

  /** uninsert_breakpoint; `error` leaves everything as it was. */
  function Uninsert(trap: seq<byte>, s: State, where: int): (r: (State, bool))
    ensures Sized(trap, s.recs) ==> Sized(trap, r.0.recs)
  {
    var i := Find(s.recs, where);
    if i < |s.recs| then (Lift(trap, s, i), true) else (s, false)
  }

  /** reinsert_breakpoint */
  function Reinsert(trap: seq<byte>, s: State, where: int): (r: (State, bool))
    ensures Sized(trap, s.recs) ==> Sized(trap, r.0.recs)
  {
    var i := Find(s.recs, where);
    if i < |s.recs| && s.recs[i].reinserting then (Drop(trap, s, i), true) else (s, false)
  }

  /** Make the newest record point to the one it steps over. */
  function Relink(s: State, id: nat): (t: State)
    requires s.recs != []
  {
    s.(recs := [s.recs[0].(link := Some(id))] + s.recs[1..])
  }

  /** reinsert_breakpoint_by_bp: when there is nothing at `stopPc` the error is raised
      after the new breakpoint has been set. */
  function StepOver(trap: seq<byte>, s: State, stopPc: int, stopAt: int): (r: (State, bool))
    ensures Sized(trap, s.recs) ==> Sized(trap, r.0.recs)
  {
    var s1 := Set(trap, s, stopAt, Reinserter);
    var i := Find(s1.recs, stopPc);
    if i == |s1.recs| then (s1, false)
    else
      (Lift(trap, Relink(s1, s1.recs[i].id), i), true)
  }

  /** The index of the record with this id, or the length of the chain. */
  function IndexOf(recs: seq<Record>, id: nat): (i: nat)
    ensures i <= |recs|
    ensures i < |recs| ==> recs[i].id == id
    ensures forall j :: 0 <= j < i ==> recs[j].id != id
  {
    if recs == [] then 0
    else if recs[0].id == id then 0
    else 1 + IndexOf(recs[1..], id)
  }

  /** NullCall and DanglingLink are the two ways in which check_breakpoints is undefined:
      it calls a null handler, or follows a link to a record that was freed. */
  datatype Hit = NotOurs | Removed | Handled | NoLink | NullCall | DanglingLink

  /** reinsert_breakpoint_handler; NotOurs and NoLink are its two errors. */
  function Reinsertion(trap: seq<byte>, s: State, stopPc: int): (r: (State, Hit))
    ensures Sized(trap, s.recs) ==> Sized(trap, r.0.recs)
  {
    var i := Find(s.recs, stopPc);
    if i == |s.recs| then (s, NotOurs)
    else if s.recs[i].link == None then (s, NoLink)
    else
      var k := IndexOf(s.recs, s.recs[i].link.value);
      if k == |s.recs| then (s, DanglingLink) else (Delete(trap, Drop(trap, s, k), i), Handled)
  }

  /** check_breakpoints, with reinsert_breakpoint_handler as the only handler there is. */
  function Check(trap: seq<byte>, s: State, stopPc: int): (r: (State, Hit))
    ensures Sized(trap, s.recs) ==> Sized(trap, r.0.recs)
  {
    var i := Find(s.recs, stopPc);
    if i == |s.recs| then (s, NotOurs)
    else if s.recs[i].reinserting then (s, Removed)
    else if s.recs[i].handler == NoHandler then (s, NullCall)
    else Reinsertion(trap, s, stopPc)
  }

  /** The newest breakpoint at `pc` is in memory. */
  predicate Standing(recs: seq<Record>, pc: int) {
    var i := Find(recs, pc);
    i < |recs| && !recs[i].reinserting
  }

  /** A stop at `pc` is one that check_breakpoints can deal with: a breakpoint that stands there
      is a temporary one, and the one that it is to put back, if any, is still in the list. */
  predicate Answerable(recs: seq<Record>, pc: int) {
    Standing(recs, pc) ==>
      var r := recs[Find(recs, pc)];
      r.handler == Reinserter && (r.link.Some? ==> IndexOf(recs, r.link.value) < |recs|)
  }

  lemma CheckDefinedIff(trap: seq<byte>, s: State, pc: int)
    ensures var hit := Check(trap, s, pc).1;
            && (hit !in {NullCall, DanglingLink} <==> Answerable(s.recs, pc))
            && (hit == NullCall <==>
                  Standing(s.recs, pc) && s.recs[Find(s.recs, pc)].handler == NoHandler)
            && (hit == Handled <==>
                  Standing(s.recs, pc) && Answerable(s.recs, pc) && s.recs[Find(s.recs, pc)].link.Some?)
  {}

  // ---------- shadowed write ----------

  /** The buffer byte for address `a`, initially `w`, once check_mem_write has visited `recs`. */
  function Passed(trap: seq<byte>, recs: seq<Record>, a: int, w: byte): byte
    requires Sized(trap, recs)
  {
    if recs == [] then w
    else
      var last := recs[|recs| - 1];
      if last.Covers(a) && !last.reinserting then trap[a - last.pc]
      else Passed(trap, recs[..|recs| - 1], a, w)
  }

  /** The buffer after check_mem_write has visited `recs`. */
  function PassedAll(trap: seq<byte>, recs: seq<Record>, addr: int, data: seq<byte>): (r: seq<byte>)
    requires Sized(trap, recs)
    ensures |r| == |data|
    ensures forall j :: 0 <= j < |data| ==> r[j] == Passed(trap, recs, addr + j, data[j])
  {
    seq(|data|, j requires 0 <= j < |data| => Passed(trap, recs, addr + j, data[j]))
  }

  lemma PassedAllNext(trap: seq<byte>, recs: seq<Record>, k: nat, addr: int, data: seq<byte>)
    requires Sized(trap, recs) && k < |recs|
    ensures PassedAll(trap, recs[..k + 1], addr, data) ==
            if recs[k].reinserting then PassedAll(trap, recs[..k], addr, data)
            else Clip(PassedAll(trap, recs[..k], addr, data), addr, recs[k].pc, trap)
  {
    assert recs[..k + 1][..k] == recs[..k];
  }

  /** Record `i` after check_mem_write: it saves what the buffer holds when its turn comes. */
  function Resaved(trap: seq<byte>, recs: seq<Record>, i: nat, addr: int, data: seq<byte>): (r: Record)
    requires Sized(trap, recs) && i < |recs|
    ensures r == recs[i].(saved := r.saved) && |r.saved| == |trap|
  {
    recs[i].(saved := Clip(recs[i].saved, recs[i].pc, addr, PassedAll(trap, recs[..i], addr, data)))
  }

  function ResavedAll(trap: seq<byte>, recs: seq<Record>, addr: int, data: seq<byte>): (r: seq<Record>)
    requires Sized(trap, recs)
    ensures |r| == |recs| && Sized(trap, r)
    ensures forall i :: 0 <= i < |recs| ==> r[i] == Resaved(trap, recs, i, addr, data)
  {
    seq(|recs|, i requires 0 <= i < |recs| => Resaved(trap, recs, i, addr, data))
  }

  /** write_inferior_memory */
  function Write(trap: seq<byte>, s: State, addr: int, data: seq<byte>): State
    requires Sized(trap, s.recs)
  {
    s.(raw := Overlay(s.raw, addr, PassedAll(trap, s.recs, addr, data)),
       recs := ResavedAll(trap, s.recs, addr, data))
  }

  // ---------- what each operation does to the view ----------

  /** Setting a breakpoint is invisible, also on top of other breakpoints. */
  lemma SetKeepsView(trap: seq<byte>, s: State, where: int, handler: Handler)
    ensures Same(Logical(Set(trap, s, where, handler)), Logical(s))
  {
    var t := Set(trap, s, where, handler);
    forall a: int ensures Logical(t)(a) == Logical(s)(a) {
      SeenConcat(t.raw(a), t.recs[..1], s.recs, a);
      assert t.recs[..1][..0] == [];
    }
  }

  /** A covered byte is seen as saved, whatever raw memory holds there. */
  lemma CoveredHidesRaw(x: byte, y: byte, recs: seq<Record>, a: int, i: nat)
    requires i < |recs| && recs[i].Covers(a)
    ensures Seen(x, recs, a) == Seen(y, recs, a)
  {
    SeenIsOldest(x, recs, a);
    SeenIsOldest(y, recs, a);
  }

  /** Two chains that save the same bytes at the same places show the same view. */
  lemma {:induction false} SeenBySaved(x: byte, p: seq<Record>, q: seq<Record>, a: int)
    requires |p| == |q|
    requires forall i :: 0 <= i < |p| ==> p[i].pc == q[i].pc && p[i].saved == q[i].saved
    ensures Seen(x, p, a) == Seen(x, q, a)
  {
    if p != [] && !p[|p| - 1].Covers(a) {
      SeenBySaved(x, p[..|p| - 1], q[..|q| - 1], a);
    }
  }

  /** Changing raw memory under a live record, and its state, is invisible. */
  lemma ReplantKeepsView(s: State, t: State, i: nat, data: seq<byte>, reinserting: bool)
    requires i < |s.recs| && |data| == |s.recs[i].saved|
    requires t.raw == Overlay(s.raw, s.recs[i].pc, data)
    requires t.recs == s.recs[i := s.recs[i].(reinserting := reinserting)]
    ensures Same(Logical(t), Logical(s))
  {
    forall a: int ensures Logical(t)(a) == Logical(s)(a) {
      SeenBySaved(t.raw(a), t.recs, s.recs, a);
      if s.recs[i].Covers(a) {
        CoveredHidesRaw(t.raw(a), s.raw(a), s.recs, a, i);
      }
    }
  }

  lemma UninsertKeepsView(trap: seq<byte>, s: State, where: int)
    ensures Same(Logical(Uninsert(trap, s, where).0), Logical(s))
  {
    var i := Find(s.recs, where);
    if i < |s.recs| {
      ReplantKeepsView(s, Lift(trap, s, i), i, s.recs[i].saved, true);
    }
  }

  lemma ReinsertKeepsView(trap: seq<byte>, s: State, where: int)
    requires Sized(trap, s.recs)
    ensures Same(Logical(Reinsert(trap, s, where).0), Logical(s))
  {
    var i := Find(s.recs, where);
    if i < |s.recs| {
      ReplantKeepsView(s, Drop(trap, s, i), i, trap, false);
    }
  }

  lemma StepOverKeepsView(trap: seq<byte>, s: State, stopPc: int, stopAt: int)
    ensures Same(Logical(StepOver(trap, s, stopPc, stopAt).0), Logical(s))
  {
    var s1 := Set(trap, s, stopAt, Reinserter);
    SetKeepsView(trap, s, stopAt, Reinserter);
    var i := Find(s1.recs, stopPc);
    if i < |s1.recs| {
      var s2 := Relink(s1, s1.recs[i].id);
      forall a: int ensures Logical(s2)(a) == Logical(s1)(a) {
        SeenBySaved(s1.raw(a), s2.recs, s1.recs, a);
      }
      ReplantKeepsView(s2, Lift(trap, s2, i), i, s2.recs[i].saved, true);
    }
  }

  /** The victim is the oldest record at `a`, and a newer one saved another byte there. */
  predicate Exposes(recs: seq<Record>, i: nat, a: int)
    requires i < |recs|
  {
    var k := Oldest(recs[..i], a);
    recs[i].Covers(a) && Oldest(recs[i + 1..], a) < 0 && k >= 0
    && recs[k].saved[a - recs[k].pc] != recs[i].saved[a - recs[i].pc]
  }

  /** Each byte for which the victim is the oldest record is either shared with no newer
      record, or the newer records saved the victim's own byte there. */
  ghost predicate Deletable(recs: seq<Record>, i: nat)
    requires i < |recs|
  {
    forall a: int :: !Exposes(recs, i, a)
  }

  lemma DeleteByte(trap: seq<byte>, s: State, i: nat, a: int)
    requires i < |s.recs|
    ensures var victim, newer, older := s.recs[i], s.recs[..i], s.recs[i + 1..];
            Logical(Delete(trap, s, i))(a) ==
            if victim.Covers(a) && Oldest(older, a) < 0 && Oldest(newer, a) >= 0
            then newer[Oldest(newer, a)].saved[a - newer[Oldest(newer, a)].pc]
            else Logical(s)(a)
  {
    var victim, newer, older := s.recs[i], s.recs[..i], s.recs[i + 1..];
    var t := Delete(trap, s, i);
    assert s.recs == newer + [victim] + older;
    SeenConcat(t.raw(a), newer, older, a);
    SeenConcat(s.raw(a), newer + [victim], older, a);
    SeenConcat(s.raw(a), newer, [victim], a);
    assert [victim][..0] == [];
    SeenIsOldest(t.raw(a), newer, a);
    SeenIsOldest(s.raw(a), newer, a);
    SeenIsOldest(Seen(t.raw(a), newer, a), older, a);
    SeenIsOldest(Seen(s.raw(a), newer + [victim], a), older, a);
  }

  lemma DeleteByteIff(trap: seq<byte>, s: State, i: nat, a: int)
    requires i < |s.recs|
    ensures Logical(Delete(trap, s, i))(a) == Logical(s)(a) <==> !Exposes(s.recs, i, a)
  {
    DeleteByte(trap, s, i, a);
    if s.recs[i].Covers(a) && Oldest(s.recs[i + 1..], a) < 0 {
      forall j | i < j < |s.recs| ensures !s.recs[j].Covers(a) {
        assert s.recs[j] == s.recs[i + 1..][j - i - 1];
      }
      SeenIsOldest(s.raw(a), s.recs, a);
    }
  }

  /** Deleting is invisible exactly when the victim is `Deletable`. */
  lemma DeleteKeepsViewIff(trap: seq<byte>, s: State, i: nat)
    requires i < |s.recs|
    ensures Same(Logical(Delete(trap, s, i)), Logical(s)) <==> Deletable(s.recs, i)
  {
    forall a: int
      ensures Logical(Delete(trap, s, i))(a) == Logical(s)(a) <==> !Exposes(s.recs, i, a)
    {
      DeleteByteIff(trap, s, i, a);
    }
  }
}
