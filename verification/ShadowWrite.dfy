/** What a write through the breakpoint records does: to the client's view, to raw memory,
    and to the bytes that the records save. */
module ShadowWrite {
  import opened Memory
  import opened Shadow

  /** The index of the oldest record that covers `a` and has its trap in memory, or -1. */
  function OldestInserted(recs: seq<Record>, a: int): (i: int)
    ensures -1 <= i < |recs|
    ensures i >= 0 ==> recs[i].Covers(a) && !recs[i].reinserting
    ensures forall j :: i < j < |recs| ==> !recs[j].Covers(a) || recs[j].reinserting
  {
    if recs == [] then -1
    else if recs[|recs| - 1].Covers(a) && !recs[|recs| - 1].reinserting then |recs| - 1
    else OldestInserted(recs[..|recs| - 1], a)
  }

  /** A written byte is fit when its oldest record is reached with the client's byte still in
      the buffer: no inserted record above it, or one whose trap byte is that very byte. */
  predicate Fit(trap: seq<byte>, recs: seq<Record>, a: int, w: byte)
    requires Sized(trap, recs)
  {
    var o := Oldest(recs, a);
    o >= 0 ==>
      var k := OldestInserted(recs[..o], a);
      k >= 0 ==> trap[a - recs[k].pc] == w
  }

  ghost predicate Writable(trap: seq<byte>, recs: seq<Record>, addr: int, data: seq<byte>)
    requires Sized(trap, recs)
  {
    forall j :: 0 <= j < |data| ==> Fit(trap, recs, addr + j, data[j])
  }

  /** No byte of the range lies under two records. */
  ghost predicate Single(recs: seq<Record>, addr: int, n: nat) {
    forall a: int, i, k {:trigger recs[i].Covers(a), recs[k].Covers(a)} ::
      0 <= i < k < |recs| && addr <= a < addr + n ==> !(recs[i].Covers(a) && recs[k].Covers(a))
  }

  lemma {:induction false} PassedIs(trap: seq<byte>, recs: seq<Record>, a: int, w: byte)
    requires Sized(trap, recs)
    ensures var k := OldestInserted(recs, a);
            Passed(trap, recs, a, w) == if k < 0 then w else trap[a - recs[k].pc]
  {
    if recs != [] {
      PassedIs(trap, recs[..|recs| - 1], a, w);
    }
  }

  lemma ResavedAt(trap: seq<byte>, recs: seq<Record>, i: nat, addr: int, data: seq<byte>, a: int)
    requires Sized(trap, recs) && i < |recs| && recs[i].Covers(a)
    ensures var r := Resaved(trap, recs, i, addr, data);
            r.saved[a - r.pc] == if addr <= a < addr + |data| then Passed(trap, recs[..i], a, data[a - addr])
                                 else recs[i].saved[a - r.pc]
  {
    var j := a - recs[i].pc;
    assert recs[i].pc + j == a;
  }

  lemma WriteByte(trap: seq<byte>, s: State, addr: int, data: seq<byte>, a: int)
    requires Sized(trap, s.recs)
    ensures var o := Oldest(s.recs, a);
            Logical(Write(trap, s, addr, data))(a) ==
            if addr <= a < addr + |data| then
              if o < 0 then data[a - addr] else Passed(trap, s.recs[..o], a, data[a - addr])
            else Logical(s)(a)
  {
    hide Oldest, OldestInserted, Seen, Passed;
    var t := Write(trap, s, addr, data);
    var o := Oldest(s.recs, a);
    assert forall i :: 0 <= i < |s.recs| ==> (t.recs[i].Covers(a) <==> s.recs[i].Covers(a));
    assert Oldest(t.recs, a) == o;
    SeenIsOldest(t.raw(a), t.recs, a);
    SeenIsOldest(s.raw(a), s.recs, a);
    if o >= 0 {
      ResavedAt(trap, s.recs, o, addr, data, a);
    } else if addr <= a < addr + |data| {
      PassedIs(trap, s.recs, a, data[a - addr]);
    }
  }

  lemma FitByte(trap: seq<byte>, recs: seq<Record>, a: int, w: byte)
    requires Sized(trap, recs)
    ensures var o := Oldest(recs, a);
            Fit(trap, recs, a, w) <==> (o < 0 || Passed(trap, recs[..o], a, w) == w)
  {
    var o := Oldest(recs, a);
    if o >= 0 {
      PassedIs(trap, recs[..o], a, w);
    }
  }

  /** A shadowed write is exact, for every clip at either end, exactly when it is `Writable`. */
  lemma WriteExactIff(trap: seq<byte>, s: State, addr: int, data: seq<byte>)
    requires Sized(trap, s.recs)
    ensures Same(Logical(Write(trap, s, addr, data)), Overlay(Logical(s), addr, data))
            <==> Writable(trap, s.recs, addr, data)
  {
    hide Logical, Write, Oldest, OldestInserted, Passed, Fit;
    var after, wanted := Logical(Write(trap, s, addr, data)), Overlay(Logical(s), addr, data);
    forall a: int
      ensures after(a) == wanted(a)
              <==> (addr <= a < addr + |data| ==> Fit(trap, s.recs, a, data[a - addr]))
    {
      WriteByte(trap, s, addr, data, a);
      if addr <= a < addr + |data| {
        FitByte(trap, s.recs, a, data[a - addr]);
      }
    }
    if Same(after, wanted) {
      forall j | 0 <= j < |data| ensures Fit(trap, s.recs, addr + j, data[j]) {
        assert after(addr + j) == wanted(addr + j);
      }
    }
  }

  /** Bytes under at most one record are always written exactly. */
  lemma SingleIsWritable(trap: seq<byte>, recs: seq<Record>, addr: int, data: seq<byte>)
    requires Sized(trap, recs) && Single(recs, addr, |data|)
    ensures Writable(trap, recs, addr, data)
  {}

  // ---------- raw memory under the records ----------

  /** What raw memory must hold at `a` on behalf of a record that covers it. */
  function Planted(trap: seq<byte>, r: Record, a: int): byte
    requires |r.saved| == |trap| && r.Covers(a)
  {
    if r.reinserting then r.saved[a - r.pc] else trap[a - r.pc]
  }

  /** Inserted breakpoints have their trap in raw memory, the others the saved bytes. */
  ghost predicate InPlace(trap: seq<byte>, s: State)
    requires Sized(trap, s.recs)
  {
    forall i, a {:trigger s.recs[i].Covers(a)} ::
      0 <= i < |s.recs| && s.recs[i].Covers(a) ==> s.raw(a) == Planted(trap, s.recs[i], a)
  }

  lemma WritePlants(trap: seq<byte>, s: State, addr: int, data: seq<byte>, i: nat, a: int)
    requires Sized(trap, s.recs) && Single(s.recs, addr, |data|)
    requires i < |s.recs| && s.recs[i].Covers(a) && addr <= a < addr + |data|
    ensures Write(trap, s, addr, data).raw(a) == Planted(trap, Resaved(trap, s.recs, i, addr, data), a)
  {
    var w := data[a - addr];
    ResavedAt(trap, s.recs, i, addr, data, a);
    PassedIs(trap, s.recs, a, w);
    PassedIs(trap, s.recs[..i], a, w);
    assert OldestInserted(s.recs[..i], a) < 0;
    assert OldestInserted(s.recs, a) == if s.recs[i].reinserting then -1 else i;
  }

  /** A write to bytes under at most one record leaves every trap standing and every lifted
      record's bytes in raw memory; outside the range raw memory does not change. */
  lemma WriteKeepsInPlace(trap: seq<byte>, s: State, addr: int, data: seq<byte>)
    requires Sized(trap, s.recs) && InPlace(trap, s) && Single(s.recs, addr, |data|)
    ensures InPlace(trap, Write(trap, s, addr, data))
    ensures forall a: int :: !(addr <= a < addr + |data|) ==> Write(trap, s, addr, data).raw(a) == s.raw(a)
  {
    var t := Write(trap, s, addr, data);
    forall i, a | 0 <= i < |t.recs| && t.recs[i].Covers(a)
      ensures t.raw(a) == Planted(trap, t.recs[i], a)
    {
      assert s.recs[i].Covers(a);
      if addr <= a < addr + |data| {
        WritePlants(trap, s, addr, data, i, a);
      } else {
        ResavedAt(trap, s.recs, i, addr, data, a);
      }
    }
  }
}
