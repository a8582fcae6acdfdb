/** src/mem-break.c and the two memory functions of src/target.c, on the heap: a linked list of
    breakpoint nodes that is relinked in place. Every method is tied to `Shadow`. */
module Breakpoints {
  import opened Memory
  import opened DarwinMemory
  import opened Options
  import opened Shadow

  const MAX_BREAKPOINT_LEN: nat := 8

  class Breakpoint {
    var next: Breakpoint?
    const pc: int
    const oldData: array<byte>
    var reinserting: bool
    var toReinsert: Breakpoint?
    const handler: Handler
    /** Stands for the node's address. */
    ghost const id: nat

    constructor (pc: int, handler: Handler, ghost id: nat)
      ensures this.pc == pc && this.handler == handler && this.id == id
      ensures next == null && !reinserting && toReinsert == null
      ensures fresh(oldData) && oldData.Length == MAX_BREAKPOINT_LEN
    {
      this.pc, this.handler, this.id := pc, handler, id;
      next, reinserting, toReinsert := null, false, null;
      oldData := new byte[MAX_BREAKPOINT_LEN](_ => 0);
    }

    /** The node represents `r`. */
    ghost predicate Holds(len: nat, r: Record)
      reads this, oldData
    {
      && oldData.Length == MAX_BREAKPOINT_LEN && len <= MAX_BREAKPOINT_LEN
      && r == Record(id, pc, oldData[..len], reinserting,
                     if toReinsert == null then None else Some(toReinsert.id), handler)
    }
  }

  /** The list as a value: its nodes in order, what they represent, and every node that was
      ever in it, by id. */
  datatype Chain = Chain(nodes: seq<Breakpoint>, recs: seq<Record>, nextId: nat,
                         home: map<nat, Breakpoint>, repr: set<object>)
  {
    /** The node at a position, null at the end. */
    ghost function At(i: nat): Breakpoint? {
      if i < |nodes| then nodes[i] else null
    }

    ghost predicate Shaped() {
      && |recs| == |nodes|
      && (forall i, k :: 0 <= i < k < |nodes| ==> nodes[i] != nodes[k] && nodes[i].oldData != nodes[k].oldData)
      && (forall i :: 0 <= i < |nodes| ==>
            nodes[i] in repr && nodes[i].oldData in repr && Homed(nodes[i]))
      && (forall id :: id in home ==> id < nextId)
    }

    /** A node is found under its id. */
    ghost predicate Homed(bp: Breakpoint) {
      bp.id in home && home[bp.id] == bp
    }

    ghost predicate Represented(len: nat)
      requires Shaped()
      reads repr
    {
      && (forall i :: 0 <= i < |nodes| ==> nodes[i].Holds(len, recs[i]))
      && (forall i {:trigger nodes[i].next} :: 0 <= i < |nodes| ==> nodes[i].next == At(i + 1))
    }

    /** Links lead to nodes that are, or were, in the list. */
    ghost predicate Linked()
      requires Shaped()
      reads repr
    {
      forall i {:trigger nodes[i].toReinsert} ::
        0 <= i < |nodes| && nodes[i].toReinsert != null ==> Homed(nodes[i].toReinsert)
    }

    ghost function Prepend(bp: Breakpoint, r: Record): Chain {
      Chain([bp] + nodes, [r] + recs, nextId + 1, home[nextId := bp], repr + {bp, bp.oldData})
    }

    ghost function Without(i: nat): Chain
      requires i < |nodes| == |recs|
    {
      Chain(nodes[..i] + nodes[i + 1..], recs[..i] + recs[i + 1..], nextId, home, repr)
    }

    lemma ShapedPrepend(bp: Breakpoint, r: Record)
      requires Shaped() && bp !in repr && bp.oldData !in repr && bp.id == nextId
      ensures Prepend(bp, r).Shaped()
      ensures forall i: nat :: Prepend(bp, r).At(i) == if i == 0 then bp else At(i - 1)
    {}

    lemma PrependRepresents(len: nat, bp: Breakpoint, r: Record)
      requires Shaped() && Represented(len) && Linked()
      requires bp !in repr && bp.oldData !in repr && bp.id == nextId
      requires bp.Holds(len, r) && bp.next == At(0) && bp.toReinsert == null
      ensures Prepend(bp, r).Shaped() && Prepend(bp, r).Represented(len) && Prepend(bp, r).Linked()
    {
      ShapedPrepend(bp, r);
      var t := Prepend(bp, r);
      forall i | 0 <= i < |t.nodes|
        ensures t.nodes[i].Holds(len, t.recs[i]) && t.nodes[i].next == t.At(i + 1)
      {
        assert i > 0 ==> t.nodes[i] == nodes[i - 1] && t.recs[i] == recs[i - 1];
      }
    }

    lemma ShapedWithout(i: nat)
      requires Shaped() && i < |nodes|
      ensures Without(i).Shaped()
      ensures forall j: nat :: Without(i).At(j) == At(if j < i then j else j + 1)
    {}

    /** The links run past the node at `i`. */
    ghost predicate Bypassed(i: nat)
      requires 0 < i < |nodes| && Shaped()
      reads repr
    {
      forall j {:trigger nodes[j].next} ::
        0 <= j < |nodes| && j != i ==> nodes[j].next == At(if j == i - 1 then i + 1 else j + 1)
    }

    lemma BypassedRepresents(len: nat, i: nat)
      requires Shaped() && 0 < i < |nodes| && Bypassed(i) && Linked()
      requires forall j :: 0 <= j < |nodes| ==> nodes[j].Holds(len, recs[j])
      requires len <= MAX_BREAKPOINT_LEN
      ensures Without(i).Shaped() && Without(i).Represented(len) && Without(i).Linked()
    {
      ShapedWithout(i);
      var t := Without(i);
      hide Homed;
      forall j | 0 <= j < |t.nodes|
        ensures t.nodes[j].Holds(len, t.recs[j]) && t.nodes[j].next == t.At(j + 1)
      {
        var k := if j < i then j else j + 1;
        assert t.nodes[j] == nodes[k] && t.recs[j] == recs[k];
      }
    }

    /** The same nodes stand for other records. */
    ghost predicate Restated(len: nat, rs: seq<Record>)
      requires Shaped()
      reads repr
    {
      && |rs| == |recs| && len <= MAX_BREAKPOINT_LEN
      && (forall i :: 0 <= i < |nodes| ==> nodes[i].Holds(len, rs[i]))
      && (forall i {:trigger nodes[i].next} :: 0 <= i < |nodes| ==> nodes[i].next == At(i + 1))
    }

    /** The nodes before `k` stand for the new records, the others for the old ones. */
    ghost predicate Halfway(len: nat, rs: seq<Record>, k: int)
      requires Shaped() && |rs| == |recs|
      reads repr
    {
      forall i :: 0 <= i < |nodes| ==> nodes[i].Holds(len, if i < k then rs[i] else recs[i])
    }

    lemma RestatedRepresents(len: nat, rs: seq<Record>)
      requires Shaped() && Restated(len, rs) && Linked()
      ensures this.(recs := rs).Shaped()
      ensures this.(recs := rs).Represented(len) && this.(recs := rs).Linked()
      ensures forall i: nat :: this.(recs := rs).At(i) == At(i)
    {}
  }

  ghost predicate SameState(s: State, t: State) {
    Same(s.raw, t.raw) && s.recs == t.recs && s.nextId == t.nextId
  }

  /** The second half of reinsert_breakpoint_by_bp, from any state like the one after the first. */
  lemma StepOverFrom(trap: seq<byte>, s: State, t: State, stopPc: int, stopAt: int)
    requires SameState(t, Set(trap, s, stopAt, Reinserter))
    ensures var i := Find(t.recs, stopPc);
            var (u, ok) := StepOver(trap, s, stopPc, stopAt);
            if i == |t.recs| then !ok && SameState(t, u)
            else ok && SameState(Lift(trap, Relink(t, t.recs[i].id), i), u)
  {}

  class BreakpointTable {
    const target: Target
    /** breakpoint_data and breakpoint_len */
    const trap: seq<byte>
    /** The head of the list. */
    var breakpoints: Breakpoint?

    ghost var chain: Chain

    ghost predicate Valid()
      reads this, chain.repr
      ensures Valid() ==> Sized(trap, chain.recs)
    {
      && |trap| <= MAX_BREAKPOINT_LEN
      && breakpoints == chain.At(0)
      && chain.Shaped() && chain.Represented(|trap|) && chain.Linked()
    }

    ghost function Abs(): State
      reads this, target
    {
      State(target.bytes, chain.recs, chain.nextId)
    }

    constructor (target: Target, trap: seq<byte>)
      requires |trap| <= MAX_BREAKPOINT_LEN
      ensures Valid() && this.target == target && this.trap == trap
      ensures chain.nodes == [] && chain.recs == [] && chain.nextId == 1 && chain.repr == {}
    {
      this.target, this.trap := target, trap;
      breakpoints := null;
      chain := Chain([], [], 1, map[], {});
    }

    /** The nodes now stand for the records `rs`. */
    ghost method Restate(rs: seq<Record>)
      requires chain.Shaped() && chain.Restated(|trap|, rs) && chain.Linked() && breakpoints == chain.At(0)
      modifies this`chain
      ensures Valid() && chain == old(chain).(recs := rs)
    {
      chain.RestatedRepresents(|trap|, rs);
      chain := chain.(recs := rs);
    }

    /** find_breakpoint_at */
    method FindBreakpointAt(where: int) returns (bp: Breakpoint?)
      requires Valid()
      ensures bp == chain.At(Find(chain.recs, where))
    {
      bp := breakpoints;
      ghost var i := 0;
      while bp != null
        invariant 0 <= i <= |chain.nodes| && bp == chain.At(i)
        invariant forall k :: 0 <= k < i ==> chain.recs[k].pc != where
        decreases |chain.nodes| - i
      {
        assert bp.Holds(|trap|, chain.recs[i]);
        if bp.pc == where {
          return;
        }
        bp := bp.next;
        i := i + 1;
      }
    }

    /** set_breakpoint_at */
    method SetBreakpointAt(where: int, handler: Handler)
      requires Valid() && target.Sound()
      modifies this`breakpoints, this`chain, target`bytes
      ensures Valid() && fresh(chain.repr - old(chain.repr)) && target.Sound()
      ensures |chain.nodes| > 0 && fresh(chain.nodes[0]) && chain.nodes[1..] == old(chain).nodes
      ensures SameState(Abs(), Set(trap, old(Abs()), where, handler))
    {
      var bp, r := NewBreakpoint(where, handler);
      Link(bp, r);
    }

    /** Save the displaced bytes in a new node and plant the trap. */
    method NewBreakpoint(where: int, handler: Handler) returns (bp: Breakpoint, ghost r: Record)
      requires |trap| <= MAX_BREAKPOINT_LEN && target.Sound()
      modifies target`bytes
      ensures target.Sound() && fresh(bp) && fresh(bp.oldData)
      ensures bp.Holds(|trap|, r) && bp.toReinsert == null
      ensures r == Record(chain.nextId, where, Slice(old(target.bytes), where, |trap|), false, None, handler)
      ensures Same(target.bytes, Overlay(old(target.bytes), where, trap))
    {
      bp := new Breakpoint(where, handler, chain.nextId);
      target.ReadMemory(where, bp.oldData, |trap|);
      var _ := target.WriteMemory(where, trap);
      r := Record(chain.nextId, where, bp.oldData[..|trap|], false, None, handler);
    }

    /** Put a new node at the head of the list. */
    method Link(bp: Breakpoint, ghost r: Record)
      requires Valid() && bp !in chain.repr && bp.oldData !in chain.repr
      requires bp.Holds(|trap|, r) && r.id == chain.nextId && bp.toReinsert == null
      modifies this`breakpoints, this`chain, bp`next
      ensures Valid() && chain == old(chain).Prepend(bp, r)
    {
      bp.next := breakpoints;
      breakpoints := bp;
      Extend(bp, r);
    }

    /** The list now starts with `bp`. */
    ghost method Extend(bp: Breakpoint, r: Record)
      requires chain.Shaped() && chain.Represented(|trap|) && chain.Linked() && breakpoints == bp
      requires bp !in chain.repr && bp.oldData !in chain.repr && bp.id == chain.nextId
      requires bp.Holds(|trap|, r) && bp.next == chain.At(0) && bp.toReinsert == null
      modifies this`chain
      ensures Valid() && chain == old(chain).Prepend(bp, r)
    {
      chain.PrependRepresents(|trap|, bp, r);
      chain := chain.Prepend(bp, r);
    }

    /** Take a node out of the list. */
    method Unlink(bp: Breakpoint, ghost i: nat)
      requires Valid() && i < |chain.nodes| && bp == chain.nodes[i]
      modifies this`breakpoints, this`chain, chain.nodes`next
      ensures Valid() && chain == old(chain).Without(i)
    {
      assert bp.Holds(|trap|, chain.recs[i]);
      if breakpoints == bp {
        breakpoints := bp.next;
        chain.ShapedWithout(i);
        chain := chain.Without(i);
        return;
      }
      var cur := breakpoints;
      ghost var k := 0;
      while cur.next != bp
        invariant 0 <= k < i && cur == chain.nodes[k]
        invariant cur.next == chain.At(k + 1)
        decreases i - k
      {
        cur := cur.next;
        k := k + 1;
      }
      Bypass(cur, bp, i);
    }

    method Bypass(cur: Breakpoint, bp: Breakpoint, ghost i: nat)
      requires Valid() && 0 < i < |chain.nodes| && bp == chain.nodes[i] && cur == chain.nodes[i - 1]
      modifies this`chain, cur`next
      ensures Valid() && chain == old(chain).Without(i)
    {
      assert bp.Holds(|trap|, chain.recs[i]);
      cur.next := bp.next;
      Retract(i);
    }

    /** The links run past the node at `i`, so the list no longer has it. */
    ghost method Retract(i: nat)
      requires chain.Shaped() && 0 < i < |chain.nodes| && chain.Bypassed(i) && chain.Linked()
      requires forall j :: 0 <= j < |chain.nodes| ==> chain.nodes[j].Holds(|trap|, chain.recs[j])
      requires |trap| <= MAX_BREAKPOINT_LEN && breakpoints == chain.At(0)
      modifies this`chain
      ensures Valid() && chain == old(chain).Without(i)
    {
      chain.BypassedRepresents(|trap|, i);
      chain.ShapedWithout(i);
      chain := chain.Without(i);
    }

    method Store(at: int, data: seq<byte>) returns (res: int)
      requires Valid() && target.Sound()
      modifies target`bytes
      ensures Valid() && target.Sound() && res == 0 && Same(target.bytes, Overlay(old(target.bytes), at, data))
    {
      res := target.WriteMemory(at, data);
    }

    /** delete_breakpoint on a breakpoint that is in the list */
    method DeleteBreakpoint(bp: Breakpoint, ghost i: nat)
      requires Valid() && target.Sound() && i < |chain.nodes| && bp == chain.nodes[i]
      modifies this`breakpoints, this`chain, chain.nodes`next, target`bytes
      ensures Valid() && target.Sound() && chain.repr == old(chain).repr
      ensures SameState(Abs(), Delete(trap, old(Abs()), i))
    {
      assert bp.Holds(|trap|, chain.recs[i]);
      hide Valid;
      Unlink(bp, i);
      var _ := Store(bp.pc, bp.oldData[..|trap|]);
    }

    /** delete_breakpoint_at */
    method DeleteBreakpointAt(where: int)
      requires Valid() && target.Sound()
      modifies this`breakpoints, this`chain, chain.nodes`next, target`bytes
      ensures Valid() && target.Sound() && chain.repr == old(chain).repr
      ensures SameState(Abs(), DeleteAt(trap, old(Abs()), where))
    {
      var bp := FindBreakpointAt(where);
      if bp != null {
        DeleteBreakpoint(bp, Find(chain.recs, where));
      }
    }

    // ---------- looking through the list ----------

    /** One round of check_mem_read: lay the saved bytes over the part of the buffer they cover. */
    method PatchRead(bp: Breakpoint, addr: int, buf: array<byte>, len: nat)
      requires len <= buf.Length && buf != bp.oldData && |trap| <= bp.oldData.Length
      modifies buf
      ensures buf[..len] == Clip(old(buf[..len]), addr, bp.pc, bp.oldData[..|trap|])
      ensures forall j :: len <= j < buf.Length ==> buf[j] == old(buf[j])
    {
      var memEnd, bpEnd := addr + len, bp.pc + |trap|;
      if addr >= bpEnd {
        return;
      }
      if bp.pc >= memEnd {
        return;
      }
      var start := bp.pc;
      if addr > start {
        start := addr;
      }
      var end := bpEnd;
      if end > memEnd {
        end := memEnd;
      }
      if start < end {   // memcpy of nothing when the range or the trap is empty
        var copyOffset, bufOffset := start - bp.pc, start - addr;
        ghost var was, saved := buf[..len], bp.oldData[..|trap|];
        Target.CopyIn(buf, bufOffset, bp.oldData[copyOffset..copyOffset + (end - start)]);
        forall j | 0 <= j < len ensures buf[j] == Clip(was, addr, bp.pc, saved)[j] {
        }
      }
    }

    /** check_mem_read */
    method CheckMemRead(addr: int, buf: array<byte>, len: nat)
      requires Valid() && len <= buf.Length && buf !in chain.repr
      modifies buf
      ensures buf[..len] == ReadBack(chain.recs, old(buf[..len]), addr)
      ensures forall j :: len <= j < buf.Length ==> buf[j] == old(buf[j])
    {
      var bp := breakpoints;
      ghost var k := 0;
      while bp != null
        invariant 0 <= k <= |chain.nodes| && bp == chain.At(k)
        invariant buf[..len] == ReadBack(chain.recs[..k], old(buf[..len]), addr)
        invariant forall j :: len <= j < buf.Length ==> buf[j] == old(buf[j])
        decreases |chain.nodes| - k
      {
        assert bp.Holds(|trap|, chain.recs[k]);
        PatchRead(bp, addr, buf, len);
        assert chain.recs[..k + 1][..k] == chain.recs[..k];
        bp := bp.next;
        k := k + 1;
      }
      assert chain.recs[..k] == chain.recs;
    }

    /** read_inferior_memory */
    method ReadInferiorMemory(addr: int, buf: array<byte>, len: nat)
      requires Valid() && target.Sound() && len <= buf.Length && buf !in chain.repr
      modifies buf
      ensures buf[..len] == Slice(Logical(Abs()), addr, len)
      ensures forall j :: len <= j < buf.Length ==> buf[j] == old(buf[j])
    {
      target.ReadMemory(addr, buf, len);
      CheckMemRead(addr, buf, len);
      ReadBackIsLogical(Abs(), addr, len);
    }

    /** One round of check_mem_write: the record takes the client's bytes, and where it is
        inserted the buffer gets its trap instead. */
    method PatchWrite(bp: Breakpoint, addr: int, buf: array<byte>)
      requires buf != bp.oldData && |trap| <= bp.oldData.Length
      modifies buf, bp.oldData
      ensures bp.oldData[..|trap|] == Clip(old(bp.oldData[..|trap|]), bp.pc, addr, old(buf[..]))
      ensures buf[..] == if bp.reinserting then old(buf[..]) else Clip(old(buf[..]), addr, bp.pc, trap)
    {
      var memEnd, bpEnd := addr + buf.Length, bp.pc + |trap|;
      if addr >= bpEnd {
        return;
      }
      if bp.pc >= memEnd {
        return;
      }
      var start := bp.pc;
      if addr > start {
        start := addr;
      }
      var end := bpEnd;
      if end > memEnd {
        end := memEnd;
      }
      if start < end {
        var copyOffset, bufOffset, copyLen := start - bp.pc, start - addr, end - start;
        Target.CopyIn(bp.oldData, copyOffset, buf[bufOffset..bufOffset + copyLen]);
        if !bp.reinserting {
          Target.CopyIn(buf, bufOffset, trap[copyOffset..copyOffset + copyLen]);
        }
      }
    }

    /** check_mem_write */
    method CheckMemWrite(addr: int, buf: array<byte>)
      requires Valid() && buf !in chain.repr
      modifies buf, this`chain, set n | n in chain.nodes :: n.oldData
      ensures Valid() && chain == old(chain).(recs := ResavedAll(trap, old(chain).recs, addr, old(buf[..])))
      ensures buf[..] == PassedAll(trap, old(chain).recs, addr, old(buf[..]))
    {
      ghost var rs := ResavedAll(trap, chain.recs, addr, buf[..]);
      PatchAll(addr, buf, rs);
      Restate(rs);
    }

    method PatchNode(bp: Breakpoint, addr: int, buf: array<byte>, ghost rs: seq<Record>, ghost k: nat)
      requires chain.Shaped() && |rs| == |chain.recs| && chain.Halfway(|trap|, rs, k)
      requires k < |chain.nodes| && bp == chain.nodes[k] && buf !in chain.repr && |trap| <= MAX_BREAKPOINT_LEN
      requires var r := chain.recs[k];
               |r.saved| == |trap| && rs[k] == r.(saved := Clip(r.saved, r.pc, addr, buf[..]))
      modifies buf, bp.oldData
      ensures chain.Halfway(|trap|, rs, k + 1)
      ensures buf[..] == if chain.recs[k].reinserting then old(buf[..])
                         else Clip(old(buf[..]), addr, chain.recs[k].pc, trap)
    {
      assert bp.Holds(|trap|, chain.recs[k]);
      PatchWrite(bp, addr, buf);
      assert bp.Holds(|trap|, rs[k]);
    }

    method PatchAll(addr: int, buf: array<byte>, ghost rs: seq<Record>)
      requires Valid() && buf !in chain.repr && rs == ResavedAll(trap, chain.recs, addr, buf[..])
      modifies buf, set n | n in chain.nodes :: n.oldData
      ensures chain.Restated(|trap|, rs)
      ensures buf[..] == PassedAll(trap, chain.recs, addr, old(buf[..]))
    {
      hide PassedAll;
      var bp := breakpoints;
      ghost var k, data := 0, buf[..];
      assert PassedAll(trap, chain.recs[..0], addr, data) == data;
      while bp != null
        invariant 0 <= k <= |chain.nodes| && bp == chain.At(k)
        invariant chain.Halfway(|trap|, rs, k)
        invariant buf[..] == PassedAll(trap, chain.recs[..k], addr, data)
        decreases |chain.nodes| - k
      {
        assert bp.Holds(|trap|, chain.recs[k]);
        PatchNode(bp, addr, buf, rs, k);
        PassedAllNext(trap, chain.recs, k, addr, data);
        bp := bp.next;
        k := k + 1;
      }
      assert chain.recs[..k] == chain.recs;
    }

    /** write_inferior_memory */
    method WriteInferiorMemory(addr: int, data: seq<byte>) returns (res: int)
      requires Valid() && target.Sound()
      modifies this`chain, set n | n in chain.nodes :: n.oldData, target`bytes
      ensures Valid() && target.Sound() && res == 0 && chain.repr == old(chain).repr
      ensures SameState(Abs(), Write(trap, old(Abs()), addr, data))
    {
      var buffer := new byte[|data|](i requires 0 <= i < |data| => data[i]);
      assert buffer[..] == data;
      hide Valid;
      CheckMemWrite(addr, buffer);
      res := Store(addr, buffer[..]);
    }

    // ---------- stepping over ----------

    method SetReinserting(bp: Breakpoint, ghost i: nat, lifted: bool)
      requires Valid() && i < |chain.nodes| && bp == chain.nodes[i]
      modifies this`chain, bp`reinserting
      ensures Valid()
      ensures var r := old(chain).recs;
              chain == old(chain).(recs := r[i := r[i].(reinserting := lifted)])
    {
      assert bp.Holds(|trap|, chain.recs[i]);
      bp.reinserting := lifted;
      ghost var rs := chain.recs[i := chain.recs[i].(reinserting := lifted)];
      Restate(rs);
    }

    /** Write `data` under the breakpoint and record whether its trap stands. */
    method Replant(bp: Breakpoint, ghost i: nat, data: seq<byte>, lifted: bool)
      requires Valid() && target.Sound() && i < |chain.nodes| && bp == chain.nodes[i]
      modifies this`chain, bp`reinserting, target`bytes
      ensures Valid() && target.Sound() && Same(target.bytes, Overlay(old(target.bytes), bp.pc, data))
      ensures var r := old(chain).recs;
              chain == old(chain).(recs := r[i := r[i].(reinserting := lifted)])
    {
      var _ := Store(bp.pc, data);
      SetReinserting(bp, i, lifted);
    }

    /** uninsert_breakpoint */
    method UninsertBreakpoint(stoppedAt: int) returns (ok: bool)
      requires Valid() && target.Sound()
      modifies this`chain, chain.nodes`reinserting, target`bytes
      ensures Valid() && target.Sound() && ok == Uninsert(trap, old(Abs()), stoppedAt).1
      ensures SameState(Abs(), Uninsert(trap, old(Abs()), stoppedAt).0)
    {
      var bp := FindBreakpointAt(stoppedAt);
      if bp == null {
        return false;
      }
      ghost var i := Find(chain.recs, stoppedAt);
      assert bp.Holds(|trap|, chain.recs[i]);
      Replant(bp, i, bp.oldData[..|trap|], true);
      ok := true;
    }

    /** reinsert_breakpoint */
    method ReinsertBreakpoint(stoppedAt: int) returns (ok: bool)
      requires Valid() && target.Sound()
      modifies this`chain, chain.nodes`reinserting, target`bytes
      ensures Valid() && target.Sound() && ok == Reinsert(trap, old(Abs()), stoppedAt).1
      ensures SameState(Abs(), Reinsert(trap, old(Abs()), stoppedAt).0)
    {
      var bp := FindBreakpointAt(stoppedAt);
      if bp == null {
        return false;
      }
      ghost var i := Find(chain.recs, stoppedAt);
      assert bp.Holds(|trap|, chain.recs[i]);
      if !bp.reinserting {
        return false;
      }
      Replant(bp, i, trap, false);
      ok := true;
    }

    /** breakpoint_inserted_here */
    method BreakpointInsertedHere(where: int) returns (inserted: bool)
      requires Valid()
      ensures inserted <==> Standing(chain.recs, where)
    {
      var bp := FindBreakpointAt(where);
      assert bp != null ==> bp.Holds(|trap|, chain.recs[Find(chain.recs, where)]);
      inserted := bp != null && !bp.reinserting;
    }

    /** Make the newest breakpoint point to the one it steps over. */
    method SetLink(bp: Breakpoint, orig: Breakpoint, ghost i: nat)
      requires Valid() && i < |chain.nodes| && bp == chain.nodes[0] && orig == chain.nodes[i]
      modifies this`chain, bp`toReinsert
      ensures Valid()
      ensures chain == old(chain).(recs := [old(chain).recs[0].(link := Some(orig.id))] + old(chain).recs[1..])
    {
      assert bp.Holds(|trap|, chain.recs[0]);
      bp.toReinsert := orig;
      ghost var rs := [chain.recs[0].(link := Some(orig.id))] + chain.recs[1..];
      Restate(rs);
    }

    /** reinsert_breakpoint_by_bp */
    method ReinsertBreakpointByBp(stopPc: int, stopAt: int) returns (ok: bool)
      requires Valid() && target.Sound()
      modifies this`breakpoints, this`chain, chain.nodes`reinserting, target`bytes
      ensures Valid() && target.Sound() && fresh(chain.repr - old(chain.repr))
      ensures ok == StepOver(trap, old(Abs()), stopPc, stopAt).1
      ensures SameState(Abs(), StepOver(trap, old(Abs()), stopPc, stopAt).0)
    {
      SetBreakpointAt(stopAt, Reinserter);
      StepOverFrom(trap, old(Abs()), Abs(), stopPc, stopAt);
      var origBp := FindBreakpointAt(stopPc);
      if origBp == null {
        return false;
      }
      var bp := FindBreakpointAt(stopAt);
      LinkAndLift(bp, origBp, Find(chain.recs, stopPc));
      ok := true;
    }

    method LinkAndLift(bp: Breakpoint, origBp: Breakpoint, ghost i: nat)
      requires Valid() && target.Sound()
      requires i < |chain.nodes| && bp == chain.nodes[0] && origBp == chain.nodes[i]
      modifies this`chain, bp`toReinsert, origBp`reinserting, target`bytes
      ensures Valid() && target.Sound() && chain.repr == old(chain).repr
      ensures SameState(Abs(), Lift(trap, Relink(old(Abs()), old(chain).recs[i].id), i))
    {
      assert origBp.Holds(|trap|, chain.recs[i]);
      SetLink(bp, origBp, i);
      assert origBp.Holds(|trap|, chain.recs[i]);
      Replant(origBp, i, origBp.oldData[..|trap|], true);
    }

    /** check_breakpoints, which nothing in the repository calls, and reinsert_breakpoint_handler
        when it is called */
    method CheckBreakpoints(stopPc: int) returns (hit: Hit)
      requires Valid() && target.Sound()
      requires Answerable(chain.recs, stopPc)
      modifies this`breakpoints, this`chain, chain.nodes`next, chain.nodes`reinserting, target`bytes
      ensures Valid() && target.Sound()
      ensures hit == Check(trap, old(Abs()), stopPc).1
      ensures SameState(Abs(), Check(trap, old(Abs()), stopPc).0)
    {
      var bp := FindBreakpointAt(stopPc);
      if bp == null {
        return NotOurs;
      }
      ghost var i := Find(chain.recs, stopPc);
      assert bp.Holds(|trap|, chain.recs[i]);
      if bp.reinserting {
        return Removed;
      }
      hit := ReinsertBreakpointHandler(bp.pc);
    }

    /** reinsert_breakpoint_handler */
    method ReinsertBreakpointHandler(stopPc: int) returns (hit: Hit)
      requires Valid() && target.Sound()
      requires var i := Find(chain.recs, stopPc);
               i < |chain.recs| && chain.recs[i].link.Some? ==>
                 IndexOf(chain.recs, chain.recs[i].link.value) < |chain.recs|
      modifies this`breakpoints, this`chain, chain.nodes`next, chain.nodes`reinserting, target`bytes
      ensures Valid() && target.Sound()
      ensures hit == Reinsertion(trap, old(Abs()), stopPc).1
      ensures SameState(Abs(), Reinsertion(trap, old(Abs()), stopPc).0)
    {
      var stopBp := FindBreakpointAt(stopPc);
      if stopBp == null {
        return NotOurs;
      }
      ghost var i := Find(chain.recs, stopPc);
      assert stopBp.Holds(|trap|, chain.recs[i]);
      var origBp := stopBp.toReinsert;
      if origBp == null {
        return NoLink;
      }
      ghost var k := IndexOf(chain.recs, origBp.id);
      assert chain.nodes[k].Holds(|trap|, chain.recs[k]);
      ReplantAndDelete(origBp, k, stopBp, i);
      hit := Handled;
    }

    method ReplantAndDelete(origBp: Breakpoint, ghost k: nat, stopBp: Breakpoint, ghost i: nat)
      requires Valid() && target.Sound()
      requires i < |chain.nodes| && k < |chain.nodes| && stopBp == chain.nodes[i] && origBp == chain.nodes[k]
      modifies this`breakpoints, this`chain, chain.nodes`next, chain.nodes`reinserting, target`bytes
      ensures Valid() && target.Sound()
      ensures SameState(Abs(), Delete(trap, Drop(trap, old(Abs()), k), i))
    {
      assert origBp.Holds(|trap|, chain.recs[k]);
      hide Valid;
      Replant(origBp, k, trap, false);
      DeleteBreakpoint(stopBp, i);
    }
  }
}
