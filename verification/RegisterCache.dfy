/** The write-back register cache: src/regcache.c and the copying between cache and thread
    state in src/darwin-ppc-low.c. */
module RegisterCache {
  import opened Memory
  import opened DarwinMemory
  import opened RegisterLayout

  const PPC_NUM_REGS: nat := 71

  /** The table of src/reg-ppc.c: r0 to r31, f0 to f31, then the special registers. */
  function PpcName(n: nat): Name
    requires n < PPC_NUM_REGS
  {
    if n < 32 then R(n)
    else if n < 64 then F(n - 32)
    else [Pc, Ps, Cr, Lr, Ctr, Xer, Fpscr][n - 64]
  }

  /** Size in bits. */
  function PpcSize(n: nat): nat {
    if 32 <= n < 64 then 64 else 32
  }

  /** The sizes of that table. */
  predicate PpcTable(sizes: seq<nat>) {
    |sizes| == PPC_NUM_REGS && forall n :: 0 <= n < |sizes| ==> sizes[n] == PpcSize(n)
  }

  /** register_bytes */
  function RegisterBytes(sizes: seq<nat>): nat {
    Start(sizes, |sizes|)
  }

  function PpcWidth(n: nat): nat {
    if 32 <= n < 64 then 8 else 4
  }

  /** find_regno on that table. */
  method FindRegno(name: Name) returns (n: nat)
    requires exists k: nat :: k < PPC_NUM_REGS && PpcName(k) == name
    ensures n < PPC_NUM_REGS && PpcName(n) == name
  {
    n := 0;
    while PpcName(n) != name
      invariant n < PPC_NUM_REGS
      invariant forall k: nat :: k < n ==> PpcName(k) != name
      decreases PPC_NUM_REGS - n
    {
      n := n + 1;
    }
  }

  /** No two registers share a name. */
  lemma NamesDiffer(m: nat, n: nat)
    requires m < PPC_NUM_REGS && n < PPC_NUM_REGS && PpcName(m) == PpcName(n)
    ensures m == n
  {}

  // ---------- thread state ----------

  /** PPC_THREAD_STATE; `rest` stands for the fields that have no place in the cache. */
  datatype General = General(gpr: seq<seq<byte>>, srr0: seq<byte>, srr1: seq<byte>, cr: seq<byte>,
                             lr: seq<byte>, ctr: seq<byte>, xer: seq<byte>, rest: seq<byte>)

  /** PPC_FLOAT_STATE */
  datatype Float = Float(fpr: seq<seq<byte>>, fpscr: seq<byte>, rest: seq<byte>)

  datatype Hardware = Hardware(general: General, float: Float)

  predicate WellSized(hw: Hardware) {
    && |hw.general.gpr| == 32 && |hw.float.fpr| == 32
    && (forall i :: 0 <= i < 32 ==> |hw.general.gpr[i]| == 4)
    && (forall i :: 0 <= i < 32 ==> |hw.float.fpr[i]| == 8)
    && |hw.general.srr0| == 4 && |hw.general.srr1| == 4 && |hw.general.cr| == 4
    && |hw.general.lr| == 4 && |hw.general.ctr| == 4 && |hw.general.xer| == 4 && |hw.float.fpscr| == 4
  }

  /** The hardware's value of register `n`. */
  function Value(hw: Hardware, n: nat): (r: seq<byte>)
    requires WellSized(hw) && n < PPC_NUM_REGS
    ensures |r| == PpcWidth(n)
  {
    if n < 32 then hw.general.gpr[n]
    else if n < 64 then hw.float.fpr[n - 32]
    else
      [hw.general.srr0, hw.general.srr1, hw.general.cr, hw.general.lr, hw.general.ctr, hw.general.xer,
       hw.float.fpscr][n - 64]
  }

  /** Register `n` in a buffer. */
  function RegAt(sizes: seq<nat>, buf: seq<byte>, n: nat): (r: seq<byte>)
    requires PpcTable(sizes) && |buf| == RegisterBytes(sizes) && n < PPC_NUM_REGS
    ensures |r| == PpcWidth(n)
  {
    Collect(sizes, buf, n)
  }

  /** The buffer shows every register of the hardware. */
  ghost predicate Shows(sizes: seq<nat>, buf: seq<byte>, hw: Hardware)
    requires PpcTable(sizes) && WellSized(hw)
  {
    |buf| == RegisterBytes(sizes) && forall n :: 0 <= n < PPC_NUM_REGS ==> RegAt(sizes, buf, n) == Value(hw, n)
  }

  /** The hardware's registers in the order of the table. */
  function Values(hw: Hardware): (r: seq<seq<byte>>)
    requires WellSized(hw)
    ensures |r| == PPC_NUM_REGS && forall n :: 0 <= n < PPC_NUM_REGS ==> r[n] == Value(hw, n)
  {
    seq(PPC_NUM_REGS, n requires 0 <= n < PPC_NUM_REGS => Value(hw, n))
  }

  lemma SomeBufferShows(sizes: seq<nat>, hw: Hardware)
    requires PpcTable(sizes) && WellSized(hw)
    ensures exists buf :: Shows(sizes, buf, hw)
  {
    hide Values, Pack, Value, Collect, Start;
    var values := Values(hw);
    var buf := Pack(sizes, values, |sizes|);
    PackIsUnique(sizes, values, buf);
    assert Shows(sizes, buf, hw);
  }

  /** The hardware's registers in the layout of the cache. */
  ghost function Flat(sizes: seq<nat>, hw: Hardware): (r: seq<byte>)
    requires PpcTable(sizes) && WellSized(hw)
    ensures Shows(sizes, r, hw)
  {
    SomeBufferShows(sizes, hw);
    var r :| Shows(sizes, r, hw);
    r
  }

  lemma FlatIsUnique(sizes: seq<nat>, hw: Hardware, buf: seq<byte>)
    requires PpcTable(sizes) && WellSized(hw) && Shows(sizes, buf, hw)
    ensures buf == Flat(sizes, hw)
  {
    var flat := Flat(sizes, hw);
    forall n | 0 <= n < |sizes| ensures Collect(sizes, buf, n) == Collect(sizes, flat, n) {
      assert RegAt(sizes, buf, n) == RegAt(sizes, flat, n);
    }
    CollectDetermines(sizes, buf, flat);
  }

  /** Thread state with the registers of a buffer; what the buffer has no place for is extra. */
  function HardwareOf(sizes: seq<nat>, regs: seq<byte>, general: seq<byte>, float: seq<byte>): (hw: Hardware)
    requires PpcTable(sizes) && |regs| == RegisterBytes(sizes)
    ensures WellSized(hw)
  {
    hide RegAt, RegisterBytes;
    Hardware(General(seq(32, i requires 0 <= i < 32 => RegAt(sizes, regs, i)),
                     RegAt(sizes, regs, 64), RegAt(sizes, regs, 65), RegAt(sizes, regs, 66),
                     RegAt(sizes, regs, 67), RegAt(sizes, regs, 68), RegAt(sizes, regs, 69), general),
             Float(seq(32, i requires 0 <= i < 32 => RegAt(sizes, regs, 32 + i)), RegAt(sizes, regs, 70), float))
  }

  lemma HardwareShows(sizes: seq<nat>, regs: seq<byte>, general: seq<byte>, float: seq<byte>)
    requires PpcTable(sizes) && |regs| == RegisterBytes(sizes)
    ensures Shows(sizes, regs, HardwareOf(sizes, regs, general, float))
  {
    hide RegAt, RegisterBytes, PpcTable;
    var hw := HardwareOf(sizes, regs, general, float);
    forall n | 0 <= n < PPC_NUM_REGS ensures RegAt(sizes, regs, n) == Value(hw, n) {
      if n < 64 {
        assert n >= 32 ==> 32 + (n - 32) == n;
      } else {
        assert n in {64, 65, 66, 67, 68, 69, 70};
      }
    }
  }

  // ---------- one thread ----------

  class Thread {
    const id: int
    /** The sizes in reg_defs. */
    const sizes: seq<nat>
    /** registers_valid */
    var valid: bool
    const registers: array<byte>
    var hw: Hardware

    constructor (id: int, sizes: seq<nat>, hw: Hardware)
      requires PpcTable(sizes) && WellSized(hw)
      ensures Ready() && this.id == id && this.sizes == sizes && this.hw == hw && !valid && fresh(registers)
      ensures registers[..] == seq(RegisterBytes(sizes), _ => 0)
    {
      this.id, this.sizes, this.hw, valid := id, sizes, hw, false;
      registers := new byte[RegisterBytes(sizes)](_ => 0);
    }

    ghost predicate Ready()
      reads this
    {
      PpcTable(sizes) && registers.Length == RegisterBytes(sizes) && WellSized(hw)
    }

    /** The registers as the client is to see them. */
    ghost function Regs(): (r: seq<byte>)
      requires Ready()
      reads this, registers
      ensures |r| == RegisterBytes(sizes)
    {
      if valid then registers[..] else Flat(sizes, hw)
    }

    /** The hardware's registers, as the inferior finds them. */
    method Snapshot() returns (regs: seq<byte>)
      requires Ready()
      ensures regs == Flat(sizes, hw)
    {
      hide Start, Values, Pack;
      regs := Pack(sizes, Values(hw), |sizes|);
      PackIsUnique(sizes, Values(hw), regs);
      FlatIsUnique(sizes, hw, regs);
    }

    /** The inferior has run and left these registers, and anything in the fields beyond them. */
    method RunTo(regs: seq<byte>)
      requires Ready() && |regs| == RegisterBytes(sizes)
      modifies this`hw
      ensures Ready() && Flat(sizes, hw) == regs
    {
      var general: seq<byte>, float: seq<byte> := *, *;
      hw := HardwareOf(sizes, regs, general, float);
      HardwareShows(sizes, regs, general, float);
      FlatIsUnique(sizes, hw, regs);
    }

    /** supply_register */
    method SupplyRegister(n: nat, data: seq<byte>)
      requires Ready() && n < PPC_NUM_REGS && |data| == PpcWidth(n)
      modifies registers
      ensures registers[..] == Supply(sizes, old(registers[..]), n, data)
    {
      Within(sizes, n);
      Target.CopyIn(registers, Start(sizes, n), data);
    }

    /** supply_register_by_name */
    method SupplyByName(name: Name, ghost n: nat, data: seq<byte>)
      requires Ready() && n < PPC_NUM_REGS && name == PpcName(n) && |data| == PpcWidth(n)
      modifies registers
      ensures forall m :: 0 <= m < PPC_NUM_REGS ==>
                            RegAt(sizes, registers[..], m) == if m == n then data else RegAt(sizes, old(registers[..]), m)
    {
      var k := FindRegno(name);
      NamesDiffer(k, n);
      SupplyRegister(k, data);
      forall m | 0 <= m < PPC_NUM_REGS
        ensures RegAt(sizes, registers[..], m) == if m == n then data else RegAt(sizes, old(registers[..]), m)
      {
        CollectSupplied(sizes, old(registers[..]), n, data, m);
      }
    }

    /** The cache shows the hardware's registers from `lo` up to `hi`. */
    ghost predicate Loaded(lo: nat, hi: nat)
      requires Ready() && hi <= PPC_NUM_REGS
      reads this, registers
    {
      forall n :: lo <= n < hi ==> RegAt(sizes, registers[..], n) == Value(hw, n)
    }

    /** darwin_ppc_fetch_registers: nothing of the old cache is left. */
    method FetchRegisters()
      requires Ready()
      modifies registers
      ensures registers[..] == Flat(sizes, hw)
    {
      LoadGeneral();
      LoadFloat();
      FlatIsUnique(sizes, hw, registers[..]);
    }

    method LoadGeneral()
      requires Ready()
      modifies registers
      ensures Loaded(0, 32) && Loaded(64, 70)
    {
      var state := hw.general;   // thread_get_state
      var i := 0;
      while i < 32
        invariant 0 <= i <= 32 && Loaded(0, i)
      {
        SupplyByName(R(i), i, state.gpr[i]);
        i := i + 1;
      }
      LoadSpecial(state);
    }

    method LoadSpecial(state: General)
      requires Ready() && Loaded(0, 32) && state == hw.general
      modifies registers
      ensures Loaded(0, 32) && Loaded(64, 70)
    {
      LoadNext(Pc, 64, state.srr0);
      LoadNext(Ps, 65, state.srr1);
      LoadNext(Cr, 66, state.cr);
      LoadNext(Lr, 67, state.lr);
      LoadNext(Ctr, 68, state.ctr);
      LoadNext(Xer, 69, state.xer);
    }

    method LoadNext(name: Name, ghost n: nat, data: seq<byte>)
      requires Ready() && 64 <= n < 70 && Loaded(0, 32) && Loaded(64, n)
      requires name == PpcName(n) && data == Value(hw, n)
      modifies registers
      ensures Loaded(0, 32) && Loaded(64, n + 1)
    {
      SupplyByName(name, n, data);
    }

    method LoadFloat()
      requires Ready() && Loaded(0, 32) && Loaded(64, 70)
      modifies registers
      ensures Loaded(0, PPC_NUM_REGS)
    {
      var state := hw.float;
      var i := 0;
      while i < 32
        invariant 0 <= i <= 32 && Loaded(0, 32 + i) && Loaded(64, 70)
      {
        SupplyByName(F(i), 32 + i, state.fpr[i]);
        i := i + 1;
      }
      SupplyByName(Fpscr, 70, state.fpscr);
    }

    /** get_regcache: fetch when asked to and not valid. */
    method GetRegcache(fetch: bool)
      requires Ready()
      modifies this`valid, registers
      ensures Ready() && Regs() == old(Regs()) && valid == (fetch || old(valid))
      ensures !fetch || old(valid) ==> registers[..] == old(registers[..])
    {
      if fetch && !valid {
        FetchRegisters();
        valid := true;
      }
    }

    /** collect_register */
    method CollectRegister(n: nat) returns (data: seq<byte>)
      requires Ready() && n < PPC_NUM_REGS
      modifies this`valid, registers
      ensures Ready() && valid && Regs() == old(Regs()) && data == RegAt(sizes, Regs(), n)
    {
      GetRegcache(true);
      Within(sizes, n);
      data := registers[Start(sizes, n)..Start(sizes, n) + PpcWidth(n)];
    }

    /** collect_register_by_name while the cache is valid */
    method CollectByName(name: Name, ghost n: nat) returns (data: seq<byte>)
      requires Ready() && valid && n < PPC_NUM_REGS && name == PpcName(n)
      ensures data == RegAt(sizes, registers[..], n)
    {
      var k := FindRegno(name);
      NamesDiffer(k, n);
      Within(sizes, k);
      data := registers[Start(sizes, k)..Start(sizes, k) + PpcWidth(k)];
    }

    /** The integer half of darwin_ppc_store_registers: read the state, replace what the cache
        has a place for, write the state back. */
    method StoreGeneral()
      requires Ready() && valid
      modifies this`hw
      ensures Ready() && hw.float == old(hw.float) && hw.general.rest == old(hw.general.rest)
      ensures forall n :: 0 <= n < 32 || 64 <= n < 70 ==> Value(hw, n) == RegAt(sizes, registers[..], n)
    {
      var state := hw.general;
      var i := 0;
      while i < 32
        invariant hw == old(hw) && 0 <= i <= 32 && |state.gpr| == 32 && state == hw.general.(gpr := state.gpr)
        invariant forall k :: 0 <= k < i ==> state.gpr[k] == RegAt(sizes, registers[..], k)
        invariant forall k :: i <= k < 32 ==> |state.gpr[k]| == 4
      {
        var data := CollectByName(R(i), i);
        state := state.(gpr := state.gpr[i := data]);
        i := i + 1;
      }
      state := CollectSpecial(state);
      hw := hw.(general := state);
    }

    method CollectSpecial(state: General) returns (r: General)
      requires Ready() && valid
      ensures r.gpr == state.gpr && r.rest == state.rest
      ensures r.srr0 == RegAt(sizes, registers[..], 64) && r.srr1 == RegAt(sizes, registers[..], 65)
      ensures r.cr == RegAt(sizes, registers[..], 66) && r.lr == RegAt(sizes, registers[..], 67)
      ensures r.ctr == RegAt(sizes, registers[..], 68) && r.xer == RegAt(sizes, registers[..], 69)
    {
      var pc := CollectByName(Pc, 64);
      var ps := CollectByName(Ps, 65);
      var cr := CollectByName(Cr, 66);
      var lr := CollectByName(Lr, 67);
      var ctr := CollectByName(Ctr, 68);
      var xer := CollectByName(Xer, 69);
      r := state.(srr0 := pc, srr1 := ps, cr := cr, lr := lr, ctr := ctr, xer := xer);
    }

    /** The floating-point half. */
    method StoreFloat()
      requires Ready() && valid
      modifies this`hw
      ensures Ready() && hw.general == old(hw.general) && hw.float.rest == old(hw.float.rest)
      ensures forall n :: 32 <= n < 64 || n == 70 ==> Value(hw, n) == RegAt(sizes, registers[..], n)
    {
      var state := hw.float;
      var i := 0;
      while i < 32
        invariant hw == old(hw) && 0 <= i <= 32 && |state.fpr| == 32 && state == hw.float.(fpr := state.fpr)
        invariant forall k :: 0 <= k < i ==> state.fpr[k] == RegAt(sizes, registers[..], 32 + k)
        invariant forall k :: i <= k < 32 ==> |state.fpr[k]| == 8
      {
        var data := CollectByName(F(i), 32 + i);
        state := state.(fpr := state.fpr[i := data]);
        i := i + 1;
      }
      var fpscr := CollectByName(Fpscr, 70);
      hw := hw.(float := state.(fpscr := fpscr));
    }

    /** darwin_ppc_store_registers: every register reaches the hardware, everything else in the
        thread state stays. */
    method StoreRegisters()
      requires Ready() && valid
      modifies this`hw
      ensures Ready() && Flat(sizes, hw) == registers[..]
      ensures hw.general.rest == old(hw.general.rest) && hw.float.rest == old(hw.float.rest)
    {
      StoreGeneral();
      ghost var general := hw.general;
      StoreFloat();
      FlatIsUnique(sizes, hw, registers[..]);
    }

    /** regcache_invalidate_one, as darwin_resume does just before the inferior runs: the
        hardware ends up with the registers that the client sees. */
    method RegcacheInvalidateOne()
      requires Ready()
      modifies this`hw, this`valid
      ensures Ready() && !valid && Flat(sizes, hw) == old(Regs()) && Regs() == old(Regs())
      ensures hw.general.rest == old(hw.general.rest) && hw.float.rest == old(hw.float.rest)
    {
      if valid {
        StoreRegisters();
      }
      valid := false;
    }
  }

  /** regcache_invalidate: for_each_inferior over regcache_invalidate_one. */
  method RegcacheInvalidate(threads: seq<Thread>)
    requires forall t :: t in threads ==> t.Ready()
    requires forall i, k :: 0 <= i < k < |threads| ==> threads[i] != threads[k]
    requires forall t, u :: t in threads && u in threads && t != u ==> t.registers != u.registers
    modifies threads
    ensures forall t :: t in threads ==> t.Ready() && !t.valid && Flat(t.sizes, t.hw) == old(t.Regs())
    ensures forall t :: t in threads ==>
                          t.hw.general.rest == old(t.hw.general.rest) && t.hw.float.rest == old(t.hw.float.rest)
  {
    var i := 0;
    while i < |threads|
      invariant 0 <= i <= |threads|
      invariant forall k :: 0 <= k < |threads| ==> threads[k].Ready() && threads[k].Regs() == old(threads[k].Regs())
      invariant forall k :: 0 <= k < |threads| ==>
                              && threads[k].hw.general.rest == old(threads[k].hw.general.rest)
                              && threads[k].hw.float.rest == old(threads[k].hw.float.rest)
      invariant forall k :: 0 <= k < i ==> !threads[k].valid
    {
      threads[i].RegcacheInvalidateOne();
      i := i + 1;
    }
  }
}
