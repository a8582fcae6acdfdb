/** Where each register lives in the packed register buffer (src/regcache.c, src/reg-ppc.c). */
module RegisterLayout {
  import opened Memory

  /** The names that the PowerPC table has. */
  datatype Name = R(i: nat) | F(i: nat) | Pc | Ps | Cr | Lr | Ctr | Xer | Fpscr

  /** An entry of the register table; offset and size are in bits. */
  datatype Reg = Reg(name: Name, offset: nat, size: nat)

  /** Sizes in bits, all of them whole bytes. */
  predicate WholeBytes(sizes: seq<nat>) {
    forall i :: 0 <= i < |sizes| ==> sizes[i] % 8 == 0
  }

  function Sizes(regs: seq<Reg>): (r: seq<nat>)
    ensures |r| == |regs| && forall i :: 0 <= i < |regs| ==> r[i] == regs[i].size
  {
    seq(|regs|, i requires 0 <= i < |regs| => regs[i].size)
  }

  /** Bits before register `n`. */
  function BitOffset(sizes: seq<nat>, n: nat): nat
    requires n <= |sizes|
  {
    if n == 0 then 0 else BitOffset(sizes, n - 1) + sizes[n - 1]
  }

  /** A register with its offset. */
  function Placed(r: Reg, offset: nat): (p: Reg)
    ensures p.offset == offset && p.name == r.name && p.size == r.size
  {
    r.(offset := offset)
  }

  /** The first `n` registers of `now` have their offsets, the others are as they were. */
  predicate LaidOut(before: seq<Reg>, now: seq<Reg>, n: nat) {
    && |now| == |before|
    && forall i :: 0 <= i < |now| ==>
                     now[i] == if i < n then Placed(before[i], BitOffset(Sizes(before), i)) else before[i]
  }

  lemma LaidOutNext(before: seq<Reg>, now: seq<Reg>, n: nat)
    requires LaidOut(before, now, n) && n < |before|
    ensures LaidOut(before, now[n := Placed(now[n], BitOffset(Sizes(before), n))], n + 1)
    ensures BitOffset(Sizes(before), n + 1) == BitOffset(Sizes(before), n) + now[n].size
  {}

  /** set_register_cache: lay the registers out one after the other. */
  method SetRegisterCache(regs: array<Reg>) returns (registerBytes: nat)
    modifies regs
    ensures LaidOut(old(regs[..]), regs[..], regs.Length)
    ensures registerBytes == BitOffset(Sizes(old(regs[..])), regs.Length) / 8
  {
    ghost var before := regs[..];
    var offset, i: nat := 0, 0;
    while i < regs.Length
      invariant i <= regs.Length && offset == BitOffset(Sizes(before), i)
      invariant LaidOut(before, regs[..], i)
    {
      hide LaidOut, BitOffset, Placed;
      LaidOutNext(before, regs[..], i);
      regs[i] := Placed(regs[i], offset);
      offset := offset + regs[i].size;
      i := i + 1;
    }
    registerBytes := offset / 8;
  }

  // ---------- in bytes ----------

  /** The first byte of register `n`, and for `n` the number of registers the whole length. */
  function Start(sizes: seq<nat>, n: nat): nat
    requires n <= |sizes|
  {
    BitOffset(sizes, n) / 8
  }

  function Width(sizes: seq<nat>, n: nat): nat
    requires n < |sizes|
  {
    sizes[n] / 8
  }

  lemma {:induction false} WholeOffsets(sizes: seq<nat>, n: nat)
    requires WholeBytes(sizes) && n <= |sizes|
    ensures BitOffset(sizes, n) % 8 == 0
    ensures n > 0 ==> Start(sizes, n) == Start(sizes, n - 1) + Width(sizes, n - 1)
  {
    if n > 0 {
      WholeOffsets(sizes, n - 1);
    }
  }

  /** Later registers start no earlier than earlier ones end. */
  lemma {:induction false} Ordered(sizes: seq<nat>, m: nat, n: nat)
    requires WholeBytes(sizes) && m < n <= |sizes|
    ensures Start(sizes, m) + Width(sizes, m) <= Start(sizes, n)
    decreases n
  {
    WholeOffsets(sizes, n);
    if m < n - 1 {
      Ordered(sizes, m, n - 1);
    }
  }

  /** The register that holds a byte of the buffer. */
  function Owner(sizes: seq<nat>, b: nat): (n: nat)
    requires WholeBytes(sizes) && b < Start(sizes, |sizes|)
    ensures n < |sizes| && Start(sizes, n) <= b < Start(sizes, n) + Width(sizes, n)
  {
    OwnerUpTo(sizes, b, |sizes|)
  }

  function OwnerUpTo(sizes: seq<nat>, b: nat, k: nat): (n: nat)
    requires WholeBytes(sizes) && k <= |sizes| && b < Start(sizes, k)
    ensures n < k && Start(sizes, n) <= b < Start(sizes, n) + Width(sizes, n)
    decreases k
  {
    WholeOffsets(sizes, k);
    if b < Start(sizes, k - 1) then OwnerUpTo(sizes, b, k - 1) else k - 1
  }

  /** The registers tile the buffer: each byte belongs to exactly one of them. */
  lemma Tiling(sizes: seq<nat>, b: nat, n: nat)
    requires WholeBytes(sizes) && b < Start(sizes, |sizes|) && n < |sizes|
    ensures Start(sizes, n) <= b < Start(sizes, n) + Width(sizes, n) <==> n == Owner(sizes, b)
  {
    var o := Owner(sizes, b);
    if n < o {
      Ordered(sizes, n, o);
    } else if o < n {
      Ordered(sizes, o, n);
    }
  }

  lemma Within(sizes: seq<nat>, n: nat)
    requires WholeBytes(sizes) && n < |sizes|
    ensures Start(sizes, n) + Width(sizes, n) <= Start(sizes, |sizes|)
  {
    Ordered(sizes, n, |sizes|);
  }

  // ---------- supply and collect ----------

  /** What collect_register copies out. */
  function Collect(sizes: seq<nat>, buf: seq<byte>, n: nat): (r: seq<byte>)
    requires WholeBytes(sizes) && |buf| == Start(sizes, |sizes|) && n < |sizes|
    ensures |r| == Width(sizes, n)
  {
    Within(sizes, n);
    buf[Start(sizes, n)..Start(sizes, n) + Width(sizes, n)]
  }

  /** What supply_register leaves. */
  function Supply(sizes: seq<nat>, buf: seq<byte>, n: nat, data: seq<byte>): (r: seq<byte>)
    requires WholeBytes(sizes) && |buf| == Start(sizes, |sizes|) && n < |sizes| && |data| == Width(sizes, n)
    ensures |r| == |buf|
  {
    Within(sizes, n);
    buf[..Start(sizes, n)] + data + buf[Start(sizes, n) + |data|..]
  }

  /** Supplying a register changes what is collected for that one and for no other. */
  lemma CollectSupplied(sizes: seq<nat>, buf: seq<byte>, n: nat, data: seq<byte>, m: nat)
    requires WholeBytes(sizes) && |buf| == Start(sizes, |sizes|) && n < |sizes| && |data| == Width(sizes, n)
    requires m < |sizes|
    ensures Collect(sizes, Supply(sizes, buf, n, data), m) == if m == n then data else Collect(sizes, buf, m)
  {
    Within(sizes, n);
    Within(sizes, m);
    if m < n {
      Ordered(sizes, m, n);
    } else if n < m {
      Ordered(sizes, n, m);
    }
    hide Start, Width, WholeBytes;
    Spliced(buf, Start(sizes, n), data, Start(sizes, m), Start(sizes, m) + Width(sizes, m));
  }

  lemma Spliced(buf: seq<byte>, at: nat, data: seq<byte>, start: nat, end: nat)
    requires at + |data| <= |buf| && start <= end <= |buf|
    ensures var r := buf[..at] + data + buf[at + |data|..];
            && |r| == |buf|
            && (end <= at || at + |data| <= start ==> r[start..end] == buf[start..end])
            && (start == at && end == at + |data| ==> r[start..end] == data)
  {}

  /** The registers are all there is in the buffer. */
  lemma CollectDetermines(sizes: seq<nat>, p: seq<byte>, q: seq<byte>)
    requires WholeBytes(sizes) && |p| == |q| == Start(sizes, |sizes|)
    requires forall n :: 0 <= n < |sizes| ==> Collect(sizes, p, n) == Collect(sizes, q, n)
    ensures p == q
  {
    forall b | 0 <= b < |p| ensures p[b] == q[b] {
      var n := Owner(sizes, b);
      Within(sizes, n);
      assert p[b] == Collect(sizes, p, n)[b - Start(sizes, n)];
      assert q[b] == Collect(sizes, q, n)[b - Start(sizes, n)];
    }
  }

  /** One value for each register, of its width. */
  predicate Fitting(sizes: seq<nat>, values: seq<seq<byte>>) {
    |values| == |sizes| && forall n :: 0 <= n < |sizes| ==> |values[n]| == Width(sizes, n)
  }

  /** The buffer that holds given values. */
  function Pack(sizes: seq<nat>, values: seq<seq<byte>>, k: nat): (r: seq<byte>)
    requires WholeBytes(sizes) && Fitting(sizes, values) && k <= |sizes|
    ensures |r| == Start(sizes, k)
    decreases k
  {
    WholeOffsets(sizes, k);
    if k == 0 then [] else Pack(sizes, values, k - 1) + values[k - 1]
  }

  lemma SliceOfConcat(s: seq<byte>, t: seq<byte>, start: nat, end: nat)
    requires start <= end <= |s + t|
    ensures end <= |s| ==> (s + t)[start..end] == s[start..end]
    ensures start == |s| && end == |s + t| ==> (s + t)[start..end] == t
  {}

  lemma {:induction false} PackSlice(sizes: seq<nat>, values: seq<seq<byte>>, k: nat, n: nat)
    requires WholeBytes(sizes) && Fitting(sizes, values) && n < k <= |sizes|
    ensures Start(sizes, n) + Width(sizes, n) <= Start(sizes, k)
    ensures Pack(sizes, values, k)[Start(sizes, n)..Start(sizes, n) + Width(sizes, n)] == values[n]
    decreases k
  {
    Ordered(sizes, n, k);
    WholeOffsets(sizes, k);
    var start, end, all := Start(sizes, n), Start(sizes, n) + Width(sizes, n), Pack(sizes, values, k - 1);
    SliceOfConcat(all, values[k - 1], start, end);
    if n < k - 1 {
      PackSlice(sizes, values, k - 1, n);
    }
  }

  /** A buffer from which every value is collected is the packed one, however it was filled. */
  lemma PackIsUnique(sizes: seq<nat>, values: seq<seq<byte>>, buf: seq<byte>)
    requires WholeBytes(sizes) && Fitting(sizes, values) && |buf| == Start(sizes, |sizes|)
    ensures buf == Pack(sizes, values, |sizes|) <==>
            forall n :: 0 <= n < |sizes| ==> Collect(sizes, buf, n) == values[n]
  {
    var packed := Pack(sizes, values, |sizes|);
    forall n | 0 <= n < |sizes| ensures Collect(sizes, packed, n) == values[n] {
      PackSlice(sizes, values, |sizes|, n);
    }
    if forall n :: 0 <= n < |sizes| ==> Collect(sizes, buf, n) == values[n] {
      CollectDetermines(sizes, buf, packed);
    }
  }
}
