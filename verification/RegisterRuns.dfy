/** Sessions over the register cache: when the client sees one plain register file, and
    when a write is lost. */
module RegisterRuns {
  import opened Memory
  import opened RegisterLayout
  import opened RegisterCache

  const STOPPED: byte := 84   // 'T'

  /** Why the inferior is not running: the status letter and the signal or exit code. */
  datatype Stop = Stop(status: byte, signal: byte)

  /** The current thread's cache and hardware registers, both in the layout of the buffer, and
      the last stop. */
  datatype State = State(valid: bool, cache: seq<byte>, hw: seq<byte>, stop: Stop)

  datatype Command =
    | Question                                   // ?
    | ReadAll                                    // g
    | WriteAll(prefix: seq<byte>)                // G
    | ReadOne(n: nat)                            // p
    | WriteOne(n: nat, data: seq<byte>)          // P
    | Resume(ran: seq<byte>, stop: Stop)           // c, s, C, S, vCont: the inferior runs and stops

  predicate Shaped(sizes: seq<nat>, s: State) {
    PpcTable(sizes) && |s.cache| == RegisterBytes(sizes) && |s.hw| == RegisterBytes(sizes)
  }

  predicate Fits(sizes: seq<nat>, c: Command)
    requires PpcTable(sizes)
  {
    match c
    case ReadOne(n) => n < PPC_NUM_REGS
    case WriteOne(n, data) => n < PPC_NUM_REGS && |data| == PpcWidth(n)
    case Resume(ran, _) => |ran| == RegisterBytes(sizes)
    case _ => true
  }

  /** The registers as the client is to see them. */
  function View(s: State): seq<byte> {
    if s.valid then s.cache else s.hw
  }

  /** get_regcache with fetch */
  function Fetched(s: State): State {
    if s.valid then s else s.(valid := true, cache := s.hw)
  }

  /** The buffer after a prefix has been overwritten, the excess being dropped. */
  function Overwritten(prefix: seq<byte>, buf: seq<byte>): (r: seq<byte>)
    ensures |r| == |buf|
  {
    if |prefix| > |buf| then prefix[..|buf|] else prefix + buf[|prefix|..]
  }

  function Step(sizes: seq<nat>, s: State, c: Command): (t: State)
    requires Shaped(sizes, s) && Fits(sizes, c)
    ensures Shaped(sizes, t)
  {
    match c
    case Question => if s.stop.status == STOPPED then Fetched(s) else s
    case ReadAll => Fetched(s)
    case WriteAll(prefix) => var f := Fetched(s); f.(cache := Overwritten(prefix, f.cache))
    case ReadOne(_) => Fetched(s)
    case WriteOne(n, data) => s.(cache := Supply(sizes, s.cache, n, data))
    case Resume(ran, stop) =>
      // written back by regcache_invalidate, run, and shown again by prepare_resume_reply
      var stopped := State(false, s.cache, ran, stop);
      if stop.status == STOPPED then Fetched(stopped) else stopped
  }

  /** The bytes in the reply, and for a resumption the registers that the inferior starts with. */
  function Output(sizes: seq<nat>, s: State, c: Command): seq<byte>
    requires Shaped(sizes, s) && Fits(sizes, c)
  {
    match c
    case ReadAll => Fetched(s).cache
    case ReadOne(n) => RegAt(sizes, Fetched(s).cache, n)
    case Resume(_, _) => if s.valid then s.cache else s.hw
    case _ => []
  }

  // ---------- the simple form: one register file ----------

  function PlainStep(sizes: seq<nat>, m: seq<byte>, c: Command): (r: seq<byte>)
    requires PpcTable(sizes) && |m| == RegisterBytes(sizes) && Fits(sizes, c)
    ensures |r| == |m|
  {
    match c
    case WriteAll(prefix) => Overwritten(prefix, m)
    case WriteOne(n, data) => Supply(sizes, m, n, data)
    case Resume(ran, _) => ran
    case _ => m
  }

  function PlainOutput(sizes: seq<nat>, m: seq<byte>, c: Command): seq<byte>
    requires PpcTable(sizes) && |m| == RegisterBytes(sizes) && Fits(sizes, c)
  {
    match c
    case ReadAll => m
    case ReadOne(n) => RegAt(sizes, m, n)
    case Resume(_, _) => m
    case _ => []
  }

  /** A single command acts on the view as on a plain register file, with one exception: a P
      packet that finds the cache invalid is lost, unless the register has that value already. */
  lemma StepRefinesIff(sizes: seq<nat>, s: State, c: Command)
    requires Shaped(sizes, s) && Fits(sizes, c)
    ensures Output(sizes, s, c) == PlainOutput(sizes, View(s), c)
    ensures View(Step(sizes, s, c)) == PlainStep(sizes, View(s), c) <==>
            (c.WriteOne? ==> s.valid || RegAt(sizes, s.hw, c.n) == c.data)
  {
    if c.WriteOne? && !s.valid {
      CollectSupplied(sizes, s.hw, c.n, c.data, c.n);
      if RegAt(sizes, s.hw, c.n) == c.data {
        forall m | 0 <= m < |sizes|
          ensures Collect(sizes, Supply(sizes, s.hw, c.n, c.data), m) == Collect(sizes, s.hw, m)
        {
          CollectSupplied(sizes, s.hw, c.n, c.data, m);
        }
        CollectDetermines(sizes, Supply(sizes, s.hw, c.n, c.data), s.hw);
      }
    }
  }

  /** A G packet with fewer bytes than there are registers changes the registers it covers and
      no register beyond them. */
  lemma PrefixWritten(sizes: seq<nat>, s: State, prefix: seq<byte>, n: nat)
    requires Shaped(sizes, s) && n < PPC_NUM_REGS && |prefix| <= RegisterBytes(sizes)
    ensures var regs := View(Step(sizes, s, WriteAll(prefix)));
            var start := Start(sizes, n);
            && (start + PpcWidth(n) <= |prefix| ==> RegAt(sizes, regs, n) == prefix[start..start + PpcWidth(n)])
            && (|prefix| <= start ==> RegAt(sizes, regs, n) == RegAt(sizes, View(s), n))
  {
    Within(sizes, n);
    var regs, was := View(Step(sizes, s, WriteAll(prefix))), View(s);
    var start, end := Start(sizes, n), Start(sizes, n) + PpcWidth(n);
    assert regs == prefix + was[|prefix|..];
    assert RegAt(sizes, regs, n) == regs[start..end] && RegAt(sizes, was, n) == was[start..end];
    hide Start, RegAt, View, Step, PpcWidth, Shaped, RegisterBytes;
    if end <= |prefix| {
      assert regs[start..end] == prefix[start..end];
    }
    if |prefix| <= start {
      assert regs[start..end] == was[start..end];
    }
  }

  // ---------- sessions ----------

  /** Commands after which a cache that was not valid is. */
  predicate Primes(s: State, c: Command) {
    c.ReadAll? || c.WriteAll? || c.ReadOne? || (c.Question? && s.stop.status == STOPPED)
  }

  /** The inferior stops each time, that is, it does not exit. */
  predicate Stops(cs: seq<Command>) {
    forall i :: 0 <= i < |cs| && cs[i].Resume? ==> cs[i].stop.status == STOPPED
  }

  predicate AllFit(sizes: seq<nat>, cs: seq<Command>)
    requires PpcTable(sizes)
  {
    forall i :: 0 <= i < |cs| ==> Fits(sizes, cs[i])
  }

  function Outputs(sizes: seq<nat>, s: State, cs: seq<Command>): seq<seq<byte>>
    requires Shaped(sizes, s) && AllFit(sizes, cs)
    decreases |cs|
  {
    if cs == [] then []
    else [Output(sizes, s, cs[0])] + Outputs(sizes, Step(sizes, s, cs[0]), cs[1..])
  }

  function Run(sizes: seq<nat>, s: State, cs: seq<Command>): (t: State)
    requires Shaped(sizes, s) && AllFit(sizes, cs)
    ensures Shaped(sizes, t)
    decreases |cs|
  {
    if cs == [] then s else Run(sizes, Step(sizes, s, cs[0]), cs[1..])
  }

  function PlainOutputs(sizes: seq<nat>, m: seq<byte>, cs: seq<Command>): seq<seq<byte>>
    requires PpcTable(sizes) && |m| == RegisterBytes(sizes) && AllFit(sizes, cs)
    decreases |cs|
  {
    if cs == [] then []
    else [PlainOutput(sizes, m, cs[0])] + PlainOutputs(sizes, PlainStep(sizes, m, cs[0]), cs[1..])
  }

  /** A valid cache is valid again at every packet boundary, since each resumption ends in a
      reply that collects registers; so every command, P included, acts as on one register file,
      and the inferior is always resumed with exactly that file. */
  lemma {:induction false} ValidRunRefines(sizes: seq<nat>, s: State, cs: seq<Command>)
    requires Shaped(sizes, s) && AllFit(sizes, cs) && Stops(cs) && s.valid
    ensures Run(sizes, s, cs).valid
    ensures Outputs(sizes, s, cs) == PlainOutputs(sizes, View(s), cs)
    decreases |cs|
  {
    if cs != [] {
      StepRefinesIff(sizes, s, cs[0]);
      ValidRunRefines(sizes, Step(sizes, s, cs[0]), cs[1..]);
    }
  }

  /** A session that starts with any of ?, g, G or p, on a stopped inferior. */
  lemma SessionRefines(sizes: seq<nat>, s: State, cs: seq<Command>)
    requires Shaped(sizes, s) && AllFit(sizes, cs) && Stops(cs)
    requires cs != [] && Primes(s, cs[0])
    ensures Run(sizes, s, cs).valid
    ensures Outputs(sizes, s, cs) == PlainOutputs(sizes, View(s), cs)
  {
    StepRefinesIff(sizes, s, cs[0]);
    ValidRunRefines(sizes, Step(sizes, s, cs[0]), cs[1..]);
  }

  /** The bytes of a cache that is not valid make no difference. */
  predicate Alike(s: State, t: State) {
    s == t || (!s.valid && !t.valid && s.hw == t.hw && s.stop == t.stop)
  }

  lemma {:induction false} AlikeOutputs(sizes: seq<nat>, s: State, t: State, cs: seq<Command>)
    requires Shaped(sizes, s) && Shaped(sizes, t) && Alike(s, t) && AllFit(sizes, cs)
    ensures Outputs(sizes, s, cs) == Outputs(sizes, t, cs) && Alike(Run(sizes, s, cs), Run(sizes, t, cs))
    decreases |cs|
  {
    if cs != [] {
      AlikeOutputs(sizes, Step(sizes, s, cs[0]), Step(sizes, t, cs[0]), cs[1..]);
    }
  }

  /** A P packet that comes before the cache is valid might as well not have been sent: whatever
      follows goes as if it had not, although its reply was OK. */
  lemma EarlyWriteIsLost(sizes: seq<nat>, s: State, n: nat, data: seq<byte>, cs: seq<Command>)
    requires Shaped(sizes, s) && !s.valid && Fits(sizes, WriteOne(n, data)) && AllFit(sizes, cs)
    ensures Outputs(sizes, Step(sizes, s, WriteOne(n, data)), cs) == Outputs(sizes, s, cs)
    ensures Alike(Run(sizes, Step(sizes, s, WriteOne(n, data)), cs), Run(sizes, s, cs))
  {
    AlikeOutputs(sizes, Step(sizes, s, WriteOne(n, data)), s, cs);
  }
}
