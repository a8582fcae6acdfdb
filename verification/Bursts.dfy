/** A connection as the reads see it: the bytes that readchar has read ahead, and the bursts that
    have yet to be read. A read never returns bytes of two bursts. */
module Bursts {
  import opened Memory

  const BUFSIZ: nat := 1024

  predicate Arriving(bursts: seq<seq<byte>>) {
    forall i :: 0 <= i < |bursts| ==> bursts[i] != []
  }

  function Flat(bursts: seq<seq<byte>>): seq<byte> {
    if bursts == [] then [] else bursts[0] + Flat(bursts[1..])
  }

  /** What a read of at most `limit` bytes returns. */
  function Chunk(bursts: seq<seq<byte>>, limit: nat): seq<byte> {
    if bursts == [] then [] else if |bursts[0]| <= limit then bursts[0] else bursts[0][..limit]
  }

  /** The bursts after that read. */
  function Later(bursts: seq<seq<byte>>, limit: nat): seq<seq<byte>> {
    if bursts == [] then [] else if |bursts[0]| <= limit then bursts[1..] else [bursts[0][limit..]] + bursts[1..]
  }

  lemma ReadSplits(bursts: seq<seq<byte>>, limit: nat)
    requires Arriving(bursts) && limit > 0
    ensures Flat(bursts) == Chunk(bursts, limit) + Flat(Later(bursts, limit))
    ensures Arriving(Later(bursts, limit))
    ensures Chunk(bursts, limit) == [] <==> bursts == []
    ensures Flat(bursts) == [] <==> bursts == []
  {
    if bursts != [] && |bursts[0]| > limit {
      var left := bursts[0][limit..];
      assert ([left] + bursts[1..])[1..] == bursts[1..];
      assert bursts[0][..limit] + (left + Flat(bursts[1..])) == bursts[0] + Flat(bursts[1..]);
    }
  }

  // ---------- readchar ----------

  /** `ahead` is what is left in readchar's buffer. */
  datatype Wire = Wire(ahead: seq<byte>, bursts: seq<seq<byte>>)

  function Stream(w: Wire): seq<byte> {
    w.ahead + Flat(w.bursts)
  }

  /** The connection after one readchar. */
  function Next(w: Wire): (r: Wire)
    requires Arriving(w.bursts)
    ensures Arriving(r.bursts)
    ensures Stream(r) == if Stream(w) == [] then [] else Stream(w)[1..]
  {
    if w.ahead != [] then
      assert Stream(w)[1..] == w.ahead[1..] + Flat(w.bursts);
      Wire(w.ahead[1..], w.bursts)
    else
      ReadSplits(w.bursts, BUFSIZ);
      if w.bursts == [] then w
      else
        var chunk, later := Chunk(w.bursts, BUFSIZ), Later(w.bursts, BUFSIZ);
        assert Stream(w)[1..] == chunk[1..] + Flat(later);
        Wire(chunk[1..], later)
  }

  lemma EndOfTail(s: seq<byte>, k: nat)
    requires 0 < k <= |s|
    ensures s[1..][k - 1..] == s[k..]
  {}

  /** The connection once characters have been read until `n` are left. */
  function Left(w: Wire, n: nat): (r: Wire)
    requires Arriving(w.bursts) && n <= |Stream(w)|
    ensures Arriving(r.bursts) && Stream(r) == Stream(w)[|Stream(w)| - n..]
    decreases |Stream(w)|
  {
    hide Stream, Next;
    if |Stream(w)| == n then w
    else
      EndOfTail(Stream(w), |Stream(w)| - n);
      Left(Next(w), n)
  }

  lemma {:induction false} LeftAgain(w: Wire, m: nat, n: nat)
    requires Arriving(w.bursts) && n <= m <= |Stream(w)|
    ensures Left(Left(w, m), n) == Left(w, n)
    decreases |Stream(w)|
  {
    if m < |Stream(w)| {
      LeftAgain(Next(w), m, n);
    }
  }

  /** Reading characters leads from `v` to `w`. */
  predicate Reaches(v: Wire, w: Wire) {
    Arriving(v.bursts) && |Stream(w)| <= |Stream(v)| && w == Left(v, |Stream(w)|)
  }

  lemma ReachesLeft(v: Wire, w: Wire)
    requires Reaches(v, w)
    ensures Arriving(v.bursts) && |Stream(w)| <= |Stream(v)| && w == Left(v, |Stream(w)|)
  {}

  lemma LeftOne(w: Wire)
    requires Arriving(w.bursts) && Stream(w) != []
    ensures Left(w, |Stream(w)| - 1) == Next(w)
  {
    assert |Stream(Next(w))| == |Stream(w)| - 1;
  }

  lemma ReachesSelf(w: Wire)
    requires Arriving(w.bursts)
    ensures Reaches(w, w)
  {}

  lemma ReachesNext(v: Wire, w: Wire)
    requires Reaches(v, w)
    ensures Reaches(v, Next(w))
  {
    var n := |Stream(w)|;
    if n > 0 {
      LeftOne(w);
      LeftAgain(v, n, n - 1);
    } else {
      ReadSplits(w.bursts, BUFSIZ);
      assert w.ahead == [] && Flat(w.bursts) == [];
    }
  }

  lemma ReachesOn(u: Wire, v: Wire, w: Wire)
    requires Reaches(u, v) && Reaches(v, w)
    ensures Reaches(u, w)
  {
    LeftAgain(u, |Stream(v)|, |Stream(w)|);
  }

  lemma {:induction false} FlatSplit(bursts: seq<seq<byte>>, k: nat)
    requires k <= |bursts|
    ensures Flat(bursts) == Flat(bursts[..k]) + Flat(bursts[k..])
  {
    if k > 0 {
      FlatSplit(bursts[1..], k - 1);
      assert bursts[1..][..k - 1] == bursts[..k][1..] && bursts[1..][k - 1..] == bursts[k..];
    } else {
      assert bursts[0..] == bursts && Flat(bursts[..0]) == [];
    }
  }

  lemma {:induction false} FlatNonempty(bursts: seq<seq<byte>>, k: nat)
    requires Arriving(bursts) && k <= |bursts| && |Flat(bursts[k..])| == |Flat(bursts)|
    ensures k == 0
  {
    FlatSplit(bursts, k);
    ReadSplits(bursts[..k], 1);
  }

  /** Where the bytes that are read end with a burst, nothing is read ahead. */
  lemma {:induction false} NothingAhead(w: Wire, k: nat, n: nat)
    requires Arriving(w.bursts) && k <= |w.bursts| && n == |Flat(w.bursts[k..])| <= |Stream(w)|
    ensures Left(w, n) == Wire([], w.bursts[k..])
    decreases |Stream(w)|
  {
    var next, bursts := Next(w), w.bursts;
    FlatSplit(bursts, k);
    if |Stream(w)| == n {
      FlatNonempty(bursts, k);
    } else if w.ahead != [] {
      NothingAhead(next, k, n);
    } else {
      ReadSplits(bursts, BUFSIZ);
      assert k > 0;
      if |bursts[0]| <= BUFSIZ {
        assert bursts[1..][k - 1..] == bursts[k..];
        NothingAhead(next, k - 1, n);
      } else {
        assert next.bursts[k..] == bursts[k..];
        NothingAhead(next, k, n);
      }
    }
  }

  lemma {:induction false} LeftAhead(x: seq<byte>, y: seq<byte>, bursts: seq<seq<byte>>)
    requires Arriving(bursts)
    ensures Left(Wire(x + y, bursts), |y + Flat(bursts)|) == Wire(y, bursts)
    decreases |x|
  {
    var w := Wire(x + y, bursts);
    assert |Stream(w)| == |x| + |y + Flat(bursts)|;
    if x == [] {
      assert x + y == y;
    } else {
      assert (x + y)[1..] == x[1..] + y;
      LeftAhead(x[1..], y, bursts);
    }
  }

  lemma NextOfBurst(burst: seq<byte>, bursts: seq<seq<byte>>)
    requires 0 < |burst| <= BUFSIZ && Arriving(bursts)
    ensures Arriving([burst] + bursts) && Stream(Wire([], [burst] + bursts)) == burst + Flat(bursts)
    ensures Next(Wire([], [burst] + bursts)) == Wire(burst[1..], bursts)
  {
    var all := [burst] + bursts;
    assert all[0] == burst && all[1..] == bursts;
    assert [] + (burst + Flat(bursts)) == burst + Flat(bursts);
  }

  /** The rest of a burst that one read returned has been read ahead. */
  lemma LeftWithin(x: seq<byte>, y: seq<byte>, bursts: seq<seq<byte>>)
    requires Arriving(bursts) && x != [] && |x + y| <= BUFSIZ
    ensures Stream(Wire([], [x + y] + bursts)) == x + (y + Flat(bursts))
    ensures Left(Wire([], [x + y] + bursts), |y + Flat(bursts)|) == Wire(y, bursts)
  {
    hide Stream, Flat, Next, Arriving;
    NextOfBurst(x + y, bursts);
    assert x + (y + Flat(bursts)) == (x + y) + Flat(bursts);
    assert (x + y)[1..] == x[1..] + y;
    LeftAhead(x[1..], y, bursts);
  }

  // ---------- one byte at a time, past the buffer ----------

  /** The bursts once bytes have been read one at a time until `n` are left. */
  function RawLeft(bursts: seq<seq<byte>>, n: nat): (r: seq<seq<byte>>)
    requires Arriving(bursts) && n <= |Flat(bursts)|
    ensures Arriving(r) && Flat(r) == Flat(bursts)[|Flat(bursts)| - n..]
    decreases |Flat(bursts)|
  {
    ReadSplits(bursts, 1);
    if |Flat(bursts)| == n then bursts else RawLeft(Later(bursts, 1), n)
  }

  lemma {:induction false} RawLeftAgain(bursts: seq<seq<byte>>, m: nat, n: nat)
    requires Arriving(bursts) && n <= m <= |Flat(bursts)|
    ensures RawLeft(RawLeft(bursts, m), n) == RawLeft(bursts, n)
    decreases |Flat(bursts)|
  {
    hide Arriving, Flat, Later;
    ReadSplits(bursts, 1);
    if m < |Flat(bursts)| {
      RawLeftAgain(Later(bursts, 1), m, n);
    }
  }

  /** Reading the first part of a burst leaves the second. */
  lemma {:induction false} RawLeftWithin(x: seq<byte>, y: seq<byte>, bursts: seq<seq<byte>>)
    requires Arriving(bursts) && y != []
    ensures Flat([x + y] + bursts) == x + y + Flat(bursts)
    ensures RawLeft([x + y] + bursts, |y + Flat(bursts)|) == [y] + bursts
    decreases |x|
  {
    var all := [x + y] + bursts;
    assert all[1..] == bursts && ([y] + bursts)[1..] == bursts;
    if x == [] {
      assert x + y == y;
    } else {
      assert (x + y)[1..] == x[1..] + y;
      assert Later(all, 1) == [x[1..] + y] + bursts;
      RawLeftWithin(x[1..], y, bursts);
    }
  }
}
