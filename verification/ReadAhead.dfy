/** packet_loop on a connection, where putpkt looks for its acknowledgment past the bytes that
    readchar has read ahead; and when that makes a difference. */
module ReadAhead {
  import opened Memory
  import opened Text
  import opened Framing
  import opened Bursts
  import opened Connection
  import opened Session

  /** Everything that packet_loop writes on a connection. */
  function WireLoop<S>(h: Handler<S>, s: S, noAck: bool, w: Wire): seq<byte>
    requires Arriving(w.bursts)
    decreases |Stream(w)|, 0
  {
    var r := GetPkt(Stream(w), noAck);
    match r.got
    case Eof => r.out
    case BadDigit(rest) => r.out + WireLoop(h, s, noAck, Left(w, |rest|))
    case Packet(packet, rest) =>
      if packet == [] then r.out else r.out + WireAnswer(h, s, noAck, packet, Left(w, |rest|))
  }

  function WireAnswer<S>(h: Handler<S>, s: S, noAck: bool, packet: seq<byte>, w: Wire): seq<byte>
    requires Arriving(w.bursts)
    decreases |Stream(w)|, 1
  {
    var (t, mode, reaction) := Handle(h, s, noAck, packet);
    var d := PutPkt(Flat(w.bursts), mode);
    match reaction
    case Silence => WireLoop(h, t, mode, w)
    case Say(text) => Repeat(Frame(text), d.writes) + WireLoop(h, t, mode, AfterPut(w, d))
    case Farewell(text) => Repeat(Frame(text), d.writes)
    case Quit => []
  }

  // ---------- one acknowledgment ----------

  /** One '+', at the end. */
  predicate IsAck(p: seq<byte>) {
    p != [] && p[|p| - 1] == PLUS && forall i :: 0 <= i < |p| - 1 ==> p[i] != PLUS
  }

  /** The bytes that putpkt reads for an acknowledgment: up to the first '+', or all. */
  function Ack(stream: seq<byte>): (p: seq<byte>)
    ensures |p| <= |stream| && p == stream[..|p|]
    ensures PLUS in stream ==> IsAck(p)
    ensures PLUS !in stream ==> p == stream
  {
    if stream == [] then []
    else if stream[0] == PLUS then [PLUS]
    else [stream[0]] + Ack(stream[1..])
  }

  lemma AckIs(stream: seq<byte>, p: seq<byte>)
    requires IsAck(p) && |p| <= |stream| && stream[..|p|] == p
    ensures PLUS in stream && Ack(stream) == p
  {
    hide Ack;
    assert stream[|p| - 1] == p[|p| - 1];
    var q := Ack(stream);
    assert forall i :: 0 <= i < |p| ==> p[i] == stream[i];
    assert forall i :: 0 <= i < |q| ==> q[i] == stream[i];
    assert |q| <= |p|;
    assert |p| <= |q|;
  }

  lemma {:induction false} NoAck(stream: seq<byte>)
    requires PLUS !in stream
    ensures AwaitAck(stream).writes == |stream| + 1 && AwaitAck(stream).rest == []
  {
    if stream != [] {
      NoAck(stream[1..]);
    }
  }

  lemma AwaitAckReads(stream: seq<byte>)
    ensures var d := AwaitAck(stream);
            && d.rest == stream[|Ack(stream)|..]
            && d.writes == if PLUS in stream then |Ack(stream)| else |stream| + 1
  {
    hide Ack, AwaitAck;
    var p := Ack(stream);
    if PLUS in stream {
      var noise, rest := p[..|p| - 1], stream[|p|..];
      assert p == noise + [PLUS];
      assert stream == noise + [PLUS] + rest;
      AwaitAckCounts(noise, rest);
    } else {
      NoAck(stream);
    }
  }

  /** `s` is `p` any number of times. */
  predicate Copies(s: seq<byte>, p: seq<byte>) {
    s == [] || (0 < |p| <= |s| && s[..|p|] == p && Copies(s[|p|..], p))
  }

  /** Nothing has been read ahead; or what has been is a number of copies of the very
      acknowledgment that is still to be read. */
  predicate InLine(ahead: seq<byte>, raw: seq<byte>) {
    ahead == [] || (PLUS in raw && Copies(ahead, Ack(raw)))
  }

  lemma {:induction false} CopiesCommute(s: seq<byte>, p: seq<byte>)
    requires Copies(s, p)
    ensures s + p == p + s
    decreases |s|
  {
    if s == [] {
      assert s + p == p + s;
    } else {
      var t := s[|p|..];
      CopiesCommute(t, p);
      assert s == p + t;
      Concat3(p, t, p);
      Concat3(p, p, t);
    }
  }

  lemma Overlap(q: seq<byte>, s: seq<byte>, p: seq<byte>)
    requires |q| == |p| && q + s == s + p
    ensures |s| < |p| ==> p[|p| - 1 - |s|] == q[|p| - 1]
  {
    assert |s| < |p| ==> (q + s)[|p| - 1] == q[|p| - 1] && (s + p)[|p| - 1] == p[|p| - 1 - |s|];
  }

  lemma {:induction false} CommuteIsCopies(q: seq<byte>, s: seq<byte>, p: seq<byte>)
    requires IsAck(p) && IsAck(q) && |q| == |p| && q + s == s + p
    ensures q == p && Copies(s, p)
    decreases |s|
  {
    Overlap(q, s, p);
    var n, both := |p|, q + s;
    assert both == s + p;
    if s == [] {
      assert both == q;
    } else {
      assert |s| >= n;
      var t := s[n..];
      assert s[..n] == both[..n] == q;
      assert both[n..] == s == q + t;
      assert (s + p)[n..] == t + p;
      CommuteIsCopies(q, t, p);
    }
  }

  /** putpkt finds the acknowledgment that it would find on the plain stream, and leaves the
      same bytes, exactly when the bytes read ahead are in line with those to come. */
  lemma AckInLineIff(ahead: seq<byte>, raw: seq<byte>)
    ensures var d, plain := AwaitAck(raw), AwaitAck(ahead + raw);
            (d.writes == plain.writes && ahead + d.rest == plain.rest) <==> InLine(ahead, raw)
  {
    hide Ack, AwaitAck, Copies;
    AwaitAckReads(raw);
    AwaitAckReads(ahead + raw);
    var d, plain := AwaitAck(raw), AwaitAck(ahead + raw);
    if ahead == [] {
      assert ahead + raw == raw && ahead + d.rest == d.rest;
    } else if InLine(ahead, raw) {
      CopiesInLine(ahead, raw);
    } else if d.writes == plain.writes && ahead + d.rest == plain.rest {
      assert |ahead| + |d.rest| == |plain.rest|;
      InLineIsCopies(ahead, raw);
    }
  }

  lemma CopiesInLine(ahead: seq<byte>, raw: seq<byte>)
    requires ahead != [] && PLUS in raw && Copies(ahead, Ack(raw))
    ensures PLUS in ahead + raw && Ack(ahead + raw) == Ack(raw)
    ensures ahead + raw[|Ack(raw)|..] == (ahead + raw)[|Ack(raw)|..]
  {
    hide Ack;
    var p := Ack(raw);
    var rest := raw[|p|..];
    assert raw == p + rest;
    CopiesCommute(ahead, p);
    Concat3(ahead, p, rest);
    Concat3(p, ahead, rest);
    AckIs(ahead + raw, p);
  }

  lemma TwoCuts(q: seq<byte>, ahead: seq<byte>, p: seq<byte>, rest: seq<byte>, all: seq<byte>)
    requires |p| == |q| && all == ahead + (p + rest) && all == q + (ahead + rest)
    ensures q + ahead == ahead + p
  {
    assert all[..|ahead| + |p|] == q + ahead;
    assert all[..|ahead| + |p|] == ahead + p;
  }

  lemma InLineIsCopies(ahead: seq<byte>, raw: seq<byte>)
    requires ahead != [] && PLUS in raw && PLUS in ahead + raw && |Ack(ahead + raw)| == |Ack(raw)|
    requires ahead + raw[|Ack(raw)|..] == (ahead + raw)[|Ack(raw)|..]
    ensures Copies(ahead, Ack(raw))
  {
    hide Ack, Copies;
    var p, q, all := Ack(raw), Ack(ahead + raw), ahead + raw;
    TwoCuts(q, ahead, p, raw[|p|..], all);
    CommuteIsCopies(q, ahead, p);
  }

  // ---------- whole sessions ----------

  /** Wherever putpkt waits for an acknowledgment, what has been read ahead is in line. */
  predicate InStep<S>(h: Handler<S>, s: S, noAck: bool, w: Wire)
    requires Arriving(w.bursts)
    decreases |Stream(w)|
  {
    var got := GetPkt(Stream(w), noAck).got;
    match got
    case Eof => true
    case BadDigit(rest) => InStep(h, s, noAck, Left(w, |rest|))
    case Packet(packet, rest) =>
      packet != [] ==>
        var (t, mode, reaction) := Handle(h, s, noAck, packet);
        var v := Left(w, |rest|);
        && (Speaks(reaction) && !mode ==> InLine(v.ahead, Flat(v.bursts)))
        && (Stays(reaction) ==> InStep(h, t, mode, Answered(v, mode, reaction)))
  }

  /** The connection once the reaction has been sent. */
  function Answered(w: Wire, mode: bool, reaction: Reaction): (r: Wire)
    requires Arriving(w.bursts)
    ensures Arriving(r.bursts) && |Stream(r)| <= |Stream(w)|
  {
    if Speaks(reaction) then AfterPut(w, PutPkt(Flat(w.bursts), mode)) else w
  }

  /** On the plain stream. */
  function PlainAnswered(stream: seq<byte>, mode: bool, reaction: Reaction): (r: seq<byte>)
    ensures |r| <= |stream|
  {
    if Speaks(reaction) then PutPkt(stream, mode).rest else stream
  }

  /** What is written for a reaction. */
  function Written(w: Wire, mode: bool, reaction: Reaction): seq<byte> {
    if Speaks(reaction) then Repeat(Frame(reaction.text), PutPkt(Flat(w.bursts), mode).writes) else []
  }

  /** The number of times that the reaction is written. */
  function Writes(stream: seq<byte>, mode: bool, reaction: Reaction): nat {
    if Speaks(reaction) then PutPkt(stream, mode).writes else 0
  }

  lemma AnswerInLineIff(w: Wire, mode: bool, reaction: Reaction)
    requires Arriving(w.bursts)
    ensures (Speaks(reaction) && !mode ==> InLine(w.ahead, Flat(w.bursts))) <==>
            && Writes(Flat(w.bursts), mode, reaction) == Writes(Stream(w), mode, reaction)
            && Stream(Answered(w, mode, reaction)) == PlainAnswered(Stream(w), mode, reaction)
  {
    if Speaks(reaction) {
      var raw := Flat(w.bursts);
      var d := PutPkt(raw, mode);
      if mode {
        assert Stream(AfterPut(w, d)) == Stream(w);
      } else {
        AckInLineIff(w.ahead, raw);
        AwaitAckReads(raw);
        assert Flat(RawLeft(w.bursts, |d.rest|)) == d.rest;
      }
    }
  }

  // ---------- what getpkt leaves ----------

  predicate EndOf(r: seq<byte>, s: seq<byte>) {
    |r| <= |s| && r == s[|s| - |r|..]
  }

  lemma EndOfEnd(q: seq<byte>, r: seq<byte>, s: seq<byte>)
    requires EndOf(q, r) && EndOf(r, s)
    ensures EndOf(q, s)
  {}

  lemma {:induction false} AfterDollarEnds(s: seq<byte>)
    ensures var r := AfterDollar(s); r.Some? ==> EndOf(r.value, s)
  {
    if s != [] && Mask(s[0]) != DOLLAR {
      AfterDollarEnds(s[1..]);
    }
  }

  lemma {:induction false} BodyEnds(s: seq<byte>)
    ensures var r := BodyAndRest(s); r.Some? ==> EndOf(r.value.1, s)
  {
    if s != [] && Mask(s[0]) != HASH {
      BodyEnds(s[1..]);
    }
  }

  /** getpkt leaves the end of the stream. */
  lemma {:induction false} GetPktEnds(s: seq<byte>, noAck: bool)
    ensures var got := GetPkt(s, noAck).got; !got.Eof? ==> EndOf(got.rest, s)
    decreases |s|
  {
    hide AfterDollar, BodyAndRest;
    var start := AfterDollar(s);
    AfterDollarEnds(s);
    if start.Some? && BodyAndRest(start.value).Some? {
      BodyEnds(start.value);
      var (body, digits) := BodyAndRest(start.value).value;
      var (c, rest) := TwoDigits(digits);
      assert EndOf(rest, digits);
      EndOfEnd(digits, start.value, s);
      EndOfEnd(rest, digits, s);
      if c.Some? && Checksum(body) != c.value {
        GetPktEnds(rest, noAck);
        var got := GetPkt(rest, noAck).got;
        assert CheckPkt(body, digits, noAck) == Retried(rest, noAck);
        if !got.Eof? {
          EndOfEnd(got.rest, rest, s);
        }
      }
    }
  }

  lemma RestOf(w: Wire, noAck: bool)
    requires Arriving(w.bursts)
    ensures var got := GetPkt(Stream(w), noAck).got;
            !got.Eof? ==> |got.rest| <= |Stream(w)| && Stream(Left(w, |got.rest|)) == got.rest
  {
    GetPktEnds(Stream(w), noAck);
  }

  /** When that is so, the loop writes what it would write on the plain stream. */
  lemma {:induction false} InStepIsLoop<S>(h: Handler<S>, s: S, noAck: bool, w: Wire)
    requires Arriving(w.bursts) && InStep(h, s, noAck, w)
    ensures WireLoop(h, s, noAck, w) == Loop(h, s, noAck, Stream(w))
    decreases |Stream(w)|
  {
    hide GetPkt, AwaitAck, Left, InLine, Handle, Repeat, Frame, Stream;
    var got := GetPkt(Stream(w), noAck).got;
    if got.BadDigit? {
      RestOf(w, noAck);
      InStepIsLoop(h, s, noAck, Left(w, |got.rest|));
    } else if got.Packet? && got.body != [] {
      RestOf(w, noAck);
      var (t, mode, reaction) := Handle(h, s, noAck, got.body);
      var v := Left(w, |got.rest|);
      AnswerInLineIff(v, mode, reaction);
      if Stays(reaction) {
        InStepIsLoop(h, t, mode, Answered(v, mode, reaction));
      }
    }
  }

  // ---------- the exact condition ----------

  /** What became of one packet: how often its reply was written, and what was left to read. */
  datatype Visit = Visit(packet: seq<byte>, writes: nat, left: seq<byte>)

  /** The packets that packet_loop handles on a plain stream. */
  function Visits<S>(h: Handler<S>, s: S, noAck: bool, stream: seq<byte>): seq<Visit>
    decreases |stream|
  {
    var got := GetPkt(stream, noAck).got;
    match got
    case Eof => []
    case BadDigit(rest) => Visits(h, s, noAck, rest)
    case Packet(packet, rest) =>
      if packet == [] then []
      else
        var (t, mode, reaction) := Handle(h, s, noAck, packet);
        var left := PlainAnswered(rest, mode, reaction);
        [Visit(packet, Writes(rest, mode, reaction), left)]
        + if Stays(reaction) then Visits(h, t, mode, left) else []
  }

  /** The packets that it handles on a connection. */
  function WireVisits<S>(h: Handler<S>, s: S, noAck: bool, w: Wire): seq<Visit>
    requires Arriving(w.bursts)
    decreases |Stream(w)|
  {
    var got := GetPkt(Stream(w), noAck).got;
    match got
    case Eof => []
    case BadDigit(rest) => WireVisits(h, s, noAck, Left(w, |rest|))
    case Packet(packet, rest) =>
      if packet == [] then []
      else
        var (t, mode, reaction) := Handle(h, s, noAck, packet);
        var v := Left(w, |rest|);
        var after := Answered(v, mode, reaction);
        [Visit(packet, Writes(Flat(v.bursts), mode, reaction), Stream(after))]
        + if Stays(reaction) then WireVisits(h, t, mode, after) else []
  }

  /** The connection makes no difference to which packets are handled, how often each reply is
      written and what is then left, exactly when what has been read ahead is in line at each
      acknowledgment. */
  lemma {:induction false} VisitsIff<S>(h: Handler<S>, s: S, noAck: bool, w: Wire)
    requires Arriving(w.bursts)
    ensures WireVisits(h, s, noAck, w) == Visits(h, s, noAck, Stream(w)) <==> InStep(h, s, noAck, w)
    decreases |Stream(w)|
  {
    hide GetPkt, AwaitAck, Left, InLine, Handle, Stream, Writes, PlainAnswered, Answered;
    var got := GetPkt(Stream(w), noAck).got;
    if got.BadDigit? {
      RestOf(w, noAck);
      VisitsIff(h, s, noAck, Left(w, |got.rest|));
    } else if got.Packet? && got.body != [] {
      RestOf(w, noAck);
      var (t, mode, reaction) := Handle(h, s, noAck, got.body);
      var v := Left(w, |got.rest|);
      AnswerInLineIff(v, mode, reaction);
      var after, left := Answered(v, mode, reaction), PlainAnswered(got.rest, mode, reaction);
      var first := Visit(got.body, Writes(Flat(v.bursts), mode, reaction), Stream(after));
      var plain := Visit(got.body, Writes(got.rest, mode, reaction), left);
      var later := if Stays(reaction) then WireVisits(h, t, mode, after) else [];
      var plainLater := if Stays(reaction) then Visits(h, t, mode, left) else [];
      assert WireVisits(h, s, noAck, w) == [first] + later;
      assert Visits(h, s, noAck, Stream(w)) == [plain] + plainLater;
      Headed(first, later, plain, plainLater);
      if Stays(reaction) && Stream(after) == left {
        VisitsIff(h, t, mode, after);
      }
    }
  }

  lemma Headed(x: Visit, xs: seq<Visit>, y: Visit, ys: seq<Visit>)
    ensures [x] + xs == [y] + ys <==> x == y && xs == ys
  {
    if [x] + xs == [y] + ys {
      assert ([x] + xs)[0] == ([y] + ys)[0] && ([x] + xs)[1..] == ([y] + ys)[1..];
    }
  }
}
