/** A putpkt sender and a getpkt receiver joined by two byte channels, one step at a time:
    frame bodies may be damaged on the way, acknowledgments may not. */
module StopAndWait {
  import opened Memory
  import opened Text
  import opened Framing

  // ---------- getpkt, one byte at a time ----------

  datatype Rx =
    | Scanning
    | InBody(acc: seq<byte>)
    | Digit1(body: seq<byte>)
    | Digit2(body: seq<byte>, c1: nat)

  /** What a byte makes getpkt do: nothing visible, write '-', write '+' and return, or leave
      through `error`. */
  datatype Effect = Quiet | Nak | Accept(body: seq<byte>) | Abort

  function Feed(rx: Rx, b: byte): (Rx, Effect) {
    match rx
    case Scanning => (if Mask(b) == DOLLAR then InBody([]) else Scanning, Quiet)
    case InBody(acc) => (if Mask(b) == HASH then Digit1(acc) else InBody(acc + [Mask(b)]), Quiet)
    case Digit1(body) =>
      var c := FromHex(Mask(b));
      if c.None? then (Scanning, Abort) else (Digit2(body, c.value), Quiet)
    case Digit2(body, c1) =>
      var c := FromHex(Mask(b));
      (Scanning,
       if c.None? then Abort else if Checksum(body) == c1 * 16 + c.value then Accept(body) else Nak)
  }

  /** Feed a stream until getpkt returns. */
  function Drive(rx: Rx, stream: seq<byte>): Receipt
    decreases |stream|
  {
    if stream == [] then Receipt(if rx.Digit1? || rx.Digit2? then BadDigit([]) else Eof, [])
    else
      var (next, effect) := Feed(rx, stream[0]);
      match effect
      case Quiet => Drive(next, stream[1..])
      case Nak => var r := Drive(next, stream[1..]); Receipt(r.got, [MINUS] + r.out)
      case Accept(body) => Receipt(Packet(body, stream[1..]), [PLUS])
      case Abort => Receipt(BadDigit(stream[1..]), [])
  }

  /** What is left of getpkt in each state. */
  function Remaining(rx: Rx, stream: seq<byte>): Receipt {
    match rx
    case Scanning => GetPkt(stream, false)
    case InBody(acc) =>
      var r := BodyAndRest(stream);
      if r.None? then Receipt(Eof, []) else CheckPkt(acc + r.value.0, r.value.1, false)
    case Digit1(body) => CheckPkt(body, stream, false)
    case Digit2(body, c1) =>
      var (c2, rest) := DigitAndRest(stream);
      if c2.None? then Receipt(BadDigit(rest), [])
      else if Checksum(body) == c1 * 16 + c2.value then Receipt(Packet(body, rest), [PLUS])
      else Retried(rest, false)
  }

  lemma BodyStep(acc: seq<byte>, stream: seq<byte>)
    requires stream != [] && Mask(stream[0]) != HASH
    ensures Remaining(InBody(acc), stream) == Remaining(InBody(acc + [Mask(stream[0])]), stream[1..])
  {
    var r := BodyAndRest(stream[1..]);
    if r.Some? {
      assert acc + ([Mask(stream[0])] + r.value.0) == acc + [Mask(stream[0])] + r.value.0;
    }
  }

  /** Byte by byte or all at once, getpkt is the same. */
  lemma {:induction false} DriveIsGetPkt(rx: Rx, stream: seq<byte>)
    ensures Drive(rx, stream) == Remaining(rx, stream)
    decreases |stream|
  {
    if stream != [] {
      var next := Feed(rx, stream[0]).0;
      DriveIsGetPkt(next, stream[1..]);
      if next == InBody([]) && rx.Scanning? {
        var r := BodyAndRest(stream[1..]);
        if r.Some? {
          assert [] + r.value.0 == r.value.0;
        }
      }
      if rx.InBody? {
        if Mask(stream[0]) == HASH {
          assert rx.acc + [] == rx.acc;
        } else {
          BodyStep(rx.acc, stream);
        }
      }
    }
  }

  // ---------- the two ends and the channels ----------

  /** `sent` payloads are acknowledged; while `waiting`, putpkt has written a frame whose body
      left the sender's end as `body` and looks for the acknowledgment. */
  datatype Link = Link(todo: seq<seq<byte>>, sent: nat, waiting: bool, body: seq<byte>,
                       wire: seq<byte>, rx: Rx, acks: seq<byte>, delivered: seq<seq<byte>>)

  ghost predicate Init(s: Link) {
    && s.sent == 0 && !s.waiting && s.wire == [] && s.rx == Scanning && s.acks == [] && s.delivered == []
    && forall i :: 0 <= i < |s.todo| ==> Plain(s.todo[i])
  }

  /** putpkt writes its frame; the body arrives intact or damaged, in whatever way changes its
      checksum (any change of one byte does, by CorruptionDetected). */
  ghost predicate Write(s: Link, t: Link) {
    && !s.waiting && s.sent < |s.todo|
    && Plain(t.body) && (t.body == s.todo[s.sent] || Damaged(s.todo[s.sent], t.body))
    && t == s.(waiting := true, body := t.body, wire := s.wire + FrameAs(s.todo[s.sent], t.body))
  }

  /** getpkt reads one byte. */
  ghost predicate Receive(s: Link, t: Link) {
    && s.wire != []
    && var (rx, effect) := Feed(s.rx, s.wire[0]);
       t == s.(wire := s.wire[1..], rx := rx,
               acks := s.acks + (if effect.Nak? then [MINUS] else if effect.Accept? then [PLUS] else []),
               delivered := s.delivered + if effect.Accept? then [effect.body] else [])
  }

  /** putpkt reads one byte. */
  ghost predicate Ack(s: Link, t: Link) {
    && s.waiting && s.acks != []
    && t == s.(waiting := false, acks := s.acks[1..], sent := if s.acks[0] == PLUS then s.sent + 1 else s.sent)
  }

  ghost predicate Next(s: Link, t: Link) {
    Write(s, t) || Receive(s, t) || Ack(s, t)
  }

  /** The receiver after `k` bytes of a frame. */
  function RxAt(payload: seq<byte>, body: seq<byte>, k: nat): Rx
    requires k < |body| + 4
  {
    if k == 0 then Scanning
    else if k <= |body| + 1 then InBody(body[..k - 1])
    else if k == |body| + 2 then Digit1(body)
    else Digit2(body, Checksum(payload) / 16)
  }

  ghost predicate InTransit(s: Link)
    requires s.sent < |s.todo|
  {
    var frame := FrameAs(s.todo[s.sent], s.body);
    && 0 < |s.wire| <= |frame| && s.wire == frame[|frame| - |s.wire|..]
    && s.rx == RxAt(s.todo[s.sent], s.body, |frame| - |s.wire|)
    && s.acks == [] && |s.delivered| == s.sent
  }

  ghost predicate Answered(s: Link, ack: byte) {
    s.wire == [] && s.rx == Scanning && s.acks == [ack]
  }

  ghost predicate Inv(s: Link) {
    && (forall i :: 0 <= i < |s.todo| ==> Plain(s.todo[i]))
    && s.sent <= |s.todo|
    && |s.delivered| <= |s.todo| && s.delivered == s.todo[..|s.delivered|]
    && (!s.waiting ==> s.wire == [] && s.rx == Scanning && s.acks == [] && |s.delivered| == s.sent)
    && (s.waiting ==>
          && s.sent < |s.todo| && Plain(s.body)
          && (s.body == s.todo[s.sent] || Damaged(s.todo[s.sent], s.body))
          && (|| InTransit(s)
              || (Answered(s, PLUS) && |s.delivered| == s.sent + 1)
              || (Answered(s, MINUS) && |s.delivered| == s.sent)))
  }

  /** Each byte of a frame moves the receiver on; only the last one has an effect. */
  lemma FeedFrame(payload: seq<byte>, body: seq<byte>, k: nat)
    requires Plain(body) && k < |body| + 4
    ensures var frame := FrameAs(payload, body);
            && |frame| == |body| + 4
            && Feed(RxAt(payload, body, k), frame[k]) ==
               if k + 1 < |frame| then (RxAt(payload, body, k + 1), Quiet)
               else (Scanning, if Checksum(body) == Checksum(payload) then Accept(body) else Nak)
  {
    var frame := FrameAs(payload, body);
    var c := Checksum(payload);
    hide Checksum, ToHex, FromHex;
    DigitReads(c / 16);
    DigitReads(c % 16);
    if 0 < k <= |body| {
      assert frame[k] == body[k - 1];
      assert body[..k - 1] + [body[k - 1]] == body[..k];
    } else if k == |body| + 1 {
      assert frame[k] == HASH && body[..k - 1] == body;
    } else if k == |body| + 2 {
      assert frame[k] == ToHex(c / 16);
    } else if k == |body| + 3 {
      assert frame[k] == ToHex(c % 16);
    }
  }

  lemma Tail(frame: seq<byte>, wire: seq<byte>, k: nat)
    requires k < |frame| && wire == frame[k..]
    ensures wire[0] == frame[k] && wire[1..] == frame[k + 1..]
  {}

  lemma MoreToCome(s: Link, t: Link)
    requires Inv(s) && Receive(s, t) && |s.wire| > 1
    ensures InTransit(t) && t == s.(wire := t.wire, rx := t.rx)
  {
    var frame := FrameAs(s.todo[s.sent], s.body);
    var k := |frame| - |s.wire|;
    hide FrameAs, Feed, RxAt, Checksum, Plain, Damaged;
    Tail(frame, s.wire, k);
    FeedFrame(s.todo[s.sent], s.body, k);
    assert t.acks == s.acks && t.delivered == s.delivered;
  }

  lemma FrameEnds(s: Link, t: Link)
    requires Inv(s) && Receive(s, t) && |s.wire| == 1
    ensures var p := s.todo[s.sent];
            && t == s.(wire := [], rx := Scanning, acks := t.acks, delivered := t.delivered)
            && if s.body == p then t.acks == [PLUS] && t.delivered == s.todo[..s.sent + 1]
               else t.acks == [MINUS] && t.delivered == s.delivered
  {
    var p := s.todo[s.sent];
    var frame := FrameAs(p, s.body);
    hide FrameAs, Feed, RxAt;
    Tail(frame, s.wire, |frame| - 1);
    FeedFrame(p, s.body, |frame| - 1);
    if s.body == p {
      assert s.todo[..s.sent + 1] == s.todo[..s.sent] + [p];
    }
  }

  lemma ReceiveKeepsInv(s: Link, t: Link)
    requires Inv(s) && Receive(s, t)
    ensures Inv(t)
  {
    hide FrameAs, Feed, RxAt, Checksum, Plain, Damaged;
    if |s.wire| > 1 {
      MoreToCome(s, t);
    } else {
      FrameEnds(s, t);
    }
  }

  lemma NextKeepsInv(s: Link, t: Link)
    requires Inv(s) && Next(s, t)
    ensures Inv(t) && t.todo == s.todo
  {
    if Receive(s, t) {
      ReceiveKeepsInv(s, t);
    } else if Write(s, t) {
      var frame := FrameAs(s.todo[s.sent], t.body);
      assert t.wire == frame && frame[0..] == frame;
    }
  }

  ghost predicate IsRun(run: seq<Link>) {
    && |run| > 0 && Init(run[0])
    && forall i :: 0 <= i < |run| - 1 ==> Next(run[i], run[i + 1])
  }

  lemma {:induction false} RunKeepsInv(run: seq<Link>, n: nat)
    requires IsRun(run) && n < |run|
    ensures Inv(run[n]) && run[n].todo == run[0].todo
  {
    if n > 0 {
      RunKeepsInv(run, n - 1);
      assert Next(run[n - 1], run[n - 1 + 1]);
      NextKeepsInv(run[n - 1], run[n]);
    }
  }

  /** In every run, at every moment, what has been delivered is the payloads in order, each
      exactly once, and what putpkt counts as sent is exactly what was delivered, but for one
      payload whose '+' is still on the way. */
  lemma ExactlyOnceInOrder(run: seq<Link>, n: nat)
    requires IsRun(run) && n < |run|
    ensures var s := run[n];
            && s.delivered <= run[0].todo
            && (|s.delivered| == s.sent || (|s.delivered| == s.sent + 1 && s.waiting && s.acks == [PLUS]))
  {
    RunKeepsInv(run, n);
  }

  // ---------- the sender is putpkt ----------

  /** The bytes that the sender has read by the `n`-th step. */
  function AcksRead(run: seq<Link>, n: nat): seq<byte>
    requires n < |run|
  {
    if n == 0 then []
    else
      AcksRead(run, n - 1)
      + if run[n - 1].waiting && !run[n].waiting && run[n - 1].acks != [] then [run[n - 1].acks[0]] else []
  }

  /** How often it has written a frame. */
  function FramesWritten(run: seq<Link>, n: nat): nat
    requires n < |run|
  {
    if n == 0 then 0 else FramesWritten(run, n - 1) + if !run[n - 1].waiting && run[n].waiting then 1 else 0
  }

  /** putpkt called again whenever it returns: the writes so far, and the calls that have
      returned, when it has read these bytes and waits for more. */
  function PutPkts(acks: seq<byte>): (nat, nat)
    decreases |acks|
  {
    var d := AwaitAck(acks);
    if d.ok && |d.rest| < |acks| then (d.writes + PutPkts(d.rest).0, 1 + PutPkts(d.rest).1) else (d.writes, 0)
  }

  lemma {:induction false} PutPktsCounts(acks: seq<byte>)
    ensures PutPkts(acks) == (|acks| + 1, multiset(acks)[PLUS])
    decreases |acks|
  {
    if acks == [] {
    } else {
      var rest := acks[1..];
      assert acks == [acks[0]] + rest;
      PutPktsCounts(rest);
      if acks[0] != PLUS && PLUS in rest {
        AckedLater(rest);
      } else if acks[0] != PLUS {
        NeverAcked(rest);
      }
    }
  }

  lemma {:induction false} AckedLater(acks: seq<byte>)
    requires PLUS in acks
    ensures AwaitAck(acks).ok && |AwaitAck(acks).rest| < |acks|
  {
    if acks[0] != PLUS {
      AckedLater(acks[1..]);
    }
  }

  lemma {:induction false} NeverAcked(acks: seq<byte>)
    requires PLUS !in acks
    ensures !AwaitAck(acks).ok && AwaitAck(acks).writes == |acks| + 1
  {
    if acks != [] {
      NeverAcked(acks[1..]);
    }
  }

  lemma {:induction false} SenderCounts(run: seq<Link>, n: nat)
    requires IsRun(run) && n < |run|
    ensures FramesWritten(run, n) == |AcksRead(run, n)| + if run[n].waiting then 1 else 0
    ensures run[n].sent == multiset(AcksRead(run, n))[PLUS]
  {
    if n > 0 {
      SenderCounts(run, n - 1);
      assert Next(run[n - 1], run[n - 1 + 1]);
    }
  }

  /** In every run the sender has written, and counted as sent, what putpkt does on the bytes
      that it has read. */
  lemma SenderIsPutPkt(run: seq<Link>, n: nat)
    requires IsRun(run) && n < |run| && run[n].waiting
    ensures PutPkts(AcksRead(run, n)) == (FramesWritten(run, n), run[n].sent)
  {
    hide PutPkts, AcksRead, FramesWritten;
    SenderCounts(run, n);
    PutPktsCounts(AcksRead(run, n));
  }

  // ---------- progress ----------

  ghost predicate Done(s: Link) {
    !s.waiting && s.sent == |s.todo|
  }

  /** No run gets stuck before everything has been sent. */
  lemma NoDeadlock(s: Link)
    requires Inv(s) && !Done(s)
    ensures exists t :: Next(s, t)
  {
    if !s.waiting {
      var p := s.todo[s.sent];
      var t := s.(waiting := true, body := p, wire := s.wire + FrameAs(p, p));
      assert Next(s, t);
    } else if s.wire != [] {
      var (rx, effect) := Feed(s.rx, s.wire[0]);
      var t := s.(wire := s.wire[1..], rx := rx,
                  acks := s.acks + (if effect.Nak? then [MINUS] else if effect.Accept? then [PLUS] else []),
                  delivered := s.delivered + if effect.Accept? then [effect.body] else []);
      assert Next(s, t);
    } else {
      var t := s.(waiting := false, acks := s.acks[1..], sent := if s.acks[0] == PLUS then s.sent + 1 else s.sent);
      assert Next(s, t);
    }
  }

  /** How far the current payload is from being acknowledged. */
  ghost function Phase(s: Link): nat {
    if !s.waiting then 2
    else if s.acks != [] then (if s.acks[0] == PLUS then 0 else 3)
    else if s.sent < |s.todo| && s.body == s.todo[s.sent] then 1
    else 4
  }

  /** Once frames stop being damaged every step brings the end nearer, in the lexicographic
      order of payloads left, phase, and bytes on the wire: all payloads get through. */
  lemma IntactStepsEnd(s: Link, t: Link)
    requires Inv(s) && Next(s, t)
    requires Write(s, t) ==> t.body == s.todo[s.sent]
    ensures || |t.todo| - t.sent < |s.todo| - s.sent
            || (t.sent == s.sent && t.todo == s.todo
                && (Phase(t) < Phase(s) || (Phase(t) == Phase(s) && |t.wire| < |s.wire|)))
  {
    NextKeepsInv(s, t);
    if Receive(s, t) {
      var p := s.todo[s.sent];
      var k := |FrameAs(p, s.body)| - |s.wire|;
      FeedFrame(p, s.body, k);
    }
  }
}
