/** The packet layer of src/remote-utils.c on byte streams: what getpkt and putpkt do with a
    whole stream, and why a corrupted frame is always noticed. */
module Framing {
  import opened Arithmetic
  import opened Memory
  import opened Options
  import opened Text

  const DOLLAR: byte := 36
  const HASH: byte := 35
  const CTRL_C: byte := 3

  /** readchar keeps seven bits. */
  function Mask(b: byte): byte {
    b % 128
  }

  function Sum(s: seq<byte>): nat {
    if s == [] then 0 else Sum(s[..|s| - 1]) + s[|s| - 1]
  }

  /** The checksum is kept in an unsigned char. */
  function Checksum(body: seq<byte>): (c: byte)
  {
    Sum(body) % 256
  }

  lemma {:induction false} SumConcat(s: seq<byte>, t: seq<byte>)
    ensures Sum(s + t) == Sum(s) + Sum(t)
  {
    if t == [] {
      assert s + t == s;
    } else {
      var init := t[..|t| - 1];
      assert (s + t)[..|s + t| - 1] == s + init;
      SumConcat(s, init);
    }
  }

  lemma ModSum(x: nat, y: nat)
    ensures (x + y) % 256 == (x % 256 + y % 256) % 256
  {}

  /** The checksum counts from zero, each byte as itself, and adds up. */
  lemma ChecksumAddsUp(s: seq<byte>, t: seq<byte>, b: byte)
    ensures Checksum([]) == 0 && Checksum([b]) == b
    ensures Checksum(s + t) == (Checksum(s) + Checksum(t)) % 256
  {
    assert [b][..0] == [] && Sum([b]) == b;
    SumConcat(s, t);
    hide Sum;
    ModSum(Sum(s), Sum(t));
  }

  /** The two digits that follow '#'. */
  function Digits(c: byte): (r: seq<byte>)
    ensures |r| == 2
  {
    [ToHex(c / 16), ToHex(c % 16)]
  }

  /** A frame that carries `body` with the checksum of `payload`; an intact one has both equal. */
  function FrameAs(payload: seq<byte>, body: seq<byte>): seq<byte> {
    [DOLLAR] + body + [HASH] + Digits(Checksum(payload))
  }

  function Frame(payload: seq<byte>): seq<byte> {
    FrameAs(payload, payload)
  }

  // ---------- getpkt ----------

  datatype Got =
    | Eof                                        // returns -1
    | BadDigit(rest: seq<byte>)                  // fromhex calls error, control leaves getpkt
    | Packet(body: seq<byte>, rest: seq<byte>)   // returns the length of the body

  /** What getpkt gives back, and the bytes it writes on the way. */
  datatype Receipt = Receipt(got: Got, out: seq<byte>)

  /** The stream after the first '$'. */
  function AfterDollar(stream: seq<byte>): (r: Option<seq<byte>>)
    ensures r.Some? ==> |r.value| < |stream|
  {
    if stream == [] then None
    else if Mask(stream[0]) == DOLLAR then Some(stream[1..])
    else AfterDollar(stream[1..])
  }

  /** Everything before the first '#', masked, and the stream after it. */
  function BodyAndRest(stream: seq<byte>): (r: Option<(seq<byte>, seq<byte>)>)
    ensures r.Some? ==> |r.value.1| < |stream|
  {
    if stream == [] then None
    else if Mask(stream[0]) == HASH then Some(([], stream[1..]))
    else
      var r := BodyAndRest(stream[1..]);
      if r.None? then None else Some(([Mask(stream[0])] + r.value.0, r.value.1))
  }

  /** One hexadecimal digit, or None, and the stream after the character that was read;
      at the end of the stream fromhex gets -1. */
  function DigitAndRest(stream: seq<byte>): (r: (Option<nat>, seq<byte>))
    ensures |r.1| <= |stream|
    ensures r.0.Some? ==> r.0.value < 16
  {
    if stream == [] then (None, []) else (FromHex(Mask(stream[0])), stream[1..])
  }

  /** The two checksum digits; the second is not read when the first is bad. */
  function TwoDigits(stream: seq<byte>): (r: (Option<nat>, seq<byte>))
    ensures |r.1| <= |stream|
    ensures r.0.Some? ==> r.0.value < 256
  {
    var (c1, rest1) := DigitAndRest(stream);
    if c1.None? then (None, rest1)
    else
      var (c2, rest) := DigitAndRest(rest1);
      (if c2.None? then None else Some(c1.value * 16 + c2.value), rest)
  }

  function GetPkt(stream: seq<byte>, noAck: bool): (r: Receipt)
    ensures r.got.Eof? || |r.got.rest| < |stream|
    decreases |stream|, 0
  {
    var start := AfterDollar(stream);
    if start.None? then Receipt(Eof, [])
    else
      var framed := BodyAndRest(start.value);
      if framed.None? then Receipt(Eof, []) else CheckPkt(framed.value.0, framed.value.1, noAck)
  }

  /** The checksum decides between '+', '-' and another try. */
  function CheckPkt(body: seq<byte>, stream: seq<byte>, noAck: bool): (r: Receipt)
    ensures r.got.Eof? || |r.got.rest| <= |stream|
    decreases |stream|, 2
  {
    var (c, rest) := TwoDigits(stream);
    if c.None? then Receipt(BadDigit(rest), [])
    else if Checksum(body) == c.value then Receipt(Packet(body, rest), if noAck then [] else [PLUS])
    else Retried(rest, noAck)
  }

  function Retried(stream: seq<byte>, noAck: bool): (r: Receipt)
    ensures r.got.Eof? || |r.got.rest| < |stream|
    decreases |stream|, 1
  {
    var again := GetPkt(stream, noAck);
    Receipt(again.got, [MINUS] + again.out)
  }

  // ---------- putpkt ----------

  /** How putpkt ended, how often it wrote the frame, how often it sent SIGINT, and the
      stream it left. */
  datatype Delivery = Delivery(ok: bool, writes: nat, interrupts: nat, rest: seq<byte>)

  /** Write, then read one byte; anything but '+' means to write again. */
  function AwaitAck(stream: seq<byte>): (d: Delivery)
    ensures |d.rest| <= |stream|
  {
    if stream == [] then Delivery(false, 1, 0, [])
    else if stream[0] == PLUS then Delivery(true, 1, 0, stream[1..])
    else
      var d := AwaitAck(stream[1..]);
      d.(writes := d.writes + 1, interrupts := d.interrupts + if stream[0] == CTRL_C then 1 else 0)
  }

  function PutPkt(stream: seq<byte>, noAck: bool): Delivery {
    if noAck then Delivery(true, 1, 0, stream) else AwaitAck(stream)
  }

  function Repeat(s: seq<byte>, n: nat): seq<byte> {
    if n == 0 then [] else s + Repeat(s, n - 1)
  }

  /** putpkt writes once, and once more for each byte before the '+'; each 0x03 among those
      bytes is one SIGINT, and nothing after the '+' is read. */
  lemma {:induction false} AwaitAckCounts(noise: seq<byte>, rest: seq<byte>)
    requires PLUS !in noise
    ensures AwaitAck(noise + [PLUS] + rest) == Delivery(true, |noise| + 1, multiset(noise)[CTRL_C], rest)
  {
    var stream := noise + [PLUS] + rest;
    if noise == [] {
      assert stream[1..] == rest;
    } else {
      assert stream[1..] == noise[1..] + [PLUS] + rest;
      assert noise == [noise[0]] + noise[1..];
      AwaitAckCounts(noise[1..], rest);
    }
  }

  // ---------- frames in a stream ----------

  /** Bytes that the scan for '$' skips. */
  predicate Junk(s: seq<byte>) {
    forall i :: 0 <= i < |s| ==> Mask(s[i]) != DOLLAR
  }

  /** Seven-bit bytes other than '#'. */
  predicate Plain(s: seq<byte>) {
    forall i :: 0 <= i < |s| ==> s[i] < 128 && s[i] != HASH
  }

  lemma {:induction false} SkipJunk(junk: seq<byte>, rest: seq<byte>)
    requires Junk(junk)
    ensures AfterDollar(junk + [DOLLAR] + rest) == Some(rest)
  {
    var stream := junk + [DOLLAR] + rest;
    if junk == [] {
      assert stream[1..] == rest;
    } else {
      assert stream[1..] == junk[1..] + [DOLLAR] + rest;
      SkipJunk(junk[1..], rest);
    }
  }

  lemma {:induction false} TakeBody(body: seq<byte>, rest: seq<byte>)
    requires Plain(body)
    ensures BodyAndRest(body + [HASH] + rest) == Some((body, rest))
  {
    var stream := body + [HASH] + rest;
    if body == [] {
      assert stream[1..] == rest;
    } else {
      assert stream[1..] == body[1..] + [HASH] + rest;
      TakeBody(body[1..], rest);
      assert body == [body[0]] + body[1..];
    }
  }

  /** What getpkt makes of junk followed by a frame with any two characters for its checksum. A
      character that is no digit ends getpkt without a '-', and if it is the first of the two,
      the second is still to be read. */
  lemma AnyFrameReceived(junk: seq<byte>, body: seq<byte>, c1: byte, c2: byte, rest: seq<byte>, noAck: bool)
    requires Junk(junk) && Plain(body)
    ensures var d1, d2 := FromHex(Mask(c1)), FromHex(Mask(c2));
            GetPkt(junk + [DOLLAR] + body + [HASH] + [c1, c2] + rest, noAck) ==
            if d1.None? then Receipt(BadDigit([c2] + rest), [])
            else if d2.None? then Receipt(BadDigit(rest), [])
            else if Checksum(body) == d1.value * 16 + d2.value then
              Receipt(Packet(body, rest), if noAck then [] else [PLUS])
            else Retried(rest, noAck)
  {
    hide Checksum, FromHex, Mask, AfterDollar, BodyAndRest;
    var digits := [c1, c2] + rest;
    var tail := body + [HASH] + digits;
    var stream := junk + [DOLLAR] + body + [HASH] + [c1, c2] + rest;
    assert GetPkt(stream, noAck) == CheckPkt(body, digits, noAck) by {
      hide CheckPkt;
      assert stream == junk + [DOLLAR] + tail;
      SkipJunk(junk, tail);
      TakeBody(body, digits);
    }
    hide GetPkt, Retried;
    assert digits[1..] == [c2] + rest && digits[1..][1..] == rest;
  }

  /** getpkt calls `error` on the first frame exactly when one of the two is no lower-case digit. */
  lemma BadDigitIff(junk: seq<byte>, body: seq<byte>, c1: byte, c2: byte, noAck: bool)
    requires Junk(junk) && Plain(body)
    ensures var got := GetPkt(junk + [DOLLAR] + body + [HASH] + [c1, c2], noAck).got;
            got.BadDigit? <==> !IsHex(Mask(c1)) || !IsHex(Mask(c2))
  {
    var stream := junk + [DOLLAR] + body + [HASH] + [c1, c2];
    assert stream + [] == stream;
    AnyFrameReceived(junk, body, c1, c2, [], noAck);
  }

  lemma Unframed(junk: seq<byte>, body: seq<byte>, digits: seq<byte>, rest: seq<byte>)
    ensures junk + ([DOLLAR] + body + [HASH] + digits) + rest == junk + [DOLLAR] + body + [HASH] + digits + rest
  {}

  lemma DigitReads(d: nat)
    requires d < 16
    ensures FromHex(Mask(ToHex(d))) == Some(d)
  {}

  /** In particular of an intact or a damaged frame. */
  lemma FrameReceived(junk: seq<byte>, payload: seq<byte>, body: seq<byte>, rest: seq<byte>, noAck: bool)
    requires Junk(junk) && Plain(body)
    ensures GetPkt(junk + FrameAs(payload, body) + rest, noAck) ==
            if Checksum(body) == Checksum(payload) then Receipt(Packet(body, rest), if noAck then [] else [PLUS])
            else Retried(rest, noAck)
  {
    hide Checksum, GetPkt, Retried, ToHex, FromHex, Mask;
    var c := Checksum(payload);
    DigitReads(c / 16);
    DigitReads(c % 16);
    Unframed(junk, body, Digits(c), rest);
    AnyFrameReceived(junk, body, ToHex(c / 16), ToHex(c % 16), rest, noAck);
  }

  // ---------- corruption is noticed ----------

  /** One byte of the body was changed. */
  ghost predicate Corrupted(payload: seq<byte>, body: seq<byte>) {
    && |body| == |payload|
    && exists i :: 0 <= i < |payload| && body == payload[i := body[i]] && body[i] != payload[i]
  }

  lemma {:induction false} SumUpdate(s: seq<byte>, i: nat, b: byte)
    requires i < |s|
    ensures Sum(s[i := b]) == Sum(s) - s[i] + b
  {
    var t := s[i := b];
    if i < |s| - 1 {
      SumUpdate(s[..|s| - 1], i, b);
      assert t[..|s| - 1] == s[..|s| - 1][i := b];
    } else {
      assert t[..|s| - 1] == s[..|s| - 1];
    }
  }

  /** The checksum tells. */
  predicate Damaged(payload: seq<byte>, body: seq<byte>) {
    Checksum(body) != Checksum(payload)
  }

  /** Two sums that differ by less than 256 have different remainders, so no change of a single
      byte goes unnoticed. */
  lemma CorruptionDetected(payload: seq<byte>, body: seq<byte>)
    requires Corrupted(payload, body)
    ensures Damaged(payload, body)
  {
    var i :| 0 <= i < |payload| && body == payload[i := body[i]] && body[i] != payload[i];
    SumUpdate(payload, i, body[i]);
    var x, y := Sum(body), Sum(payload);
    if x % 256 == y % 256 {
      assert x - y == 256 * (x / 256 - y / 256);
      MultipleIsFar(256, x / 256 - y / 256);
    }
  }

  /** Failed attempts: each is junk, then a frame whose body was damaged, for instance in one
      byte, as in CorruptionDetected. */
  datatype Attempt = Attempt(junk: seq<byte>, body: seq<byte>)

  predicate FailedAttempts(payload: seq<byte>, tries: seq<Attempt>) {
    forall i :: 0 <= i < |tries| ==>
                  Junk(tries[i].junk) && Plain(tries[i].body) && Damaged(payload, tries[i].body)
  }

  lemma SingleByteDamage(payload: seq<byte>, tries: seq<Attempt>)
    requires forall i :: 0 <= i < |tries| ==>
                           Junk(tries[i].junk) && Plain(tries[i].body) && Corrupted(payload, tries[i].body)
    ensures FailedAttempts(payload, tries)
  {
    forall i | 0 <= i < |tries| ensures Damaged(payload, tries[i].body) {
      CorruptionDetected(payload, tries[i].body);
    }
  }

  function Sent(payload: seq<byte>, tries: seq<Attempt>): seq<byte> {
    if tries == [] then []
    else tries[0].junk + FrameAs(payload, tries[0].body) + Sent(payload, tries[1..])
  }

  lemma RetriedAgain(stream: seq<byte>, noAck: bool, got: Got, n: nat, last: seq<byte>)
    requires GetPkt(stream, noAck) == Receipt(got, Repeat([MINUS], n) + last)
    ensures Retried(stream, noAck) == Receipt(got, Repeat([MINUS], n + 1) + last)
  {
    Concat3([MINUS], Repeat([MINUS], n), last);
  }

  /** After any number of corrupted frames the intact one is received: one '-' for each
      corrupted frame, one '+' at the end unless acknowledgments are off, and not a byte more
      is read. */
  lemma {:induction false} Recovery(payload: seq<byte>, tries: seq<Attempt>, junk: seq<byte>,
                                    rest: seq<byte>, noAck: bool)
    requires Plain(payload) && Junk(junk) && FailedAttempts(payload, tries)
    ensures GetPkt(Sent(payload, tries) + junk + Frame(payload) + rest, noAck) ==
            Receipt(Packet(payload, rest), Repeat([MINUS], |tries|) + if noAck then [] else [PLUS])
  {
    if tries == [] {
      assert Sent(payload, tries) + junk + Frame(payload) + rest == junk + Frame(payload) + rest;
      FrameReceived(junk, payload, payload, rest, noAck);
    } else {
      var first, tail := tries[0], Sent(payload, tries[1..]) + junk + Frame(payload) + rest;
      assert Sent(payload, tries) + junk + Frame(payload) + rest
          == first.junk + FrameAs(payload, first.body) + tail;
      FrameReceived(first.junk, payload, first.body, tail, noAck);
      Recovery(payload, tries[1..], junk, rest, noAck);
      RetriedAgain(tail, noAck, Packet(payload, rest), |tries| - 1, if noAck then [] else [PLUS]);
    }
  }
}
