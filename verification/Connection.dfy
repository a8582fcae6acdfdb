/** readchar, getpkt and putpkt (src/remote-utils.c) over a connection that hands out bytes in
    bursts of any sizes. */
module Connection {
  import opened Memory
  import opened Options
  import opened Text
  import opened Framing
  import opened Bursts

  /** How getpkt ended; `Abandoned` is a call of `error`. */
  datatype Reading = Ended | Abandoned | Received(body: seq<byte>)

  /** What one frame in the stream turned out to be. */
  datatype FrameRead = NoFrame | BadFrame | GoodFrame(body: seq<byte>) | Mismatch

  function Outcome(r: FrameRead): Reading {
    match r
    case GoodFrame(body) => Received(body)
    case BadFrame => Abandoned
    case _ => Ended
  }

  function ReadingOf(got: Got): Reading {
    match got
    case Eof => Ended
    case BadDigit(_) => Abandoned
    case Packet(body, _) => Received(body)
  }

  function Rest(got: Got): seq<byte> {
    if got.Eof? then [] else got.rest
  }

  function Prefixed(acc: seq<byte>, r: Option<(seq<byte>, seq<byte>)>): Option<(seq<byte>, seq<byte>)> {
    if r.None? then None else Some((acc + r.value.0, r.value.1))
  }

  /** One more byte of a body. */
  lemma BodyNext(acc: seq<byte>, stream: seq<byte>, c: byte)
    requires stream != [] && c == Mask(stream[0]) && c != HASH
    ensures Prefixed(acc, BodyAndRest(stream)) == Prefixed(acc + [c], BodyAndRest(stream[1..]))
  {
    var r := BodyAndRest(stream[1..]);
    if r.Some? {
      Concat3(acc, [c], r.value.0);
    }
  }

  /** The checksum is summed up as the bytes come in. */
  lemma ChecksumNext(acc: seq<byte>, c: byte)
    ensures Checksum(acc + [c]) == (Checksum(acc) + c) % 256
  {
    assert (acc + [c])[..|acc|] == acc;
  }

  /** `csum += c` in an unsigned char */
  function AddByte(csum: byte, c: byte, ghost acc: seq<byte>): (r: byte)
    requires csum == Checksum(acc)
    ensures r == Checksum(acc + [c])
  {
    ChecksumNext(acc, c);
    (csum + c) % 256
  }

  lemma PrefixedByNothing(r: Option<(seq<byte>, seq<byte>)>)
    ensures Prefixed([], r) == r
  {
    if r.Some? {
      assert [] + r.value.0 == r.value.0;
    }
  }

  /** `r` is the first frame of the stream, and `rest` is what follows it. */
  predicate FrameIs(stream: seq<byte>, noAck: bool, r: FrameRead, rest: seq<byte>) {
    var spec := GetPkt(stream, noAck);
    match r
    case NoFrame => spec == Receipt(Eof, []) && rest == []
    case BadFrame => spec == Receipt(BadDigit(rest), [])
    case GoodFrame(body) => spec == Receipt(Packet(body, rest), if noAck then [] else [PLUS])
    case Mismatch => spec == Retried(rest, noAck)
  }

  /** The decision on a frame whose body sums up to `csum`. */
  function FrameOf(body: seq<byte>, csum: byte, c: Option<nat>): FrameRead {
    if c.None? then BadFrame else if csum == c.value then GoodFrame(body) else Mismatch
  }

  lemma NoDollar(stream: seq<byte>, noAck: bool)
    requires AfterDollar(stream) == None
    ensures FrameIs(stream, noAck, NoFrame, [])
  {}

  lemma NoHash(stream: seq<byte>, after: seq<byte>, noAck: bool)
    requires AfterDollar(stream) == Some(after) && BodyAndRest(after) == None
    ensures FrameIs(stream, noAck, NoFrame, [])
  {}

  lemma CheckedIs(body: seq<byte>, rest: seq<byte>, c: Option<nat>, left: seq<byte>, noAck: bool)
    requires TwoDigits(rest) == (c, left)
    ensures |left| <= |rest|
    ensures CheckPkt(body, rest, noAck) ==
            if c.None? then Receipt(BadDigit(left), [])
            else if Checksum(body) == c.value then Receipt(Packet(body, left), if noAck then [] else [PLUS])
            else Retried(left, noAck)
  {
    hide TwoDigits, Checksum, Retried;
  }

  lemma FrameEnds(stream: seq<byte>, after: seq<byte>, body: seq<byte>, rest: seq<byte>, c: Option<nat>,
                  left: seq<byte>, noAck: bool)
    requires AfterDollar(stream) == Some(after) && BodyAndRest(after) == Some((body, rest))
    requires TwoDigits(rest) == (c, left)
    ensures FrameIs(stream, noAck, FrameOf(body, Checksum(body), c), left) && |left| < |stream|
  {
    hide AfterDollar, BodyAndRest, TwoDigits, Checksum, CheckPkt, Retried;
    assert GetPkt(stream, noAck) == CheckPkt(body, rest, noAck);
    CheckedIs(body, rest, c, left, noAck);
  }

  /** After one frame either getpkt is done, or what is left to do is getpkt on the rest. */
  predicate TurnIs(stream: seq<byte>, noAck: bool, before: seq<byte>, r: FrameRead, rest: seq<byte>, after: seq<byte>) {
    var spec := GetPkt(stream, noAck);
    if r.Mismatch? then
      var again := GetPkt(rest, noAck);
      spec.got == again.got && before + spec.out == after + again.out
    else Outcome(r) == ReadingOf(spec.got) && rest == Rest(spec.got) && after == before + spec.out
  }

  /** What getpkt writes after a frame. */
  function AckFor(r: FrameRead, noAck: bool): seq<byte> {
    if r.Mismatch? then [MINUS] else if r.GoodFrame? && !noAck then [PLUS] else []
  }

  lemma TurnOf(stream: seq<byte>, noAck: bool, before: seq<byte>, r: FrameRead, rest: seq<byte>)
    requires FrameIs(stream, noAck, r, rest)
    ensures TurnIs(stream, noAck, before, r, rest, before + AckFor(r, noAck))
  {
    if r.Mismatch? {
      Concat3(before, [MINUS], GetPkt(rest, noAck).out);
    }
  }

  /** putpkt reads past what has been read ahead. */
  function AfterPut(w: Wire, d: Delivery): (r: Wire)
    requires Arriving(w.bursts) && |d.rest| <= |Flat(w.bursts)|
    ensures Arriving(r.bursts)
  {
    Wire(w.ahead, RawLeft(w.bursts, |d.rest|))
  }

  /** Reading one byte at a time leads from `before` to `now`. */
  predicate RawReaches(before: seq<seq<byte>>, now: seq<seq<byte>>) {
    Arriving(before) && |Flat(now)| <= |Flat(before)| && now == RawLeft(before, |Flat(now)|)
  }

  lemma RawReachesSelf(now: seq<seq<byte>>)
    requires Arriving(now)
    ensures RawReaches(now, now) && Pending(AwaitAck(Flat(now)), now, 0, 0)
  {}

  lemma RawDone(before: seq<seq<byte>>, now: seq<seq<byte>>)
    requires RawReaches(before, now)
    ensures |Flat(now)| <= |Flat(before)| && now == RawLeft(before, |Flat(now)|)
  {}

  lemma RawNext(before: seq<seq<byte>>, now: seq<seq<byte>>)
    requires RawReaches(before, now)
    ensures RawReaches(before, Later(now, 1)) && (now != [] ==> |Flat(Later(now, 1))| < |Flat(now)|)
  {
    ReadSplits(now, 1);
    RawLeftAgain(before, |Flat(now)|, |Flat(Later(now, 1))|);
  }

  /** `n` writes and `k` interrupts into a retransmission that is to end as `spec`. */
  predicate Pending(spec: Delivery, now: seq<seq<byte>>, n: nat, k: nat) {
    var d := AwaitAck(Flat(now));
    spec == d.(writes := n + d.writes, interrupts := k + d.interrupts)
  }

  lemma PendingNext(spec: Delivery, now: seq<seq<byte>>, n: nat, k: nat)
    requires Arriving(now) && Pending(spec, now, n, k)
    ensures now == [] ==> spec == Delivery(false, n + 1, k, [])
    ensures now != [] ==>
              && |Chunk(now, 1)| == 1
              && var c := Chunk(now, 1)[0];
                 if c == PLUS then spec == Delivery(true, n + 1, k, Flat(Later(now, 1)))
                 else Pending(spec, Later(now, 1), n + 1, k + if c == CTRL_C then 1 else 0)
  {
    ReadSplits(now, 1);
    if now != [] {
      assert Flat(now)[1..] == Flat(Later(now, 1));
    }
  }

  lemma SentOnce(bursts: seq<seq<byte>>, payload: seq<byte>)
    requires Arriving(bursts)
    ensures Repeat(Frame(payload), 1) == Frame(payload) && RawLeft(bursts, |Flat(bursts)|) == bursts
  {
    assert Repeat(Frame(payload), 1) == Frame(payload) + Repeat(Frame(payload), 0);
  }

  class Remote {
    /** What the client sends and no read has returned yet. */
    var bursts: seq<seq<byte>>
    /** Everything written to the client. */
    var outgoing: seq<byte>
    var noAckMode: bool
    /** SIGINTs sent to the inferior. */
    var interrupts: nat

    // the static variables of readchar
    const buf: array<byte>
    var bufcnt: int
    var bufp: nat

    constructor (bursts: seq<seq<byte>>)
      requires Arriving(bursts)
      ensures Valid() && fresh(buf) && Connected() == Wire([], bursts)
      ensures outgoing == [] && !noAckMode && interrupts == 0
    {
      this.bursts := bursts;
      outgoing, noAckMode, interrupts := [], false, 0;
      buf := new byte[BUFSIZ](_ => 0);
      bufcnt, bufp := 0, 0;
    }

    ghost predicate Valid()
      reads this
    {
      buf.Length == BUFSIZ && (bufcnt > 0 ==> bufp + bufcnt <= BUFSIZ) && Arriving(bursts)
    }

    /** Bytes that were read ahead. */
    ghost function Buffered(): seq<byte>
      requires Valid()
      reads this, buf
    {
      if bufcnt > 0 then buf[bufp..bufp + bufcnt] else []
    }

    /** The connection as it is now. */
    ghost function Connected(): Wire
      requires Valid()
      reads this, buf
    {
      Wire(Buffered(), bursts)
    }

    /** What is left of the client's stream. */
    ghost function Stream(): seq<byte>
      requires Valid()
      reads this, buf
    {
      Bursts.Stream(Connected())
    }

    /** read: at most `limit` bytes of one burst, none at the end of the stream. */
    method Read(limit: nat) returns (chunk: seq<byte>)
      requires limit > 0 && Arriving(bursts)
      modifies this`bursts
      ensures chunk == Chunk(old(bursts), limit) && bursts == Later(old(bursts), limit) && Arriving(bursts)
    {
      ReadSplits(bursts, limit);
      if bursts == [] {
        return [];
      }
      var burst := bursts[0];
      if |burst| <= limit {
        chunk, bursts := burst, bursts[1..];
      } else {
        chunk, bursts := burst[..limit], [burst[limit..]] + bursts[1..];
      }
    }

    /** readchar: the next byte of the stream, whatever the bursts were. */
    method ReadChar() returns (c: int)
      requires Valid()
      modifies this`bursts, this`bufcnt, this`bufp, buf
      ensures Valid() && Connected() == Next(old(Connected()))
      ensures old(Stream()) == [] ==> c == -1 && Stream() == []
      ensures old(Stream()) != [] ==> c == Mask(old(Stream())[0]) && Stream() == old(Stream())[1..]
    {
      ghost var before := Connected();
      if bufcnt <= 0 {
        Refill();
        if bufcnt <= 0 {
          return -1;
        }
      }
      ghost var ahead := Buffered();
      bufcnt := bufcnt - 1;
      c := Mask(buf[bufp]);
      bufp := bufp + 1;
      assert Buffered() == ahead[1..];
      assert Connected() == Next(before);
    }

    /** readchar, somewhere in a stretch that began at `start`. */
    method ReadOn(ghost start: Wire) returns (c: int)
      requires Valid() && Reaches(start, Connected())
      modifies this`bursts, this`bufcnt, this`bufp, buf
      ensures Valid() && Reaches(start, Connected())
      ensures old(Stream()) == [] ==> c == -1 && Stream() == []
      ensures old(Stream()) != [] ==> c == Mask(old(Stream())[0]) && Stream() == old(Stream())[1..]
    {
      hide Reaches, Next;
      ReachesNext(start, Connected());
      c := ReadChar();
    }

    /** The branch of readchar that reads ahead. */
    method Refill()
      requires Valid() && Buffered() == []
      modifies this`bursts, this`bufcnt, this`bufp, buf
      ensures Valid() && Connected() == Wire(Chunk(old(bursts), BUFSIZ), Later(old(bursts), BUFSIZ))
      ensures Stream() == old(Stream()) && (bufcnt <= 0 ==> Stream() == [] && Connected() == old(Connected()))
    {
      ReadSplits(bursts, BUFSIZ);
      var chunk := Read(BUFSIZ);
      for i := 0 to |chunk|
        invariant buf[..i] == chunk[..i] && bursts == Later(old(bursts), BUFSIZ)
      {
        buf[i] := chunk[i];
      }
      bufcnt, bufp := |chunk|, 0;
      assert buf[..|chunk|] == chunk && Buffered() == chunk;
    }

    /** The inner scan of getpkt for the start of a packet. */
    method ScanForDollar() returns (found: bool)
      requires Valid()
      modifies this`bursts, this`bufcnt, this`bufp, buf
      ensures Valid() && Reaches(old(Connected()), Connected())
      ensures AfterDollar(old(Stream())) == if found then Some(Stream()) else None
      ensures !found ==> Stream() == []
    {
      hide Reaches;
      ReachesSelf(Connected());
      ghost var s := Stream();
      while true
        invariant Valid() && AfterDollar(Stream()) == AfterDollar(s) && Reaches(old(Connected()), Connected())
        decreases |Stream()|
      {
        var c := ReadOn(old(Connected()));
        if c == DOLLAR {
          return true;
        }
        if c < 0 {
          return false;
        }
      }
    }

    /** One byte of the body, after `acc`, None at the end of the stream; `whole` is what the body
        will have been. */
    method ReadBodyByte(ghost start: Wire, ghost whole: Option<(seq<byte>, seq<byte>)>, ghost acc: seq<byte>)
      returns (c: Option<byte>)
      requires Valid() && Reaches(start, Connected()) && whole == Prefixed(acc, BodyAndRest(Stream()))
      modifies this`bursts, this`bufcnt, this`bufp, buf
      ensures Valid() && Reaches(start, Connected())
      ensures c == None ==> whole == None && Stream() == []
      ensures c == Some(HASH) ==> whole == Some((acc, Stream()))
      ensures c.Some? && c.value != HASH ==> whole == Prefixed(acc + [c.value], BodyAndRest(Stream()))
      ensures c.Some? ==> |Stream()| < |old(Stream())|
    {
      hide Reaches;
      ghost var before := Stream();
      var ch := ReadOn(start);
      if ch < 0 {
        return None;
      }
      var next: byte := ch;
      if next == HASH {
        assert acc + [] == acc;
      } else {
        BodyNext(acc, before, next);
      }
      c := Some(next);
    }

    /** The inner loop of getpkt over the body, summing as it goes; None at the end of the stream. */
    method ReadBody() returns (body: Option<seq<byte>>, csum: byte)
      requires Valid()
      modifies this`bursts, this`bufcnt, this`bufp, buf
      ensures Valid() && Reaches(old(Connected()), Connected())
      ensures BodyAndRest(old(Stream())) == if body.Some? then Some((body.value, Stream())) else None
      ensures body.Some? ==> csum == Checksum(body.value)
      ensures body.None? ==> Stream() == []
    {
      hide Reaches;
      ReachesSelf(Connected());
      ghost var start, whole := Connected(), BodyAndRest(Stream());
      PrefixedByNothing(whole);
      var acc: seq<byte> := [];
      csum := 0;
      while true
        invariant Valid() && csum == Checksum(acc) && Reaches(start, Connected())
        invariant whole == Prefixed(acc, BodyAndRest(Stream()))
        decreases |Stream()|
      {
        var c := ReadBodyByte(start, whole, acc);
        if c == None {
          return None, csum;
        }
        if c == Some(HASH) {
          return Some(acc), csum;
        }
        csum := AddByte(csum, c.value, acc);
        acc := acc + [c.value];
      }
    }

    /** The two digits after '#'; None when fromhex refuses one. */
    method ReadTwoDigits() returns (c: Option<nat>)
      requires Valid()
      modifies this`bursts, this`bufcnt, this`bufp, buf
      ensures Valid() && TwoDigits(old(Stream())) == (c, Stream()) && Reaches(old(Connected()), Connected())
    {
      hide Reaches;
      ReachesSelf(Connected());
      var ch1 := ReadOn(old(Connected()));
      var c1 := FromHex(ch1);
      if c1.None? {
        return None;
      }
      var ch2 := ReadOn(old(Connected()));
      var c2 := FromHex(ch2);
      if c2.None? {
        return None;
      }
      c := Some(c1.value * 16 + c2.value);
    }

    /** One turn of the outer loop of getpkt, up to the decision about the checksum. */
    method ReadFrame() returns (r: FrameRead)
      requires Valid()
      modifies this`bursts, this`bufcnt, this`bufp, buf
      ensures Valid() && Reaches(old(Connected()), Connected())
      ensures FrameIs(old(Stream()), noAckMode, r, Stream())
      ensures r.Mismatch? ==> |Stream()| < |old(Stream())|
    {
      hide Reaches, FrameIs, AfterDollar, BodyAndRest, TwoDigits;
      ghost var start, stream := Connected(), Stream();
      var found := ScanForDollar();
      ghost var scanned, after := Connected(), Stream();
      if !found {
        NoDollar(stream, noAckMode);
        return NoFrame;
      }
      var body, csum := ReadBody();
      ghost var read, rest := Connected(), Stream();
      ReachesOn(start, scanned, read);
      if body.None? {
        NoHash(stream, after, noAckMode);
        return NoFrame;
      }
      var c := ReadTwoDigits();
      ReachesOn(start, read, Connected());
      FrameEnds(stream, after, body.value, rest, c, Stream(), noAckMode);
      r := FrameOf(body.value, csum, c);
    }

    /** One turn of the outer loop of getpkt with the acknowledgment it writes. */
    method TryFrame() returns (r: FrameRead)
      requires Valid()
      modifies this`bursts, this`outgoing, this`bufcnt, this`bufp, buf
      ensures Valid() && Reaches(old(Connected()), Connected())
      ensures TurnIs(old(Stream()), noAckMode, old(outgoing), r, Stream(), outgoing)
      ensures r.Mismatch? ==> |Stream()| < |old(Stream())|
    {
      hide Reaches;
      r := ReadFrame();
      TurnOf(old(Stream()), noAckMode, outgoing, r, Stream());
      Acknowledge(r);
    }

    method Acknowledge(r: FrameRead)
      modifies this`outgoing
      ensures outgoing == old(outgoing) + AckFor(r, noAckMode)
    {
      if r.GoodFrame? && !noAckMode {
        outgoing := outgoing + [PLUS];
      } else if r.Mismatch? {
        outgoing := outgoing + [MINUS];
      } else {
        assert outgoing + [] == outgoing;
      }
    }

    /** getpkt; the stream that is left is the one that `GetPkt` leaves, so how the bytes were
        split into bursts makes no difference to it, only to what has been read ahead. */
    method GetPacket() returns (r: Reading)
      requires Valid()
      modifies this`bursts, this`outgoing, this`bufcnt, this`bufp, buf
      ensures Valid() && Reaches(old(Connected()), Connected())
      ensures var spec := GetPkt(old(Stream()), noAckMode);
              && r == ReadingOf(spec.got) && outgoing == old(outgoing) + spec.out
              && Stream() == Rest(spec.got)
    {
      hide Reaches;
      ReachesSelf(Connected());
      ghost var spec := GetPkt(Stream(), noAckMode);
      while true
        invariant Valid() && spec.got == GetPkt(Stream(), noAckMode).got && Reaches(old(Connected()), Connected())
        invariant old(outgoing) + spec.out == outgoing + GetPkt(Stream(), noAckMode).out
        decreases |Stream()|
      {
        ghost var before := Connected();
        var frame := TryFrame();
        ReachesOn(old(Connected()), before, Connected());
        if !frame.Mismatch? {
          return Outcome(frame);
        }
      }
    }

    /** The loop of putpkt that copies the packet between '$' and its checksum. */
    static method BuildFrame(payload: seq<byte>) returns (buf2: seq<byte>)
      ensures buf2 == Frame(payload)
    {
      buf2 := [DOLLAR];
      var csum: byte := 0;
      for i := 0 to |payload|
        invariant buf2 == [DOLLAR] + payload[..i] && csum == Checksum(payload[..i])
      {
        assert payload[..i + 1] == payload[..i] + [payload[i]];
        csum := AddByte(csum, payload[i], payload[..i]);
        buf2 := buf2 + [payload[i]];
      }
      assert payload[..|payload|] == payload;
      buf2 := buf2 + [HASH, ToHex(csum / 16), ToHex(csum % 16)];
    }

    /** putpkt on a C string. The acknowledgment is read directly, past the bytes that readchar
        has read ahead. */
    method PutPacket(payload: seq<byte>) returns (ok: bool)
      requires Valid() && NUL !in payload
      modifies this`bursts, this`outgoing, this`interrupts
      ensures Valid()
      ensures var spec := PutPkt(Flat(old(bursts)), noAckMode);
              && ok == spec.ok && Connected() == AfterPut(old(Connected()), spec)
              && outgoing == old(outgoing) + Repeat(Frame(payload), spec.writes)
              && interrupts == old(interrupts) + spec.interrupts
    {
      hide RawLeft, Flat, AwaitAck;
      var buf2 := BuildFrame(payload);
      if noAckMode {
        outgoing := outgoing + buf2;
        SentOnce(bursts, payload);
        return true;
      }
      ok := WriteUntilAcked(buf2);
    }

    /** The retransmission loop of putpkt. */
    method WriteUntilAcked(frame: seq<byte>) returns (ok: bool)
      requires Valid()
      modifies this`bursts, this`outgoing, this`interrupts
      ensures Valid()
      ensures var spec := AwaitAck(Flat(old(bursts)));
              && ok == spec.ok && bursts == RawLeft(old(bursts), |spec.rest|)
              && outgoing == old(outgoing) + Repeat(frame, spec.writes)
              && interrupts == old(interrupts) + spec.interrupts
    {
      hide RawReaches, Pending, RawLeft, Flat;
      ghost var start, spec, n, k := bursts, AwaitAck(Flat(bursts)), 0, 0;
      RawReachesSelf(bursts);
      while true
        invariant Valid() && outgoing == old(outgoing) + Repeat(frame, n) && interrupts == old(interrupts) + k
        invariant RawReaches(start, bursts) && Pending(spec, bursts, n, k)
        decreases |Flat(bursts)|
      {
        RepeatMore(frame, n);
        outgoing := outgoing + frame;
        var b := AwaitByte(start, spec, n, k);
        n := n + 1;
        RawDone(start, bursts);
        if b == [] {
          return false;
        }
        if b[0] == PLUS {
          return true;
        }
        if b[0] == CTRL_C {
          interrupts := interrupts + 1;
          k := k + 1;
        }
      }
    }

    /** One read of putpkt. */
    method AwaitByte(ghost start: seq<seq<byte>>, ghost spec: Delivery, ghost n: nat, ghost k: nat)
      returns (b: seq<byte>)
      requires Arriving(bursts) && RawReaches(start, bursts) && Pending(spec, bursts, n, k)
      modifies this`bursts
      ensures Arriving(bursts) && RawReaches(start, bursts) && |b| <= 1
      ensures b == [] ==> spec == Delivery(false, n + 1, k, []) && Flat(bursts) == []
      ensures b == [PLUS] ==> spec == Delivery(true, n + 1, k, Flat(bursts))
      ensures b != [] && b != [PLUS] ==>
                && Pending(spec, bursts, n + 1, k + if b[0] == CTRL_C then 1 else 0)
                && |Flat(bursts)| < |Flat(old(bursts))|
    {
      hide RawReaches, Pending;
      RawNext(start, bursts);
      PendingNext(spec, bursts, n, k);
      b := Read(1);
    }
  }

  lemma {:induction false} RepeatMore(s: seq<byte>, n: nat)
    ensures Repeat(s, n) + s == Repeat(s, n + 1)
  {
    if n == 0 {
      assert Repeat(s, 0) + s == s + Repeat(s, 0);
    } else {
      RepeatMore(s, n - 1);
      assert s + Repeat(s, n - 1) + s == s + (Repeat(s, n - 1) + s);
    }
  }
}
