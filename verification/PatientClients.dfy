/** What a client has to do to be served as on a plain stream: send nothing after a frame until
    it has seen the reply. */
module PatientClients {
  import opened Memory
  import opened Options
  import opened Text
  import opened Framing
  import opened Bursts
  import opened Session
  import opened ReadAhead

  /** The first `n` bytes that are left end with a burst. */
  predicate EndsBurst(w: Wire, n: nat) {
    exists k :: 0 <= k <= |w.bursts| && |Flat(w.bursts[k..])| + n == |Stream(w)|
  }

  /** The bytes of each request whose reply is to be acknowledged end with a burst. */
  predicate Patient<S>(h: Handler<S>, s: S, noAck: bool, qs: seq<Request>, w: Wire)
    requires Arriving(w.bursts)
    decreases |qs|
  {
    qs != [] ==>
      var q, n := qs[0], |Asked(qs[0])|;
      var (t, mode, reaction) := Handle(h, s, noAck, q.packet);
      && n <= |Stream(w)|
      && (Speaks(reaction) && !mode ==> EndsBurst(w, n))
      && (Stays(reaction) ==>
            Patient(h, t, mode, qs[1..], ReadAhead.Answered(Left(w, |Stream(w)| - n), mode, reaction)))
  }

  lemma EndsBurstIsInLine(w: Wire, n: nat)
    requires Arriving(w.bursts) && n <= |Stream(w)| && EndsBurst(w, n)
    ensures Left(w, |Stream(w)| - n).ahead == []
  {
    var k :| 0 <= k <= |w.bursts| && |Flat(w.bursts[k..])| + n == |Stream(w)|;
    NothingAhead(w, k, |Stream(w)| - n);
  }

  lemma AskedIsRead(q: Request, rest: seq<byte>, noAck: bool)
    requires Proper(q)
    ensures GetPkt(Asked(q) + rest, noAck) ==
            Receipt(Packet(q.packet, rest), Repeat([MINUS], |q.tries|) + if noAck then [] else [PLUS])
  {
    Recovery(q.packet, q.tries, q.junk, rest, noAck);
  }

  /** One turn of such a client. */
  lemma PatientTurn(q: Request, noAck: bool, mode: bool, reaction: Reaction, rest: seq<byte>, later: seq<byte>, w: Wire)
    requires Arriving(w.bursts) && Proper(q) && rest == Acknowledged(q, mode, reaction) + later
    requires Stream(w) == Asked(q) + rest
    requires Speaks(reaction) && !mode ==> EndsBurst(w, |Asked(q)|)
    ensures GetPkt(Stream(w), noAck).got == Packet(q.packet, rest)
    ensures var v := Left(w, |rest|);
            && Stream(v) == rest
            && (Speaks(reaction) && !mode ==> InLine(v.ahead, Flat(v.bursts)))
            && Stream(ReadAhead.Answered(v, mode, reaction)) == later
  {
    hide GetPkt, AwaitAck, Left, Asked, Stream, Acknowledged, ReadAhead.Answered, PlainAnswered;
    AskedIsRead(q, rest, noAck);
    if Speaks(reaction) && !mode {
      EndsBurstIsInLine(w, |Asked(q)|);
    }
    AnswerInLineIff(Left(w, |rest|), mode, reaction);
    LaterIsLeft(q, mode, reaction, later);
  }

  lemma {:induction false} PatientIsInStep<S>(h: Handler<S>, s: S, noAck: bool, qs: seq<Request>, tail: seq<byte>,
                                              w: Wire)
    requires Arriving(w.bursts) && Stream(w) == ClientStream(h, s, noAck, qs, tail)
    requires Junk(tail) && forall i :: 0 <= i < |qs| ==> Proper(qs[i])
    requires Patient(h, s, noAck, qs, w)
    ensures InStep(h, s, noAck, w)
    decreases |qs|
  {
    hide GetPkt, AwaitAck, Left, Asked, Stream, Handle, Acknowledged, ReadAhead.Answered, PlainAnswered, InLine, EndsBurst;
    if qs == [] {
      JunkOnly(tail);
      JunkEnds(tail, noAck);
    } else {
      var q := qs[0];
      var (t, mode, reaction) := Handle(h, s, noAck, q.packet);
      var later := if Stays(reaction) then ClientStream(h, t, mode, qs[1..], tail) else tail;
      var rest := Acknowledged(q, mode, reaction) + later;
      PatientTurn(q, noAck, mode, reaction, rest, later, w);
      if Stays(reaction) {
        PatientIsInStep(h, t, mode, qs[1..], tail, ReadAhead.Answered(Left(w, |rest|), mode, reaction));
      }
    }
  }

  lemma JunkEnds(tail: seq<byte>, noAck: bool)
    requires AfterDollar(tail) == None
    ensures GetPkt(tail, noAck).got == Eof
  {}

  lemma LaterIsLeft(q: Request, mode: bool, reaction: Reaction, later: seq<byte>)
    requires Proper(q)
    ensures PlainAnswered(Acknowledged(q, mode, reaction) + later, mode, reaction) == later
  {
    if Speaks(reaction) {
      ReplyAcknowledged(q, mode, reaction, later);
    } else {
      assert [] + later == later;
    }
  }

  /** Such a client is served as on a plain stream, acknowledgments and the switch included. */
  lemma PatientSessionServed<S>(h: Handler<S>, s: S, noAck: bool, qs: seq<Request>, tail: seq<byte>, w: Wire)
    requires Arriving(w.bursts) && Stream(w) == ClientStream(h, s, noAck, qs, tail)
    requires Junk(tail) && forall i :: 0 <= i < |qs| ==> Proper(qs[i])
    requires Patient(h, s, noAck, qs, w)
    ensures WireLoop(h, s, noAck, w) == ServerStream(h, s, noAck, qs)
  {
    PatientIsInStep(h, s, noAck, qs, tail, w);
    InStepIsLoop(h, s, noAck, w);
    SessionServed(h, s, noAck, qs, tail);
  }

  lemma WrittenIs(q: Request, mode: bool, reaction: Reaction, later: seq<byte>, w: Wire)
    requires Arriving(w.bursts) && Proper(q) && Stream(w) == Acknowledged(q, mode, reaction) + later
    requires Speaks(reaction) && !mode ==> InLine(w.ahead, Flat(w.bursts))
    ensures Written(w, mode, reaction) == Session.Answered(q, mode, reaction)
  {
    hide AwaitAck, Acknowledged, Repeat, Frame, ReadAhead.Answered, PlainAnswered, InLine, Stream;
    AnswerInLineIff(w, mode, reaction);
    if Speaks(reaction) {
      ReplyAcknowledged(q, mode, reaction, later);
    }
  }

  /** What packet_loop does in one turn for such a client: which packet it gets, what it writes,
      and that the client is still such a client afterwards. */
  lemma ServedTurn<S>(h: Handler<S>, s: S, noAck: bool, qs: seq<Request>, tail: seq<byte>, w: Wire)
    requires qs != [] && Proper(qs[0]) && Arriving(w.bursts)
    requires Stream(w) == ClientStream(h, s, noAck, qs, tail) && Patient(h, s, noAck, qs, w)
    ensures var r := GetPkt(Stream(w), noAck);
            && r.got.Packet? && r.got.body == qs[0].packet && |r.got.rest| <= |Stream(w)|
            && var (t, mode, reaction) := Handle(h, s, noAck, qs[0].packet);
               var v := Left(w, |r.got.rest|);
               var after := ReadAhead.Answered(v, mode, reaction);
               && ServerStream(h, s, noAck, qs) ==
                  r.out + (Written(v, mode, reaction)
                           + if Stays(reaction) then ServerStream(h, t, mode, qs[1..]) else [])
               && (Stays(reaction) ==> Stream(after) == ClientStream(h, t, mode, qs[1..], tail)
                                       && Patient(h, t, mode, qs[1..], after))
  {
    hide GetPkt, Left, Asked, Stream, Handle, Acknowledged, ReadAhead.Answered, PlainAnswered, InLine, EndsBurst, Written;
    var q := qs[0];
    var (t, mode, reaction) := Handle(h, s, noAck, q.packet);
    var later := if Stays(reaction) then ClientStream(h, t, mode, qs[1..], tail) else tail;
    var rest := Acknowledged(q, mode, reaction) + later;
    PatientTurn(q, noAck, mode, reaction, rest, later, w);
    AskedIsRead(q, rest, noAck);
    WrittenIs(q, mode, reaction, later, Left(w, |rest|));
  }

  // ---------- one that waits for every reply ----------

  /** The bursts of a client that sends nothing after a frame until it has seen the reply, after
      `lead`; an acknowledgment may come together with the next request. */
  function TurnByTurn<S>(h: Handler<S>, s: S, noAck: bool, qs: seq<Request>, tail: seq<byte>, lead: seq<byte>):
    (bursts: seq<seq<byte>>)
    ensures Arriving(bursts) && Flat(bursts) == lead + ClientStream(h, s, noAck, qs, tail)
    decreases |qs|
  {
    if qs == [] then
      var last := lead + tail;
      if last == [] then [] else
        assert Flat([last]) == last + Flat([last][1..]) == last;
        [last]
    else
      var (t, mode, reaction) := Handle(h, s, noAck, qs[0].packet);
      var ack := Acknowledged(qs[0], mode, reaction);
      var later := TurnByTurn(h, t, mode, if Stays(reaction) then qs[1..] else [], tail, ack);
      var first := lead + Asked(qs[0]);
      assert ([first] + later)[1..] == later;
      Concat3(lead, Asked(qs[0]), Flat(later));
      [first] + later
  }

  lemma TurnByTurnLeft<S>(h: Handler<S>, s: S, noAck: bool, qs: seq<Request>, tail: seq<byte>, lead: seq<byte>)
    ensures RawLeft(TurnByTurn(h, s, noAck, qs, tail, lead), |ClientStream(h, s, noAck, qs, tail)|) ==
            TurnByTurn(h, s, noAck, qs, tail, [])
  {
    if qs != [] {
      var (t, mode, reaction) := Handle(h, s, noAck, qs[0].packet);
      var later := TurnByTurn(h, t, mode, if Stays(reaction) then qs[1..] else [], tail,
                              Acknowledged(qs[0], mode, reaction));
      assert [] + Asked(qs[0]) == Asked(qs[0]);
      RawLeftWithin(lead, Asked(qs[0]), later);
    } else if tail != [] {
      assert [] + tail == tail;
      RawLeftWithin(lead, tail, []);
      assert [lead + tail] + [] == [lead + tail] && [tail] + [] == [tail];
    } else {
      RawAll(TurnByTurn(h, s, noAck, qs, tail, lead));
    }
  }

  lemma {:induction false} RawAll(bursts: seq<seq<byte>>)
    requires Arriving(bursts)
    ensures RawLeft(bursts, 0) == []
    decreases |Flat(bursts)|
  {
    ReadSplits(bursts, 1);
    if |Flat(bursts)| > 0 {
      RawAll(Later(bursts, 1));
    }
  }

  /** Once the reply is acknowledged, the burst that brought the acknowledgment still has the
      next request. */
  lemma AnsweredTurn<S>(h: Handler<S>, t: S, mode: bool, q: Request, reaction: Reaction, qs: seq<Request>, tail: seq<byte>)
    requires Proper(q)
    ensures ReadAhead.Answered(Wire([], TurnByTurn(h, t, mode, qs, tail, Acknowledged(q, mode, reaction))), mode, reaction)
            == Wire([], TurnByTurn(h, t, mode, qs, tail, []))
  {
    hide AwaitAck, RawLeft, Asked, TurnByTurn;
    var ack, later := Acknowledged(q, mode, reaction), ClientStream(h, t, mode, qs, tail);
    assert [] + later == later;
    TurnByTurnLeft(h, t, mode, qs, tail, ack);
    if Speaks(reaction) {
      LaterIsLeft(q, mode, reaction, later);
    }
  }

  lemma FirstBurst(asked: seq<byte>, later: seq<seq<byte>>)
    requires asked != [] && Arriving(later)
    ensures var w := Wire([], [asked] + later);
            && Arriving(w.bursts) && |Stream(w)| == |asked| + |Flat(later)|
            && EndsBurst(w, |asked|) && Left(w, |Stream(w)| - |asked|) == Wire([], later)
  {
    var w := Wire([], [asked] + later);
    assert w.bursts[1..] == later;
    NothingAhead(w, 1, |Flat(later)|);
  }

  lemma TurnShape<S>(h: Handler<S>, s: S, noAck: bool, qs: seq<Request>, tail: seq<byte>)
    requires qs != []
    ensures var (t, mode, reaction) := Handle(h, s, noAck, qs[0].packet);
            TurnByTurn(h, s, noAck, qs, tail, []) ==
            [Asked(qs[0])] + TurnByTurn(h, t, mode, if Stays(reaction) then qs[1..] else [], tail,
                                        Acknowledged(qs[0], mode, reaction))
  {
    assert [] + Asked(qs[0]) == Asked(qs[0]);
  }

  lemma {:induction false} TurnByTurnIsPatient<S>(h: Handler<S>, s: S, noAck: bool, qs: seq<Request>, tail: seq<byte>)
    requires forall i :: 0 <= i < |qs| ==> Proper(qs[i])
    ensures Patient(h, s, noAck, qs, Wire([], TurnByTurn(h, s, noAck, qs, tail, [])))
    decreases |qs|
  {
    hide TurnByTurn, EndsBurst, Left, Handle, Asked, ReadAhead.Answered, ClientStream, Flat, Stream;
    if qs != [] {
      var q := qs[0];
      var (t, mode, reaction) := Handle(h, s, noAck, q.packet);
      var later := TurnByTurn(h, t, mode, if Stays(reaction) then qs[1..] else [], tail,
                              Acknowledged(q, mode, reaction));
      TurnShape(h, s, noAck, qs, tail);
      AskedIsLong(q);
      FirstBurst(Asked(q), later);
      if Stays(reaction) {
        AnsweredTurn(h, t, mode, q, reaction, qs[1..], tail);
        TurnByTurnIsPatient(h, t, mode, qs[1..], tail);
      }
    }
  }

  lemma AskedIsLong(q: Request)
    ensures |Asked(q)| > 0
  {}

  /** A client that waits for every reply is served. */
  lemma TurnByTurnServed<S>(h: Handler<S>, s: S, noAck: bool, qs: seq<Request>, tail: seq<byte>)
    requires Junk(tail) && forall i :: 0 <= i < |qs| ==> Proper(qs[i])
    ensures WireLoop(h, s, noAck, Wire([], TurnByTurn(h, s, noAck, qs, tail, []))) == ServerStream(h, s, noAck, qs)
  {
    TurnByTurnIsPatient(h, s, noAck, qs, tail);
    var w := Wire([], TurnByTurn(h, s, noAck, qs, tail, []));
    assert Stream(w) == ClientStream(h, s, noAck, qs, tail);
    PatientSessionServed(h, s, noAck, qs, tail, w);
  }

  // ---------- one that does not ----------

  /** A frame without '+' in front of a '+', read for an acknowledgment. */
  lemma FrameRefused(second: seq<byte>)
    requires PLUS !in second
    ensures var z := Frame(second) + [PLUS];
            && AwaitAck(z).writes == |z| && AwaitAck(z).rest == [] && |z| > 1
            && Ack(z) == z && PLUS in z
  {
    var noise := Frame(second);
    assert noise + [PLUS] + [] == noise + [PLUS];
    AwaitAckCounts(noise, []);
    AckIs(noise + [PLUS], noise + [PLUS]);
  }

  lemma NothingInAck<S>(h: Handler<S>, t: S)
    ensures WireLoop(h, t, false, Wire([PLUS], [])) == []
  {
    assert Stream(Wire([PLUS], [])) == [PLUS];
    assert AfterDollar([PLUS]) == None;
  }

  lemma FirstReceived(first: seq<byte>, rest: seq<byte>)
    requires Plain(first)
    ensures GetPkt(Frame(first) + rest, false) == Receipt(Packet(first, rest), [PLUS])
  {
    hide GetPkt, Frame;
    Recovery(first, [], [], rest, false);
    assert [] + [] + Frame(first) + rest == Frame(first) + rest;
    assert Repeat([MINUS], 0) + [PLUS] == [PLUS];
  }

  lemma AckedAtOnce(rest: seq<byte>, frame: seq<byte>)
    ensures AwaitAck([PLUS] + rest) == Delivery(true, 1, 0, rest) && Repeat(frame, 1) == frame
  {
    assert ([PLUS] + rest)[1..] == rest;
    assert Repeat(frame, 1) == frame + Repeat(frame, 0);
  }

  /** A client that sends the acknowledgment along with the frame, before the reply, and the
      next request likewise: the server takes the whole second frame for a refusal of its
      reply, byte by byte, and never handles it. */
  lemma SecondRequestSwallowed<S>(h: Handler<S>, s: S, t: S, first: seq<byte>, second: seq<byte>, reply: seq<byte>)
    requires Plain(first) && first != [] && Handle(h, s, false, first) == (t, false, Say(reply))
    requires |Frame(first)| < BUFSIZ && PLUS !in second
    ensures var w := Wire([], [Frame(first) + [PLUS], Frame(second) + [PLUS]]);
            && WireLoop(h, s, false, w) == [PLUS] + Repeat(Frame(reply), |Frame(second)| + 1)
            && Loop(h, s, false, Stream(w)) == [PLUS] + (Frame(reply) + Loop(h, t, false, Frame(second) + [PLUS]))
            && !InStep(h, s, false, w)
  {
    var x, z := Frame(first), Frame(second) + [PLUS];
    assert x != [] && |z| == |Frame(second)| + 1;
    FrameRefused(second);
    FirstReceived(first, [PLUS] + z);
    Swallowed(h, s, t, first, x, z, reply);
  }

  lemma Swallowed<S>(h: Handler<S>, s: S, t: S, first: seq<byte>, x: seq<byte>, z: seq<byte>, reply: seq<byte>)
    requires first != [] && Handle(h, s, false, first) == (t, false, Say(reply))
    requires 0 < |x| < BUFSIZ && GetPkt(x + ([PLUS] + z), false) == Receipt(Packet(first, [PLUS] + z), [PLUS])
    requires AwaitAck(z).writes == |z| && AwaitAck(z).rest == [] && |z| > 1 && Ack(z) == z
    ensures var w := Wire([], [x + [PLUS], z]);
            && WireLoop(h, s, false, w) == [PLUS] + Repeat(Frame(reply), |z|)
            && Loop(h, s, false, Stream(w)) == [PLUS] + (Frame(reply) + Loop(h, t, false, z))
            && !InStep(h, s, false, w)
  {
    hide GetPkt, AwaitAck, Left, Handle, Frame, Repeat, RawLeft, Ack;
    var w, v := Wire([], [x + [PLUS], z]), Wire([PLUS], [z]);
    assert w.bursts == [x + [PLUS]] + [z];
    assert [z][1..] == [] && Flat([z]) == z + Flat([]) == z;
    LeftWithin(x, [PLUS], [z]);
    assert Stream(w) == x + ([PLUS] + z) && Left(w, |[PLUS] + z|) == v;
    RawAll([z]);
    NothingInAck(h, t);
    AckedAtOnce(z, Frame(reply));
    assert Repeat(Frame(reply), |z|) + [] == Repeat(Frame(reply), |z|);
  }
}
