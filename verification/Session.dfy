/** packet_loop (src/server.c) over a whole client stream: acknowledged exchanges, and what
    changes at QStartNoAckMode. */
module Session {
  import opened Memory
  import opened Options
  import opened Text
  import opened Framing
  import opened Protocol

  /** What comes of a packet: a call of `error`, which goes back to the top of packet_loop without
      a reply; a reply; a reply after which the server exits; or exit without one. */
  datatype Reaction = Silence | Say(text: seq<byte>) | Farewell(text: seq<byte>) | Quit

  predicate Speaks(r: Reaction) {
    r.Say? || r.Farewell?
  }

  predicate Stays(r: Reaction) {
    r.Silence? || r.Say?
  }

  /** All other packets: how the server's state changes, and its reaction. */
  type Handler<!S> = (S, seq<byte>) -> (S, Reaction)

  /** handle_packet, which sees a C string; QStartNoAckMode (handle_set) turns acknowledgments
      off before putpkt sends the OK, contrary to the comment there. */
  function Handle<S>(h: Handler<S>, s: S, noAck: bool, packet: seq<byte>): (S, bool, Reaction) {
    if Str(packet) == START_NO_ACK then (s, true, Say(OK))
    else
      var (t, reaction) := h(s, Str(packet));
      (t, noAck, reaction)
  }

  /** Everything that packet_loop writes while it serves the stream. A call of `error` comes
      back to the top of the loop; an empty packet ends it. */
  function Loop<S>(h: Handler<S>, s: S, noAck: bool, stream: seq<byte>): seq<byte>
    decreases |stream|, 0
  {
    var r := GetPkt(stream, noAck);
    match r.got
    case Eof => r.out
    case BadDigit(rest) => r.out + Loop(h, s, noAck, rest)
    case Packet(packet, rest) =>
      if packet == [] then r.out else r.out + Answer(h, s, noAck, packet, rest)
  }

  /** Handle a packet, send the reply if there is one, go on with what is left of the stream. */
  function Answer<S>(h: Handler<S>, s: S, noAck: bool, packet: seq<byte>, rest: seq<byte>): seq<byte>
    decreases |rest|, 1
  {
    var (t, mode, reaction) := Handle(h, s, noAck, packet);
    match reaction
    case Silence => Loop(h, t, mode, rest)
    case Say(text) => var d := PutPkt(rest, mode); Repeat(Frame(text), d.writes) + Loop(h, t, mode, d.rest)
    case Farewell(text) => Repeat(Frame(text), PutPkt(rest, mode).writes)
    case Quit => []
  }

  // ---------- what a client sends ----------

  /** A request: damaged attempts, junk, the intact frame; and the bytes other than '+' that
      precede the acknowledgment of the reply. */
  datatype Request = Request(tries: seq<Attempt>, junk: seq<byte>, packet: seq<byte>, noise: seq<byte>)

  ghost predicate Proper(q: Request) {
    && Plain(q.packet) && q.packet != [] && Junk(q.junk) && FailedAttempts(q.packet, q.tries)
    && PLUS !in q.noise
  }

  /** Every body, damaged or not, fits the packet buffer with its NUL. */
  predicate Roomy(q: Request) {
    |q.packet| < PBUFSIZ && forall i :: 0 <= i < |q.tries| ==> |q.tries[i].body| < PBUFSIZ
  }

  /** What the client sends to have a request answered. */
  function Asked(q: Request): seq<byte> {
    Sent(q.packet, q.tries) + q.junk + Frame(q.packet)
  }

  /** What the client sends for a reply, if it gets one and acknowledgments are on. */
  function Acknowledged(q: Request, mode: bool, reaction: Reaction): seq<byte> {
    if mode || !Speaks(reaction) then [] else q.noise + [PLUS]
  }

  /** The client's side of the stream, then `tail`; it sends no request after the server's exit. */
  function ClientStream<S>(h: Handler<S>, s: S, noAck: bool, qs: seq<Request>, tail: seq<byte>): seq<byte>
    decreases |qs|
  {
    if qs == [] then tail
    else
      var q := qs[0];
      var (t, mode, reaction) := Handle(h, s, noAck, q.packet);
      Asked(q) + (Acknowledged(q, mode, reaction)
                  + if Stays(reaction) then ClientStream(h, t, mode, qs[1..], tail) else tail)
  }

  /** The reply as it is sent: not at all, once in no-ack mode, else once more per byte of noise. */
  function Answered(q: Request, mode: bool, reaction: Reaction): seq<byte> {
    if Speaks(reaction) then Repeat(Frame(reaction.text), if mode then 1 else |q.noise| + 1) else []
  }

  /** The server's side: for each request a '-' per damaged frame, a '+' if acknowledgments are
      on, and the reply; nothing more once it exits. */
  function ServerStream<S>(h: Handler<S>, s: S, noAck: bool, qs: seq<Request>): seq<byte>
    decreases |qs|
  {
    if qs == [] then []
    else
      var q := qs[0];
      var (t, mode, reaction) := Handle(h, s, noAck, q.packet);
      Repeat([MINUS], |q.tries|) + (if noAck then [] else [PLUS])
      + (Answered(q, mode, reaction) + if Stays(reaction) then ServerStream(h, t, mode, qs[1..]) else [])
  }

  lemma ReplyAcknowledged(q: Request, mode: bool, reaction: Reaction, rest: seq<byte>)
    requires Proper(q) && Speaks(reaction)
    ensures var d := PutPkt(Acknowledged(q, mode, reaction) + rest, mode);
            d.writes == (if mode then 1 else |q.noise| + 1) && d.rest == rest
  {
    if mode {
      assert [] + rest == rest;
    } else {
      AwaitAckCounts(q.noise, rest);
    }
  }

  lemma OneRequest<S>(h: Handler<S>, s: S, noAck: bool, q: Request, rest: seq<byte>)
    requires Proper(q)
    ensures Loop(h, s, noAck, Asked(q) + rest) ==
            Repeat([MINUS], |q.tries|) + (if noAck then [] else [PLUS]) + Answer(h, s, noAck, q.packet, rest)
  {
    Recovery(q.packet, q.tries, q.junk, rest, noAck);
  }

  lemma OneAnswer<S>(h: Handler<S>, s: S, noAck: bool, q: Request, rest: seq<byte>)
    requires Proper(q)
    ensures var (t, mode, reaction) := Handle(h, s, noAck, q.packet);
            Answer(h, s, noAck, q.packet, Acknowledged(q, mode, reaction) + rest) ==
            Answered(q, mode, reaction) + if Stays(reaction) then Loop(h, t, mode, rest) else []
  {
    var (t, mode, reaction) := Handle(h, s, noAck, q.packet);
    if Speaks(reaction) {
      ReplyAcknowledged(q, mode, reaction, rest);
    } else {
      assert [] + rest == rest && [] + Loop(h, t, mode, rest) == Loop(h, t, mode, rest);
    }
  }

  /** Every request is handled exactly once and in order, and every reply sent, before, at and
      after the switch to no-ack mode, wherever in the session it is and whatever junk, such
      as a stray '+', lies between the frames; until the server exits. */
  lemma {:induction false} SessionServed<S>(h: Handler<S>, s: S, noAck: bool, qs: seq<Request>, tail: seq<byte>)
    requires Junk(tail) && forall i :: 0 <= i < |qs| ==> Proper(qs[i])
    ensures Loop(h, s, noAck, ClientStream(h, s, noAck, qs, tail)) == ServerStream(h, s, noAck, qs)
    decreases |qs|
  {
    if qs == [] {
      JunkOnly(tail);
    } else {
      var q := qs[0];
      var (t, mode, reaction) := Handle(h, s, noAck, q.packet);
      var later := if Stays(reaction) then ClientStream(h, t, mode, qs[1..], tail) else tail;
      OneRequest(h, s, noAck, q, Acknowledged(q, mode, reaction) + later);
      OneAnswer(h, s, noAck, q, later);
      if Stays(reaction) {
        SessionServed(h, t, mode, qs[1..], tail);
      }
    }
  }

  lemma {:induction false} JunkOnly(tail: seq<byte>)
    requires Junk(tail)
    ensures AfterDollar(tail) == None
  {
    if tail != [] {
      JunkOnly(tail[1..]);
    }
  }

  /** An empty packet, if its frame is intact, is acknowledged and ends the session, whatever follows. */
  lemma EmptyPacketEnds<S>(h: Handler<S>, s: S, noAck: bool, junk: seq<byte>, rest: seq<byte>)
    requires Junk(junk)
    ensures Loop(h, s, noAck, junk + Frame([]) + rest) == if noAck then [] else [PLUS]
  {
    Recovery([], [], junk, rest, noAck);
    assert [] + junk + Frame([]) + rest == junk + Frame([]) + rest;
    assert Repeat([MINUS], 0) == [];
  }

  // ---------- the switch ----------

  /** The replies alone, at most one frame a packet. */
  function Replies<S>(h: Handler<S>, s: S, packets: seq<seq<byte>>): seq<byte> {
    if packets == [] then []
    else
      var (t, _, reaction) := Handle(h, s, true, packets[0]);
      (if Speaks(reaction) then Frame(reaction.text) else [])
      + if Stays(reaction) then Replies(h, t, packets[1..]) else []
  }

  /** Requests as a client sends them once acknowledgments are off. */
  function Bare(packets: seq<seq<byte>>, stray: seq<byte>): seq<Request> {
    if packets == [] then []
    else [Request([], stray, packets[0], [])] + Bare(packets[1..], [])
  }

  lemma {:induction false} BareReplies<S>(h: Handler<S>, s: S, packets: seq<seq<byte>>, stray: seq<byte>)
    ensures ServerStream(h, s, true, Bare(packets, stray)) == Replies(h, s, packets)
  {
    if packets != [] {
      var (t, _, reaction) := Handle(h, s, true, packets[0]);
      var qs := Bare(packets, stray);
      assert qs[1..] == Bare(packets[1..], []);
      BareReplies(h, t, packets[1..], []);
      if Speaks(reaction) {
        assert Repeat(Frame(reaction.text), 1) == Frame(reaction.text) + Repeat(Frame(reaction.text), 0);
      }
    }
  }

  lemma {:induction false} BareIsProper(packets: seq<seq<byte>>, stray: seq<byte>)
    requires Junk(stray) && forall i :: 0 <= i < |packets| ==> Plain(packets[i]) && packets[i] != []
    ensures forall i :: 0 <= i < |Bare(packets, stray)| ==> Proper(Bare(packets, stray)[i])
  {
    if packets != [] {
      var later := Bare(packets[1..], []);
      BareIsProper(packets[1..], []);
      forall i | 0 < i < |Bare(packets, stray)| ensures Proper(Bare(packets, stray)[i]) {
        assert Bare(packets, stray)[i] == later[i - 1];
      }
    }
  }

  lemma SwitchHandled<S>(h: Handler<S>, s: S, noAck: bool)
    ensures Handle(h, s, noAck, START_NO_ACK) == (s, true, Say(OK))
  {
    assert NUL !in START_NO_ACK;
    var text := Str(START_NO_ACK);
    assert |text| == |START_NO_ACK| && text == START_NO_ACK[..|text|];
  }

  lemma AnsweredOnce<S>(h: Handler<S>, s: S, packet: seq<byte>, rest: seq<byte>, t: S, reply: seq<byte>)
    requires Handle(h, s, false, packet) == (t, true, Say(reply))
    ensures Answer(h, s, false, packet, rest) == Frame(reply) + Loop(h, t, true, rest)
  {
    var frame := Frame(reply);
    assert Repeat(frame, 1) == frame + Repeat(frame, 0);
    assert frame + [] == frame;
  }

  /** A packet that turns acknowledgments off is still acknowledged; its reply is sent once. */
  lemma SwitchedBy<S>(h: Handler<S>, s: S, packet: seq<byte>, rest: seq<byte>, t: S, reply: seq<byte>)
    requires Plain(packet) && packet != [] && Handle(h, s, false, packet) == (t, true, Say(reply))
    ensures Loop(h, s, false, Frame(packet) + rest) == [PLUS] + Frame(reply) + Loop(h, t, true, rest)
  {
    var q := Request([], [], packet, []);
    OneRequest(h, s, false, q, rest);
    assert Asked(q) == Frame(packet);
    AnsweredOnce(h, s, packet, rest, t, reply);
    Concat3([PLUS], Frame(reply), Loop(h, t, true, rest));
    assert Repeat([MINUS], 0) + [PLUS] == [PLUS];
  }

  lemma SwitchIsPlain()
    ensures Plain(START_NO_ACK) && START_NO_ACK != []
  {}

  /** The exchange that switches. */
  lemma SwitchRequest<S>(h: Handler<S>, s: S, rest: seq<byte>)
    ensures Loop(h, s, false, Frame(START_NO_ACK) + rest) == [PLUS] + Frame(OK) + Loop(h, s, true, rest)
  {
    SwitchHandled(h, s, false);
    SwitchIsPlain();
    SwitchedBy(h, s, START_NO_ACK, rest, s, OK);
  }

  /** With acknowledgments off every packet gets its reply and nothing else. */
  lemma NoAckServed<S>(h: Handler<S>, s: S, packets: seq<seq<byte>>, stray: seq<byte>)
    requires Junk(stray) && forall i :: 0 <= i < |packets| ==> Plain(packets[i]) && packets[i] != []
    ensures Loop(h, s, true, ClientStream(h, s, true, Bare(packets, stray), [])) == Replies(h, s, packets)
  {
    BareIsProper(packets, stray);
    SessionServed(h, s, true, Bare(packets, stray), []);
    BareReplies(h, s, packets, stray);
  }

  /** The server acknowledges QStartNoAckMode and sends OK without waiting; the '+' that the
      client still sends for the OK is dropped, and from then on every packet gets its reply and
      nothing else. */
  lemma NoAckSwitch<S>(h: Handler<S>, s: S, packets: seq<seq<byte>>, rest: seq<byte>)
    requires forall i :: 0 <= i < |packets| ==> Plain(packets[i]) && packets[i] != []
    requires rest == ClientStream(h, s, true, Bare(packets, [PLUS]), [])
    ensures Loop(h, s, false, Frame(START_NO_ACK) + rest) == [PLUS] + Frame(OK) + Replies(h, s, packets)
  {
    NoAckServed(h, s, packets, [PLUS]);
    SwitchRequest(h, s, rest);
  }
}
