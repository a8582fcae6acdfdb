/** packet_loop (src/server.c) run on a connection, in either mode and across the switch. */
module PacketLoop {
  import opened Memory
  import opened Text
  import opened Framing
  import opened Bursts
  import opened Connection
  import opened Session
  import opened ReadAhead

  /** Replies are C strings. */
  ghost predicate Textual<S(!new)>(h: Handler<S>) {
    forall s: S, packet :: Speaks(h(s, packet).1) ==> NUL !in h(s, packet).1.text
  }

  lemma ReplyIsText<S(!new)>(h: Handler<S>, s: S, noAck: bool, packet: seq<byte>)
    requires Textual(h)
    ensures var reaction := Handle(h, s, noAck, packet).2; Speaks(reaction) ==> NUL !in reaction.text
  {}

  /** What is still to be written, once a packet has been handled and its reaction sent. */
  lemma Reacted<S>(h: Handler<S>, s: S, noAck: bool, packet: seq<byte>, w: Wire, before: seq<byte>)
    requires Arriving(w.bursts)
    ensures var (t, mode, reaction) := Handle(h, s, noAck, packet);
            before + WireAnswer(h, s, noAck, packet, w) ==
            before + Written(w, mode, reaction)
            + if Stays(reaction) then WireLoop(h, t, mode, ReadAhead.Answered(w, mode, reaction)) else []
  {
    hide Handle, Repeat, Frame, WireLoop, AwaitAck;
    var (t, mode, reaction) := Handle(h, s, noAck, packet);
    if reaction.Say? {
      var d := PutPkt(Flat(w.bursts), mode);
      Concat3(before, Repeat(Frame(reaction.text), d.writes), WireLoop(h, t, mode, AfterPut(w, d)));
    } else {
      assert before + [] == before;
    }
  }

  /** What getpkt returns, writes, and leaves of the connection. */
  predicate HasRead(w: Wire, noAck: bool, before: seq<byte>, r: Reading, after: seq<byte>, v: Wire)
    requires Arriving(w.bursts)
  {
    var spec := GetPkt(Bursts.Stream(w), noAck);
    && r == ReadingOf(spec.got) && |Rest(spec.got)| <= |Bursts.Stream(w)|
    && v == Left(w, |Rest(spec.got)|) && after == before + spec.out
  }

  method ReadPacket(remote: Remote) returns (r: Reading)
    requires remote.Valid()
    modifies remote`bursts, remote`outgoing, remote`bufcnt, remote`bufp, remote.buf
    ensures remote.Valid()
    ensures HasRead(old(remote.Connected()), remote.noAckMode, old(remote.outgoing), r, remote.outgoing, remote.Connected())
  {
    hide GetPkt, Left, Reaches, ReadingOf;
    ghost var w := remote.Connected();
    r := remote.GetPacket();
    ReachesLeft(w, remote.Connected());
  }

  /** Send a reaction, if there is something to send. */
  method SendReaction(remote: Remote, reaction: Reaction)
    requires remote.Valid() && (Speaks(reaction) ==> NUL !in reaction.text)
    modifies remote`bursts, remote`outgoing, remote`interrupts
    ensures remote.Valid() && remote.Connected() == ReadAhead.Answered(old(remote.Connected()), remote.noAckMode, reaction)
    ensures remote.outgoing == old(remote.outgoing) + Written(old(remote.Connected()), remote.noAckMode, reaction)
  {
    hide Repeat, Frame, AwaitAck, RawLeft, Flat;
    if Speaks(reaction) {
      var ok := remote.PutPacket(reaction.text);   // packet_loop does not look at the result
    } else {
      assert remote.outgoing + [] == remote.outgoing;
    }
  }

  /** Handle a packet; `more` is false when the server exits. */
  method React<S(!new)>(remote: Remote, h: Handler<S>, s: S, packet: seq<byte>) returns (t: S, more: bool)
    requires remote.Valid() && Textual(h)
    modifies remote`bursts, remote`outgoing, remote`interrupts, remote`noAckMode
    ensures remote.Valid() && |remote.Stream()| <= |old(remote.Stream())|
    ensures old(remote.outgoing) + WireAnswer(h, s, old(remote.noAckMode), packet, old(remote.Connected())) ==
            remote.outgoing + if more then WireLoop(h, t, remote.noAckMode, remote.Connected()) else []
  {
    hide Handle, Repeat, Frame, WireLoop, WireAnswer, AwaitAck, ReadAhead.Answered, PutPkt, Flat;
    Reacted(h, s, remote.noAckMode, packet, remote.Connected(), remote.outgoing);
    ReplyIsText(h, s, remote.noAckMode, packet);
    var handled := Handle(h, s, remote.noAckMode, packet);
    var reaction := handled.2;
    t, remote.noAckMode, more := handled.0, handled.1, Stays(reaction);
    SendReaction(remote, reaction);
  }

  /** One turn of the loop; `more` is false when the loop ends. */
  method Turn<S(!new)>(remote: Remote, h: Handler<S>, s: S) returns (t: S, more: bool)
    requires remote.Valid() && Textual(h)
    modifies remote, remote.buf
    ensures remote.Valid()
    ensures old(remote.outgoing) + WireLoop(h, s, old(remote.noAckMode), old(remote.Connected())) ==
            remote.outgoing + if more then WireLoop(h, t, remote.noAckMode, remote.Connected()) else []
    ensures more ==> |remote.Stream()| < |old(remote.Stream())|
  {
    hide GetPkt, Left, WireAnswer;
    LoopTurns(h, s, remote.noAckMode, remote.Connected(), remote.outgoing);
    var r := ReadPacket(remote);
    match r {
      case Ended => return s, false;
      case Abandoned =>
        return s, true;
      case Received(packet) =>
        if packet == [] {
          return s, false;
        }
        t, more := React(remote, h, s, packet);
    }
  }

  /** What is still to be written after getpkt. */
  function StillToWrite<S>(h: Handler<S>, s: S, noAck: bool, w: Wire, got: Got): seq<byte>
    requires Arriving(w.bursts) && (!got.Eof? ==> |got.rest| <= |Stream(w)|)
  {
    match got
    case Eof => []
    case BadDigit(rest) => WireLoop(h, s, noAck, Left(w, |rest|))
    case Packet(packet, rest) => if packet == [] then [] else WireAnswer(h, s, noAck, packet, Left(w, |rest|))
  }

  lemma LoopTurns<S>(h: Handler<S>, s: S, noAck: bool, w: Wire, before: seq<byte>)
    requires Arriving(w.bursts)
    ensures var r := GetPkt(Stream(w), noAck);
            && (!r.got.Eof? ==> |r.got.rest| < |Stream(w)|)
            && before + WireLoop(h, s, noAck, w) == before + r.out + StillToWrite(h, s, noAck, w, r.got)
  {
    hide GetPkt, Left, WireAnswer;
    var r := GetPkt(Stream(w), noAck);
    assert WireLoop(h, s, noAck, w) == r.out + StillToWrite(h, s, noAck, w, r.got);
    Concat3(before, r.out, StillToWrite(h, s, noAck, w, r.got));
  }

  /** packet_loop from its start, whatever the bursts; it writes what it would on the plain
      stream when what is read ahead is in line at each acknowledgment. */
  method Serve<S(!new)>(remote: Remote, h: Handler<S>, s0: S)
    requires remote.Valid() && Textual(h)
    modifies remote, remote.buf
    ensures remote.outgoing == old(remote.outgoing) + WireLoop(h, s0, old(remote.noAckMode), old(remote.Connected()))
    ensures InStep(h, s0, old(remote.noAckMode), old(remote.Connected())) ==>
              remote.outgoing == old(remote.outgoing) + Loop(h, s0, old(remote.noAckMode), old(remote.Stream()))
  {
    ghost var w, noAck := remote.Connected(), remote.noAckMode;
    if InStep(h, s0, noAck, w) {
      InStepIsLoop(h, s0, noAck, w);
    }
    ServeTurns(remote, h, s0);
  }

  method ServeTurns<S(!new)>(remote: Remote, h: Handler<S>, s0: S)
    requires remote.Valid() && Textual(h)
    modifies remote, remote.buf
    ensures remote.outgoing == old(remote.outgoing) + WireLoop(h, s0, old(remote.noAckMode), old(remote.Connected()))
  {
    hide WireLoop;
    var s, more := s0, true;
    while more
      invariant remote.Valid()
      invariant old(remote.outgoing) + WireLoop(h, s0, old(remote.noAckMode), old(remote.Connected())) ==
                remote.outgoing + if more then WireLoop(h, s, remote.noAckMode, remote.Connected()) else []
      decreases more, |remote.Stream()|
    {
      s, more := Turn(remote, h, s);
    }
  }
}
