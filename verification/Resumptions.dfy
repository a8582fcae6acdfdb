/** What the packets that resume have ptrace do, in literal text: c, s, C and S, and the same
    actions in vCont. */
module Resumptions {
  import opened Memory
  import opened Options
  import opened Text
  import opened CLibrary
  import opened Packets
  import opened Numerals
  import opened Spelling
  import opened VCont

  /** c lets the process run on and s has it take one step, whatever follows the letter. */
  lemma StepsSpelled(hostSignals: Signals, pid: int, rest: seq<byte>)
    ensures IsResume(hostSignals, Ascii("c") + rest) && IsResume(hostSignals, Ascii("s") + rest)
    ensures OrderOf(hostSignals, pid, Ascii("c") + rest) == Order(pid, false, 0)
    ensures OrderOf(hostSignals, pid, Ascii("s") + rest) == Order(pid, true, 0)
  {
    hide Parse;
    assert Ascii("c")[0] == LOWER_C && Ascii("s")[0] == LOWER_S;
  }

  /** The signal of C or S, which is cut down to a byte; one that the host does not have is none. */
  function Delivered(hostSignals: Signals, v: byte): int {
    match hostSignals(v)
    case None => 0
    case Some(number) => number % 256
  }

  lemma PairSpelled(letter: byte, v: byte, rest: seq<byte>)
    ensures var text := [letter] + HexEncode([v]) + rest;
            text[0] == letter && GoodPair(text[1..], 0) && PairAt(text[1..], 0) == v
  {
    var text := [letter] + HexEncode([v]) + rest;
    assert text[1..] == HexEncode([v]) + rest;
    EncodedPair([v], rest, 0);
  }

  /** C runs on and S steps, with the signal of the two digits. */
  lemma SignalSpelled(hostSignals: Signals, pid: int, letter: byte, v: byte, rest: seq<byte>)
    requires letter in {Letter('C'), Letter('S')}
    ensures var packet := [letter] + HexEncode([v]) + rest;
            && IsResume(hostSignals, packet)
            && OrderOf(hostSignals, pid, packet) == Order(pid, letter == Letter('S'), Delivered(hostSignals, v))
  {
    PairSpelled(letter, v, rest);
    hide Parse, HexEncode, PairAt, GoodPair;
  }

  // ---------- vCont ----------

  /** The actions as they are printed, and what they mean. */
  lemma ActionsSpelled(hostSignals: Signals, digits: seq<byte>)
    requires AllHex(digits) && HexValue(digits) <= 0x7fff_ffff && hostSignals(HexValue(digits)).Some?
    ensures forall letter: byte :: letter in {Letter('c'), Letter('s')} ==>
              Known(Act(letter, []), hostSignals) && HostSig(Act(letter, []), hostSignals) == 0
    ensures forall letter: byte :: letter in {Letter('C'), Letter('S')} ==>
              && Known(Act(letter, digits), hostSignals)
              && HostSig(Act(letter, digits), hostSignals) == hostSignals(HexValue(digits)).value
    ensures forall letter: byte, ds :: Steps(Act(letter, ds)) <==> letter in {Letter('s'), Letter('S')}
  {}

  lemma WishesSpelled(n: Named, a: Act)
    ensures PrintWish(ForThread(n)) ==
            Ascii(";") + [n.act.letter] + n.act.digits + (Ascii(":") + (if n.negative then Ascii("-") else []) + n.digits)
    ensures PrintWish(ForAll(a)) == Ascii(";") + [a.letter] + a.digits
  {
    Marks();
    hide Ascii;
    Concat3([SEMICOLON], [n.act.letter], n.act.digits);
    Concat3([SEMICOLON], [a.letter], a.digits);
  }

  lemma AlonePrinted(act: Act)
    ensures VCONT + PrintWishes([ForAll(act)]) == Ascii("vCont;") + ([act.letter] + act.digits)
  {
    var ws := [ForAll(act)];
    assert ws[1..] == [] && Ascii("vCont;") == VCONT + [SEMICOLON];
    hide Ascii;
    assert PrintWishes(ws) == PrintWish(ws[0]);
    assert VCONT + ([SEMICOLON] + ([act.letter] + act.digits)) == VCONT + [SEMICOLON] + ([act.letter] + act.digits);
  }

  lemma AloneParsed(hostSignals: Signals, act: Act, pid: int)
    requires Known(act, hostSignals)
    ensures var slots := Parse(VCONT + PrintWishes([ForAll(act)]), hostSignals);
            slots == Some([Slot(act, -1, hostSignals)]) && Terminated(slots.value)
            && Choose(slots.value, pid) == Slot(act, -1, hostSignals)
  {
    var ws := [ForAll(act)];
    VContObeysIff(ws, hostSignals, pid);
    hide Parse, PrintWishes, Known, HostSig, Obeys, Given, Wanted, Respected;
    assert ws[1..] == [] && Slots(ws, hostSignals) == [];
    assert [] + [Default(ws, hostSignals, LEAVE_STOPPED)] == [Slot(act, -1, hostSignals)];
  }

  /** A vCont packet with one action for all threads. */
  lemma AloneSpelled(hostSignals: Signals, pid: int, act: Act)
    requires Known(act, hostSignals)
    ensures var packet := Ascii("vCont;") + ([act.letter] + act.digits);
            && IsResume(hostSignals, packet)
            && OrderOf(hostSignals, pid, packet) == Order(pid, Steps(act), HostSig(act, hostSignals))
  {
    var packet := Ascii("vCont;") + ([act.letter] + act.digits);
    assert packet[..5] == VCONT && packet[5] == SEMICOLON;
    hide Ascii, Parse, PrintWishes, Known, HostSig, Choose, Steps;
    AlonePrinted(act);
    AloneParsed(hostSignals, act, pid);
  }

  /** C or S with the two digits of a signal that the host has. */
  lemma SignalKnown(hostSignals: Signals, letter: byte, v: byte)
    requires letter in {Letter('C'), Letter('S')} && hostSignals(v).Some?
    ensures var act := Act(letter, HexEncode([v]));
            && Known(act, hostSignals) && HostSig(act, hostSignals) == hostSignals(v).value
            && (Steps(act) <==> letter == Letter('S'))
  {
    HexEncodeValue(v);
    hide HexEncode, HexValue, AllHex;
  }

  /** c and s order what vCont;c and vCont;s order. */
  lemma SameSteps(hostSignals: Signals, pid: int)
    ensures OrderOf(hostSignals, pid, Ascii("c")) == OrderOf(hostSignals, pid, Ascii("vCont;c")) == Order(pid, false, 0)
    ensures OrderOf(hostSignals, pid, Ascii("s")) == OrderOf(hostSignals, pid, Ascii("vCont;s")) == Order(pid, true, 0)
  {
    assert Ascii("vCont;c") == Ascii("vCont;") + ([LOWER_C] + []);
    assert Ascii("vCont;s") == Ascii("vCont;") + ([LOWER_S] + []);
    assert Ascii("c") + [] == Ascii("c") && Ascii("s") + [] == Ascii("s");
    hide Ascii, OrderOf, IsResume;
    StepsSpelled(hostSignals, pid, []);
    AloneSpelled(hostSignals, pid, Act(LOWER_C, []));
    AloneSpelled(hostSignals, pid, Act(LOWER_S, []));
  }

  /** C and S with a signal that the host has order what vCont has for them exactly when the
      host's number is a byte. */
  lemma SameSignalIff(hostSignals: Signals, pid: int, letter: byte, v: byte)
    requires letter in {Letter('C'), Letter('S')} && hostSignals(v).Some?
    ensures var packet := [letter] + HexEncode([v]);
            OrderOf(hostSignals, pid, packet) == OrderOf(hostSignals, pid, Ascii("vCont;") + packet)
            <==> 0 <= hostSignals(v).value < 256
  {
    var packet, step := [letter] + HexEncode([v]), letter == Letter('S');
    assert OrderOf(hostSignals, pid, packet) == Order(pid, step, Delivered(hostSignals, v)) by {
      hide OrderOf, HexEncode, Delivered, IsResume;
      SignalSpelled(hostSignals, pid, letter, v, []);
      assert packet + [] == packet;
    }
    assert OrderOf(hostSignals, pid, Ascii("vCont;") + packet) == Order(pid, step, hostSignals(v).value) by {
      hide OrderOf, HexEncode, Known, HostSig, Steps, Ascii, IsResume;
      SignalKnown(hostSignals, letter, v);
      AloneSpelled(hostSignals, pid, Act(letter, HexEncode([v])));
    }
    hide OrderOf, Ascii, HexEncode;
  }

  /** The parser gives up at a signal that the host does not have. */
  lemma UnknownInVCont(hostSignals: Signals, text: seq<byte>, letter: byte, digits: seq<byte>)
    requires letter in {UPPER_C, UPPER_S} && text == VCONT + [SEMICOLON] + [letter] + digits + []
    requires AllHex(digits) && digits != [] && HexValue(digits) <= LONG_MAX && hostSignals(HexValue(digits)).None?
    ensures Parse(text, hostSignals) == None
  {
    StrtolReads(text, VCONT + [SEMICOLON] + [letter], digits, [], false, 7);
    hide Strtol, AllHex, HexValue;
    assert text[6] == letter && ParseItem(text, 6, hostSignals) == None;
    hide ParseItem, AfterItem;
    assert RoundAt(text, hostSignals, START) == None;
  }

  /** With one that the host does not have, C and S go on without a signal, and vCont is refused. */
  lemma UnknownSignal(hostSignals: Signals, pid: int, letter: byte, v: byte)
    requires letter in {Letter('C'), Letter('S')} && hostSignals(v).None?
    ensures var packet := [letter] + HexEncode([v]);
            && OrderOf(hostSignals, pid, packet) == Order(pid, letter == Letter('S'), 0)
            && !IsResume(hostSignals, Ascii("vCont;") + packet)
  {
    var packet, digits := [letter] + HexEncode([v]), HexEncode([v]);
    var text := Ascii("vCont;") + packet;
    assert Ascii("vCont;") == VCONT + [SEMICOLON];
    assert packet + [] == packet && text == VCONT + [SEMICOLON] + [letter] + digits + [];
    HexEncodeValue(v);
    SignalSpelled(hostSignals, pid, letter, v, []);
    hide Ascii, HexEncode, HexValue, AllHex, OrderOf, Parse;
    UnknownInVCont(hostSignals, text, letter, digits);
  }

  /** The reply to vCont? names the letters that vCont takes, and no others. */
  lemma VContAnswer(id: nat, alive: int -> bool, hostSignals: Signals, letter: byte)
    requires hostSignals(0).Some?
    ensures FixedReply(id, alive, Ascii("vCont?")) == Ascii("vCont;c;C;s;S")
    ensures IsResume(hostSignals, Ascii("vCont;") + [letter]) <==>
            letter in {Letter('c'), Letter('C'), Letter('s'), Letter('S')}
  {
    var text := Ascii("vCont;") + [letter];
    assert Ascii("vCont;") == VCONT + [SEMICOLON] && text[..5] == VCONT && text[5] == SEMICOLON && text[6] == letter;
    hide Ascii, QueryReply;
    assert !NumberAt(text, 7);
    LetterAlone(hostSignals, text, letter);
  }

  lemma LetterAlone(hostSignals: Signals, text: seq<byte>, letter: byte)
    requires |text| == 7 && text[6] == letter && hostSignals(0).Some? && !NumberAt(text, 7)
    ensures Parse(text, hostSignals).Some? <==> letter in {LOWER_C, UPPER_C, LOWER_S, UPPER_S}
  {
    if letter in {UPPER_C, UPPER_S} {
      MissingSignal(text, 6, hostSignals);
    }
    hide Strtol, NumberAt;
    var item := ParseItem(text, 6, hostSignals);
    assert item.Some? <==> letter in {LOWER_C, UPPER_C, LOWER_S, UPPER_S};
    assert item.Some? ==> item.value.end == 7;
    var next := RoundAt(text, hostSignals, START);
    assert next.Some? <==> item.Some?;
    assert next.Some? ==> next.value.p == 7 && ParseFrom(text, hostSignals, next.value).Some?;
    assert ParseFrom(text, hostSignals, START).Some? <==> next.Some?;
  }
}
