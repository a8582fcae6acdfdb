/** The same for the packets that ask about the server, and for the end of the session. */
module SessionTranscript {
  import opened Memory
  import opened Text
  import opened CLibrary
  import opened Spelling
  import opened Packets
  import opened Session
  import opened EndToEnd
  import MemoryServer
  import RegisterServer
  import RegisterCache
  import VCont

  /** What the other letters start is about neither memory nor registers, and resumes nothing. */
  predicate SetApart(text: seq<byte>) {
    && text != []
    && text[0] !in {Letter('m'), Letter('M'), Letter('Z'), Letter('z'), Letter('?'), Letter('g'), Letter('G')}
    && text[0] !in {Letter('p'), Letter('P'), Letter('c'), Letter('s'), Letter('C'), Letter('S'), Letter('v')}
  }

  lemma ApartFromMemory(text: seq<byte>)
    requires SetApart(text)
    ensures !IsMemory(text)
  {}

  lemma ApartFromRegisters(k: Setup, text: seq<byte>)
    requires SetApart(text) && RegisterCache.PpcTable(k.sizes)
    ensures !IsRegister(k, text)
  {}

  lemma ApartFromResume(k: Setup, text: seq<byte>)
    requires SetApart(text)
    ensures !IsResume(k.hostSignals, text)
  {
    hide VCont.Parse;
    assert VCont.VCONT[0] == Letter('v');
  }

  lemma SetAside(k: Setup, s: Machine, text: seq<byte>)
    requires Sound(k, s) && SetApart(text)
    ensures RealReaction(k, s, text) == (s, Aside(k, s.runs, text))
  {
    ApartFromMemory(text);
    ApartFromRegisters(k, text);
    ApartFromResume(k, text);
    hide IsMemory, IsRegister, IsResume, Aside, SetApart;
  }

  // ---------- what ends the session ----------

  /** D is answered OK and k not at all, and the server is gone. */
  lemma LeavingTranscript(k: Setup, s: Machine, rest: seq<byte>)
    requires Sound(k, s)
    ensures RealReaction(k, s, Ascii("D") + rest) == (s, Farewell(Ascii("OK")))
    ensures RealReaction(k, s, Ascii("k") + rest) == (s, Quit)
  {
    Marks();
    assert Ascii("D") == [Letter('D')] && Ascii("k") == [Letter('k')];
    hide RealReaction, Ascii, FixedReply;
    SetAside(k, s, [Letter('D')] + rest);
    SetAside(k, s, [Letter('k')] + rest);
  }

  lemma ReactionStaysIff(k: Setup, s: Machine, text: seq<byte>)
    requires Sound(k, s)
    ensures !Stays(RealReaction(k, s, text).1) <==> CharAt(text, 0) in {Letter('D'), Letter('k')}
  {
    if CharAt(text, 0) in {Letter('D'), Letter('k')} {
      SetAside(k, s, text);
      hide RealReaction, FixedReply;
    } else {
      hide IsMemory, IsRegister, IsResume, FixedReply, RegisterServer.Reply, MemoryServer.ReplyText;
      hide MemoryServer.MemCommand, RegisterServer.RegCommand, CharAt;
    }
  }

  /** The server stays after every other packet, unless it has something to say and the inferior
      has exited or was terminated: W or X. */
  lemma SessionEndsIff(k: Setup, s: Machine, text: seq<byte>)
    requires Sound(k, s) && NUL !in text
    ensures var (t, reaction) := Real(k)(s, text);
            !Stays(reaction) <==>
            || CharAt(text, 0) in {Letter('D'), Letter('k')}
            || (Speaks(reaction) && t.regs.stop.status in {Letter('W'), Letter('X')})
  {
    StrAgain(text);
    ReactionStaysIff(k, s, text);
    hide RealReaction, Str;
  }

  // ---------- questions about the server ----------

  /** T is answered OK for a thread that is alive, and E01 for one that is not. */
  lemma AliveTranscript(k: Setup, s: Machine, id: nat)
    requires Sound(k, s) && id <= 0x7fff_ffff
    ensures RealReaction(k, s, Ascii("T") + HexNumber(id)) ==
            (s, Say(if k.alive(s.runs)(id) then Ascii("OK") else Ascii("E01")))
  {
    var text := Ascii("T") + HexNumber(id);
    Marks();
    assert Ascii("T") == [Letter('T')];
    ThreadAsked(text, id);
    SetAside(k, s, text);
    hide RealReaction, Ascii, HexNumber, Strtol, QueryReply;
  }

  lemma ThreadAsked(text: seq<byte>, id: nat)
    requires text == [Letter('T')] + HexNumber(id) && id <= LONG_MAX
    ensures Strtol(text, 1).0 == id
  {
    HexNumberValue(id);
    hide HexNumber, HexValue, AllHex, Strtol;
    assert text == [Letter('T')] + HexNumber(id) + [];
    StrtolReads(text, [Letter('T')], HexNumber(id), [], false, 1);
  }

  lemma QueriesSpelled(id: nat, alive: int -> bool)
    ensures FixedReply(id, alive, Ascii("qC")) == Ascii("QC") + HexNumber(id)
    ensures FixedReply(id, alive, Ascii("qAttached")) == Ascii("0")
  {
    hide HexNumber;
  }

  lemma FirstThreadSpelled(id: nat, alive: int -> bool)
    ensures FixedReply(id, alive, Ascii("qfThreadInfo")) == Ascii("m") + HexNumber(id)
  {
    hide HexNumber;
    var text := Ascii("qfThreadInfo");
    assert |text| == 12 && text[0] == 113 && text[1] == 102;
    assert Ascii("qSupported")[1] == 83;
  }

  lemma NextThreadSpelled(id: nat, alive: int -> bool)
    ensures FixedReply(id, alive, Ascii("qsThreadInfo")) == Ascii("l")
  {
    hide HexNumber;
    var text := Ascii("qsThreadInfo");
    assert |text| == 12 && text[0] == 113 && text[1] == 115;
    assert Ascii("qSupported")[1] == 83 && Ascii("qfThreadInfo")[1] == 102;
  }

  lemma SupportedSpelled(id: nat, alive: int -> bool, rest: seq<byte>)
    ensures FixedReply(id, alive, Ascii("qSupported") + rest) == Ascii("PacketSize=") + HexNumber(1999)
  {
    hide HexNumber;
    var text, word := Ascii("qSupported") + rest, Ascii("qSupported");
    assert text[..10] == word && text[0] == 113;
  }

  /** The thread that qC names, and that the enumeration lists, is the one that stop replies name;
      qSupported is told how long a packet may be. */
  lemma QueriesTranscript(k: Setup, s: Machine, rest: seq<byte>)
    requires Sound(k, s)
    ensures RealReaction(k, s, Ascii("qC")) == (s, Say(Ascii("QC") + HexNumber(k.id)))
    ensures RealReaction(k, s, Ascii("qAttached")) == (s, Say(Ascii("0")))
    ensures RealReaction(k, s, Ascii("qfThreadInfo")) == (s, Say(Ascii("m") + HexNumber(k.id)))
    ensures RealReaction(k, s, Ascii("qsThreadInfo")) == (s, Say(Ascii("l")))
    ensures RealReaction(k, s, Ascii("qSupported") + rest) == (s, Say(Ascii("PacketSize=") + HexNumber(1999)))
  {
    QueriesSpelled(k.id, k.alive(s.runs));
    FirstThreadSpelled(k.id, k.alive(s.runs));
    NextThreadSpelled(k.id, k.alive(s.runs));
    SupportedSpelled(k.id, k.alive(s.runs), rest);
    hide RealReaction, FixedReply, HexNumber, QueryReply;
    Asked(k, s, Ascii("qC"));
    Asked(k, s, Ascii("qAttached"));
    Asked(k, s, Ascii("qfThreadInfo"));
    Asked(k, s, Ascii("qsThreadInfo"));
    Asked(k, s, Ascii("qSupported") + rest);
  }

  lemma Asked(k: Setup, s: Machine, text: seq<byte>)
    requires Sound(k, s) && SetApart(text) && text[0] !in {Letter('D'), Letter('k')}
    ensures RealReaction(k, s, text) == (s, Say(FixedReply(k.id, k.alive(s.runs), text)))
  {
    SetAside(k, s, text);
    hide RealReaction, FixedReply;
  }

  // ---------- requests ----------

  lemma RequestsSpelled(id: nat, alive: int -> bool, rest: seq<byte>)
    ensures FixedReply(id, alive, Ascii("!") + rest) == Ascii("OK")
    ensures FixedReply(id, alive, Ascii("Hg") + rest) == FixedReply(id, alive, Ascii("Hc") + rest) == Ascii("OK")
    ensures FixedReply(id, alive, Ascii("Hs") + rest) == Ascii("OK")
    ensures FixedReply(id, alive, Ascii("d") + rest) == Ascii("d") + rest
    ensures FixedReply(id, alive, Ascii("R") + rest) == []
  {
    hide QueryReply, StartsWith;
  }

  lemma SettingsSpelled(id: nat, alive: int -> bool, rest: seq<byte>)
    ensures FixedReply(id, alive, Ascii("QStartNoAckMode")) == Ascii("OK")
    ensures FixedReply(id, alive, Ascii("QPassSignals:") + rest) == Ascii("OK")
    ensures FixedReply(id, alive, Ascii("QNonStop:") + rest) == []
  {
    hide QueryReply;
    Words();
    var word, text := Ascii("QPassSignals:"), Ascii("QPassSignals:") + rest;
    assert text[..13] == word && text[0] == 81;
    var other := Ascii("QNonStop:") + rest;
    assert other[0] == 81 && other[1] == 78 && word[1] == 80 && Ascii("QStartNoAckMode")[1] == 83;
  }

  /** Letters that mean nothing are refused with the empty reply. */
  lemma UnknownTranscript(k: Setup, s: Machine, letter: byte, rest: seq<byte>)
    requires Sound(k, s) && letter !in Ascii("qQdD!?HgGpP") && letter !in Ascii("mMCSsckTvZz")
    ensures RealReaction(k, s, [letter] + rest) == (s, Say([]))
  {
    var text := [letter] + rest;
    SomeLetters();
    OtherLetters();
    hide RealReaction, QueryReply, StartsWith, Ascii;
    Asked(k, s, text);
  }

  lemma SomeLetters()
    ensures var w := Ascii("qQdD!?HgGpP");
            w[0] == Letter('q') && w[1] == Letter('Q') && w[2] == Letter('d') && w[3] == Letter('D')
    ensures var w := Ascii("qQdD!?HgGpP");
            w[4] == Letter('!') && w[5] == Letter('?') && w[6] == Letter('H') && w[7] == Letter('g')
    ensures var w := Ascii("qQdD!?HgGpP");
            w[8] == Letter('G') && w[9] == Letter('p') && w[10] == Letter('P')
  {}

  lemma OtherLetters()
    ensures var w := Ascii("mMCSsckTvZz");
            w[0] == Letter('m') && w[1] == Letter('M') && w[2] == Letter('C') && w[3] == Letter('S')
    ensures var w := Ascii("mMCSsckTvZz");
            w[4] == Letter('s') && w[5] == Letter('c') && w[6] == Letter('k') && w[7] == Letter('T')
    ensures var w := Ascii("mMCSsckTvZz");
            w[8] == Letter('v') && w[9] == Letter('Z') && w[10] == Letter('z')
  {}

  lemma OtherRequestsSpelled(id: nat, alive: int -> bool, c: byte, rest: seq<byte>)
    ensures c !in {Letter('g'), Letter('c'), Letter('s')} ==> FixedReply(id, alive, Ascii("H") + [c] + rest) == []
    ensures c !in {Letter('C'), Letter('S'), Letter('A'), Letter('f'), Letter('s')} ==>
              FixedReply(id, alive, Ascii("q") + [c] + rest) == []
    ensures c !in {Letter('S'), Letter('P')} ==> FixedReply(id, alive, Ascii("Q") + [c] + rest) == []
  {
    Words();
    var q := Ascii("q") + [c] + rest;
    assert q[0] == 113 && q[1] == c;
    assert Ascii("qC")[1] == 67 && Ascii("qSupported")[1] == 83 && Ascii("qAttached")[1] == 65;
    assert Ascii("qSymbol::")[1] == 83 && Ascii("qfThreadInfo")[1] == 102 && Ascii("qsThreadInfo")[1] == 115;
    var s := Ascii("Q") + [c] + rest;
    assert s[0] == 81 && s[1] == c && Ascii("QStartNoAckMode")[1] == 83 && Ascii("QPassSignals:")[1] == 80;
    var h := Ascii("H") + [c] + rest;
    assert h[0] == 72 && h[1] == c;
    hide Ascii;
  }

  // ---------- packets that are given up ----------

  /** C and S without two digits get no reply and resume nothing. */
  lemma BadSignalTranscript(k: Setup, s: Machine, letter: byte, rest: seq<byte>)
    requires Sound(k, s) && letter in {Letter('C'), Letter('S')} && !GoodPair(rest, 0)
    ensures RealReaction(k, s, [letter] + rest) == (s, Silence)
  {
    var text := [letter] + rest;
    assert text[1..] == rest;
    assert VCont.VCONT[0] == Letter('v');
    hide GoodPair, FixedReply, VCont.Parse;
  }

  /** A vCont that the parser rejects gets the empty reply and resumes nothing. */
  lemma RejectedTranscript(k: Setup, s: Machine, rest: seq<byte>)
    requires Sound(k, s) && VCont.Parse(Ascii("vCont;") + rest, k.hostSignals).None?
    ensures RealReaction(k, s, Ascii("vCont;") + rest) == (s, Say([]))
  {
    var text := Ascii("vCont;") + rest;
    assert text[0] == Letter('v') && text[5] == SEMICOLON && Ascii("vCont?")[5] == 63;
    hide VCont.Parse, Ascii, QueryReply;
  }
}
