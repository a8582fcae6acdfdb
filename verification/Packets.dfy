/** The packets of handle_packet (src/server.c) that have to do with neither memory nor registers:
    which they are, and what the server says to them. One thread, as the Darwin target has. */
module Packets {
  import opened Memory
  import opened Protocol
  import opened Text
  import opened CLibrary
  import HexCodec
  import VCont

  predicate StartsWith(text: seq<byte>, prefix: seq<byte>) {
    |prefix| <= |text| && text[..|prefix|] == prefix
  }

  /** C or S, whose signal is read by parse_signal_byte. */
  predicate HasSignal(packet: seq<byte>) {
    CharAt(packet, 0) in {VCont.UPPER_C, VCont.UPPER_S}
  }

  /** vCont with actions, accepted or not. */
  predicate IsVCont(packet: seq<byte>) {
    |packet| > |VCont.VCONT| && packet[..|VCont.VCONT|] == VCont.VCONT && packet[|VCont.VCONT|] == SEMICOLON
  }

  /** The packets that resume the inferior: c and s, C and S with two digits, and vCont with
      actions that parse. */
  predicate IsResume(hostSignals: VCont.Signals, packet: seq<byte>) {
    || CharAt(packet, 0) in {VCont.LOWER_C, VCont.LOWER_S}
    || (HasSignal(packet) && GoodPair(packet[1..], 0))
    || (IsVCont(packet) && VCont.Parse(packet, hostSignals).Some?)
  }

  /** What ptrace is called with: the process, whether to step, and the signal to deliver. */
  datatype Order = Order(pid: int, step: bool, sig: int)

  /** parse_signal_byte */
  function SignalByte(hostSignals: VCont.Signals, sig: byte): byte {
    var host := hostSignals(sig);
    if host.None? then 0 else host.value % 256
  }

  /** What a packet that resumes has ptrace do to process `pid`. */
  function OrderOf(hostSignals: VCont.Signals, pid: int, packet: seq<byte>): Order {
    if IsVCont(packet) then
      VCont.ParseTerminates(packet, hostSignals);
      var slots := VCont.Parse(packet, hostSignals);
      if slots.None? then Order(pid, false, 0)
      else
        var r := VCont.Choose(slots.value, pid);
        Order(pid, r.step, r.sig)
    else
      Order(pid, CharAt(packet, 0) in {VCont.LOWER_S, VCont.UPPER_S},
            if HasSignal(packet) && GoodPair(packet[1..], 0) then SignalByte(hostSignals, PairAt(packet[1..], 0)) else 0)
  }

  /** A vCont packet with well-formed actions has the process do what was asked of it exactly when
      their order is respected. */
  lemma OrderObeysIff(ws: seq<VCont.Wish>, hostSignals: VCont.Signals, pid: int)
    requires VCont.Sound(ws, hostSignals) && ws != []
    ensures var packet := VCont.VCONT + VCont.PrintWishes(ws);
            && IsResume(hostSignals, packet)
            && var order := OrderOf(hostSignals, pid, packet);
               (order.step, order.sig) == VCont.Effect(VCont.Wanted(ws, hostSignals, pid), hostSignals)
               <==> VCont.Respected(ws, hostSignals, pid)
  {
    hide VCont.PrintWishes, VCont.Parse, VCont.Effect, VCont.Wanted, VCont.Respected, VCont.Choose, VCont.Given;
    VCont.VContObeysIff(ws, hostSignals, pid);
    VCont.WishesGoOn(ws);
    var packet := VCont.VCONT + VCont.PrintWishes(ws);
    assert packet[..|VCont.VCONT|] == VCont.VCONT && packet[|VCont.VCONT|] == SEMICOLON;
  }

  /** handle_query for the only thread `id`. */
  function QueryReply(id: nat, packet: seq<byte>): seq<byte> {
    if packet == Ascii("qC") then Ascii("QC") + HexNumber(id)
    else if StartsWith(packet, Ascii("qSupported")) then Ascii("PacketSize=") + HexNumber(PBUFSIZ - 1)
    else if packet == Ascii("qAttached") then Ascii("0")
    else if packet == Ascii("qSymbol::") then OK
    else if packet == Ascii("qfThreadInfo") then Ascii("m") + HexNumber(id)
    else if packet == Ascii("qsThreadInfo") then Ascii("l")
    else []
  }

  /** The reply to a packet that reads and writes nothing of the inferior: `alive` is whether the
      thread that a T packet asks for is. An unknown letter gets the empty reply, and d, which
      only toggles tracing, gets itself. What QStartNoAckMode does besides is in Session.Handle. */
  function FixedReply(id: nat, alive: int -> bool, packet: seq<byte>): seq<byte> {
    var c := CharAt(packet, 0);
    if c == Letter('q') then QueryReply(id, packet)
    else if c == Letter('Q') then
      if packet == START_NO_ACK || StartsWith(packet, Ascii("QPassSignals:")) then OK else []
    else if c == Letter('d') then packet
    else if c == Letter('!') then OK
    else if c == Letter('H') then if CharAt(packet, 1) in {Letter('g'), Letter('c'), Letter('s')} then OK else []
    else if c == Letter('T') then if alive(Strtol(packet, if packet == [] then 0 else 1).0) then OK else ERROR
    else if c == Letter('v') then if StartsWith(packet, Ascii("vCont?")) then Ascii("vCont;c;C;s;S") else []
    else []
  }

  /** D: the server says OK and is gone; k: it is gone at once. */
  predicate IsDetach(packet: seq<byte>) {
    CharAt(packet, 0) == Letter('D')
  }

  predicate IsKill(packet: seq<byte>) {
    CharAt(packet, 0) == Letter('k')
  }

  lemma AsciiIsText(s: string)
    requires forall i :: 0 <= i < |s| ==> 0 < s[i] as int < 256
    ensures NUL !in Ascii(s)
  {}

  lemma QueryReplyFits(id: nat, packet: seq<byte>)
    requires |HexNumber(id)| <= 8
    ensures NUL !in QueryReply(id, packet) && |QueryReply(id, packet)| <= 20
  {
    hide HexNumber;
    HexIsText([], id);
    HexIsText([], PBUFSIZ - 1);
    HexCodec.HexNumberLength(PBUFSIZ - 1, 3);
    assert HexCodec.Power16(3) == 4096;
    AsciiIsText("QC");
    AsciiIsText("PacketSize=");
    AsciiIsText("0");
    AsciiIsText("m");
    AsciiIsText("l");
  }

  /** The fixed replies are texts, and short but for the echo of d. */
  lemma FixedReplyFits(id: nat, alive: int -> bool, packet: seq<byte>)
    requires NUL !in packet && |HexNumber(id)| <= 8
    ensures var reply := FixedReply(id, alive, packet);
            NUL !in reply && (|reply| <= 20 || (reply == packet && CharAt(packet, 0) == Letter('d')))
  {
    hide QueryReply;
    QueryReplyFits(id, packet);
    AsciiIsText("vCont;c;C;s;S");
  }
}
