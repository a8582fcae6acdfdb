/** The protocol in literal text: marks, frames and packets as they stand on the line. */
module Spelling {
  import opened Memory
  import opened Options
  import opened Protocol
  import opened Text
  import opened CLibrary
  import opened HexCodec
  import opened Framing
  import opened Session
  import opened Numerals
  import opened RegisterLayout
  import opened RegisterCache
  import MemoryServer
  import RegisterRuns
  import RegisterServer
  import ShadowRuns
  import VCont

  lemma Marks()
    ensures [DOLLAR] == Ascii("$") && [HASH] == Ascii("#") && [PLUS] == Ascii("+") && [MINUS] == Ascii("-")
    ensures [COMMA] == Ascii(",") && [COLON] == Ascii(":") && [SEMICOLON] == Ascii(";") && NUL == 0 && CTRL_C == 3
    ensures OK == Ascii("OK") && ERROR == Ascii("E01")
  {}

  lemma Words()
    ensures START_NO_ACK == Ascii("QStartNoAckMode") && VCont.VCONT == Ascii("vCont")
    ensures RegisterServer.THREAD == Ascii("thread:")
  {}

  /** readchar drops the top bit and keeps the others. */
  lemma MaskSpelled(b: byte)
    ensures Mask(b) < 128 && b in {Mask(b), Mask(b) + 128}
  {}

  // ---------- frames ----------

  lemma FrameSpelled(payload: seq<byte>)
    ensures Frame(payload) == Ascii("$") + payload + Ascii("#") + HexEncode([Checksum(payload)])
  {
    Marks();
    HexEncodeByte(Checksum(payload));
    ToHexSpelled(Checksum(payload) / 16);
    ToHexSpelled(Checksum(payload) % 16);
  }

  lemma SumOf(a: byte, b: byte, c: byte, d: byte, e: byte)
    ensures Sum([a, b, c, d, e]) == a + b + c + d + e
  {
    SumConcat([a], [b, c, d, e]);
    SumConcat([b], [c, d, e]);
    SumConcat([c], [d, e]);
    SumConcat([d], [e]);
    assert [a] + [b, c, d, e] == [a, b, c, d, e] && [b] + [c, d, e] == [b, c, d, e];
    assert [c] + [d, e] == [c, d, e] && [d] + [e] == [d, e];
    ChecksumAddsUp([], [], a);
    SumOne(a);
    SumOne(b);
    SumOne(c);
    SumOne(d);
    SumOne(e);
  }

  lemma SumOne(b: byte)
    ensures Sum([b]) == b
  {
    assert [b][..0] == [];
  }

  lemma OkSum()
    ensures Checksum(Ascii("OK")) == 0x9a
  {
    assert Ascii("OK") == [79] + [75];
    hide Sum, Ascii;
    SumConcat([79], [75]);
    SumOne(79);
    SumOne(75);
  }

  lemma OkFramed()
    ensures Frame(Ascii("OK")) == Ascii("$OK#9a")
  {
    assert HexEncode([0x9a]) == Ascii("9a") by {
      HexEncodeByte(0x9a);
    }
    OkSum();
    hide HexEncode, Frame, Checksum;
    FrameSpelled(Ascii("OK"));
    assert Ascii("$") + Ascii("OK") + Ascii("#") + Ascii("9a") == Ascii("$OK#9a");
  }

  /** "QStartNoAckMode" adds up to 0xb0. */
  lemma SwitchSum()
    ensures Checksum(Ascii("QStartNoAckMode")) == 0xb0
  {
    var a, b, c := Ascii("QStar"), Ascii("tNoAc"), Ascii("kMode");
    assert a + b + c == Ascii("QStartNoAckMode");
    assert a == [81, 83, 116, 97, 114] && b == [116, 78, 111, 65, 99] && c == [107, 77, 111, 100, 101];
    hide Ascii, Sum;
    SumOf(81, 83, 116, 97, 114);
    SumOf(116, 78, 111, 65, 99);
    SumOf(107, 77, 111, 100, 101);
    SumConcat(a, b);
    SumConcat(a + b, c);
  }

  lemma SwitchFramed()
    ensures Frame(Ascii("QStartNoAckMode")) == Ascii("$QStartNoAckMode#b0")
  {
    assert HexEncode([0xb0]) == Ascii("b0") by {
      HexEncodeByte(0xb0);
    }
    SwitchSum();
    hide HexEncode, Frame, Checksum;
    FrameSpelled(Ascii("QStartNoAckMode"));
    assert Ascii("$") + Ascii("QStartNoAckMode") + Ascii("#") + Ascii("b0") == Ascii("$QStartNoAckMode#b0");
  }

  /** The switch, byte for byte. */
  lemma SwitchOnTheLine<S>(h: Handler<S>, s: S, rest: seq<byte>)
    ensures Loop(h, s, false, Ascii("$QStartNoAckMode#b0") + rest) == Ascii("+") + Ascii("$OK#9a") + Loop(h, s, true, rest)
  {
    Words();
    Marks();
    SwitchFramed();
    OkFramed();
    hide Ascii, Frame, Loop;
    SwitchRequest(h, s, rest);
  }

  lemma ReceivedWith(digit: byte)
    requires IsHex(digit)
    ensures GetPkt(Ascii("$g#6") + [digit], false) ==
            if digit == Letter('7') then Receipt(Packet(Ascii("g"), []), Ascii("+")) else Receipt(Eof, Ascii("-"))
  {
    Marks();
    var body := Ascii("g");
    assert body == [0x67] && Letter('6') == 54 && Letter('7') == 55;
    assert [] + [DOLLAR] + body + [HASH] + [54, digit] + [] == Ascii("$g#6") + [digit];
    assert FromHex(Mask(54)) == Some(6) && FromHex(Mask(digit)) == FromHex(digit);
    assert FromHex(digit) == Some(7) <==> digit == 55;
    ChecksumAddsUp([], [], 0x67);
    AnyFrameReceived([], body, 54, digit, [], false);
    hide Checksum, FromHex, Ascii, Mask;
    assert AfterDollar([]) == None && GetPkt([], false) == Receipt(Eof, []);
    assert [MINUS] + [] == [MINUS];
  }

  /** A g packet with its checksum is taken, and with another one refused. */
  lemma ReceivedOnTheLine()
    ensures GetPkt(Ascii("$g#67"), false) == Receipt(Packet(Ascii("g"), []), Ascii("+"))
    ensures GetPkt(Ascii("$g#68"), false) == Receipt(Eof, Ascii("-"))
  {
    assert Ascii("$g#6") + [55] == Ascii("$g#67") && Ascii("$g#6") + [56] == Ascii("$g#68");
    assert IsHex(55) && IsHex(56) && Letter('7') == 55;
    hide Ascii, GetPkt;
    ReceivedWith(55);
    ReceivedWith(56);
  }

  /** A '-' is a refusal and a '+' is not; an interrupt goes to the inferior and refuses, too. */
  lemma AcknowledgedOnTheLine(rest: seq<byte>)
    ensures AwaitAck(Ascii("+") + rest) == Delivery(true, 1, 0, rest)
    ensures AwaitAck(Ascii("-+") + rest) == Delivery(true, 2, 0, rest)
    ensures AwaitAck([3] + Ascii("+") + rest) == Delivery(true, 2, 1, rest)
  {
    Marks();
    assert (Ascii("+") + rest)[1..] == rest;
    assert (Ascii("-+") + rest)[1..] == Ascii("+") + rest;
    assert ([3] + Ascii("+") + rest)[1..] == Ascii("+") + rest;
  }

  // ---------- memory and breakpoints ----------

  /** Z0 sets a breakpoint at the address, whatever its kind is. */
  lemma InsertSpelled(addr: nat, kind: seq<byte>)
    requires addr <= 0xffff_ffff
    ensures MemoryServer.MemCommand(Ascii("Z0,") + HexNumber(addr) + (Ascii(",") + kind)) ==
            MemoryServer.Do(ShadowRuns.Insert(addr))
  {
    Marks();
    assert Ascii("Z0,") == [MemoryServer.UPPER_Z, DIGIT_0, COMMA];
    hide Ascii, HexNumber, Strtoul;
    MemoryServer.PointParses(MemoryServer.UPPER_Z, addr, [COMMA] + kind, true);
  }

  /** z0 removes it. */
  lemma RemoveSpelled(addr: nat, kind: seq<byte>)
    requires addr <= 0xffff_ffff
    ensures MemoryServer.MemCommand(Ascii("z0,") + HexNumber(addr) + (Ascii(",") + kind)) ==
            MemoryServer.Do(ShadowRuns.Remove(addr))
  {
    Marks();
    assert Ascii("z0,") == [MemoryServer.LOWER_Z, DIGIT_0, COMMA];
    hide Ascii, HexNumber, Strtoul;
    MemoryServer.PointParses(MemoryServer.LOWER_Z, addr, [COMMA] + kind, false);
  }

  /** Every other kind of Z and z is refused. */
  lemma OtherPointsSpelled(letter: byte, kind: byte, rest: seq<byte>)
    requires letter in {Letter('Z'), Letter('z')} && kind != Letter('0')
    ensures MemoryServer.MemCommand([letter, kind] + rest) == MemoryServer.Refuse
  {}

  /** m and M, for every address below 2^63. */
  lemma ReadSpelled(addr: nat, len: nat)
    requires addr < 0x8000_0000_0000_0000 && len < 0x10000
    ensures MemoryServer.MemCommand(Ascii("m") + (HexNumber(addr) + Ascii(",") + HexNumber(len))) ==
            MemoryServer.Do(ShadowRuns.Read(addr, len))
  {
    hide MemoryServer.MemCommand, HexNumber;
    MemoryServer.PacketRoundTrip(ShadowRuns.Read(addr, len));
  }

  lemma WriteSpelled(addr: nat, data: seq<byte>)
    requires addr < 0x8000_0000_0000_0000 && |data| < 0x1_0000_0000
    ensures MemoryServer.MemCommand(Ascii("M") + (HexNumber(addr) + Ascii(",")
                                                  + (HexNumber(|data|) + Ascii(":") + HexEncode(data)))) ==
            MemoryServer.Do(ShadowRuns.Write(addr, data))
  {
    hide MemoryServer.MemCommand, HexNumber, HexEncode;
    MemoryServer.PacketRoundTrip(ShadowRuns.Write(addr, data));
  }

  /** m and M without a comma are given up without a reply. */
  lemma NoCommaSpelled(letter: byte, rest: seq<byte>)
    requires letter in {Letter('m'), Letter('M')} && Letter(',') !in rest
    ensures MemoryServer.MemCommand([letter] + rest) == MemoryServer.Fail
  {
    var text := [letter] + rest;
    assert text[1..] == rest;
    assert Field(rest, 0, COMMA) == None;
  }

  // ---------- registers ----------

  /** ? and g, whatever follows; G, p and P are in RegisterServer.PacketRoundTrip. */
  lemma RegistersSpelled(rest: seq<byte>)
    ensures RegisterServer.RegCommand(Ascii("?") + rest) == RegisterServer.Do(RegisterRuns.Question)
    ensures RegisterServer.RegCommand(Ascii("g") + rest) == RegisterServer.Do(RegisterRuns.ReadAll)
  {
    hide Strtol;
  }

  /** A negative register number is answered E01. */
  lemma NegativeSpelled(digits: seq<byte>)
    requires AllHex(digits) && digits != [] && 0 < HexValue(digits) <= 0x8000_0000
    ensures RegisterServer.RegCommand(Ascii("p-") + digits) == RegisterServer.Refuse
  {
    var lead, text := Ascii("p-"), Ascii("p-") + digits;
    assert lead == [RegisterServer.LOWER_P, MINUS] && text == lead + digits + [];
    hide Ascii, HexValue, Strtol;
    StrtolReads(text, lead, digits, [], true, 1);
  }

  /** The table: r0 to r31, f0 to f31, then pc, ps, cr, lr, ctr, xer and fpscr. */
  lemma TableSpelled(n: nat, hw: Hardware)
    requires n < 71 && WellSized(hw)
    ensures PPC_NUM_REGS == 71
    ensures n < 32 ==> PpcName(n) == R(n) && PpcWidth(n) == 4 && Value(hw, n) == hw.general.gpr[n]
    ensures 32 <= n < 64 ==> PpcName(n) == F(n - 32) && PpcWidth(n) == 8 && Value(hw, n) == hw.float.fpr[n - 32]
    ensures n == 64 ==> PpcName(n) == Pc && PpcWidth(n) == 4 && Value(hw, n) == hw.general.srr0
    ensures n == 65 ==> PpcName(n) == Ps && PpcWidth(n) == 4 && Value(hw, n) == hw.general.srr1
    ensures n == 66 ==> PpcName(n) == Cr && PpcWidth(n) == 4 && Value(hw, n) == hw.general.cr
    ensures n == 67 ==> PpcName(n) == Lr && PpcWidth(n) == 4 && Value(hw, n) == hw.general.lr
    ensures n == 68 ==> PpcName(n) == Ctr && PpcWidth(n) == 4 && Value(hw, n) == hw.general.ctr
    ensures n == 69 ==> PpcName(n) == Xer && PpcWidth(n) == 4 && Value(hw, n) == hw.general.xer
    ensures n == 70 ==> PpcName(n) == Fpscr && PpcWidth(n) == 4 && Value(hw, n) == hw.float.fpscr
  {}

  /** Where a register's digits are in the reply to g. */
  function Place(n: nat): nat {
    if n < 32 then 8 * n else if n < 64 then 256 + 16 * (n - 32) else 768 + 8 * (n - 64)
  }

  lemma PlaceIsStart(sizes: seq<nat>, n: nat)
    requires PpcTable(sizes) && n < 71
    ensures 2 * Start(sizes, n) == Place(n) && Start(sizes, n) + PpcWidth(n) <= RegisterBytes(sizes) == 412
  {
    RegisterServer.PpcBytes(sizes);
    RegisterServer.PpcOffset(sizes, n);
  }

  lemma RegisterSpelled(sizes: seq<nat>, regs: seq<byte>, n: nat)
    requires PpcTable(sizes) && |regs| == RegisterBytes(sizes) && n < 71
    ensures |HexEncode(regs)| == 824 && Place(n) + 2 * PpcWidth(n) <= 824
    ensures HexEncode(RegAt(sizes, regs, n)) == HexEncode(regs)[Place(n)..Place(n) + 2 * PpcWidth(n)]
  {
    var start := Start(sizes, n);
    PlaceIsStart(sizes, n);
    assert RegAt(sizes, regs, n) == regs[start..start + PpcWidth(n)];
    hide Start, RegisterBytes, HexEncode, PpcTable, RegAt, PpcWidth, Place;
    HexEncodeSlice(regs, start, start + PpcWidth(n));
  }

  // ---------- stop replies ----------

  /** The status letter, the signal in two digits, and for a stopped thread the registers 1 and 40
      as g has them and the thread. */
  lemma StopReplySpelled(sizes: seq<nat>, signals: byte -> byte, id: nat, regs: seq<byte>, stop: RegisterRuns.Stop)
    requires PpcTable(sizes) && |regs| == RegisterBytes(sizes) && |HexEncode(regs)| == 824
    ensures var g := HexEncode(regs);
            RegisterServer.StopReply(sizes, signals, id, regs, stop) ==
            [stop.status] + HexEncode([signals(stop.signal)])
            + if stop.status == Letter('T') then
                Ascii("01:") + g[8..16] + Ascii(";") + (Ascii("40:") + g[768..776] + Ascii(";"))
                + (Ascii("thread:") + HexNumber(id) + Ascii(";"))
              else []
  {
    var sig := signals(stop.signal);
    HexEncodeByte(sig);
    ToHexSpelled(sig / 16);
    ToHexSpelled(sig % 16);
    assert [stop.status, ToHex(sig / 16), ToHex(sig % 16)] == [stop.status] + HexEncode([sig]);
    DetailsSpelled(sizes, id, regs);
    hide RegisterServer.Details, HexEncode, HexNumber, Ascii;
  }

  lemma DetailsSpelled(sizes: seq<nat>, id: nat, regs: seq<byte>)
    requires PpcTable(sizes) && |regs| == RegisterBytes(sizes) && |HexEncode(regs)| == 824
    ensures var g := HexEncode(regs);
            RegisterServer.Details(sizes, id, regs) ==
            Ascii("01:") + g[8..16] + Ascii(";") + (Ascii("40:") + g[768..776] + Ascii(";"))
            + (Ascii("thread:") + HexNumber(id) + Ascii(";"))
  {
    OutregSpelled(sizes, regs);
    Words();
    Marks();
    hide RegisterServer.Outreg, HexEncode, HexNumber, Ascii;
  }

  lemma OutregSpelled(sizes: seq<nat>, regs: seq<byte>)
    requires PpcTable(sizes) && |regs| == RegisterBytes(sizes) && |HexEncode(regs)| == 824
    ensures RegisterServer.Outreg(sizes, regs, 1) == Ascii("01:") + HexEncode(regs)[8..16] + Ascii(";")
    ensures RegisterServer.Outreg(sizes, regs, 64) == Ascii("40:") + HexEncode(regs)[768..776] + Ascii(";")
  {
    RegisterSpelled(sizes, regs, 1);
    RegisterSpelled(sizes, regs, 64);
    Marks();
    assert [ToHex(0), ToHex(1), COLON] == Ascii("01:") && [ToHex(4), ToHex(0), COLON] == Ascii("40:");
    hide HexEncode, Ascii, RegAt, ToHex;
  }

  /** The thread in a stop reply is read back as its id. */
  lemma ThreadReadsBack(sizes: seq<nat>, signals: byte -> byte, id: nat, regs: seq<byte>, stop: RegisterRuns.Stop)
    requires PpcTable(sizes) && |regs| == RegisterBytes(sizes) && |HexEncode(regs)| == 824
    requires stop.status == Letter('T') && id <= 0xffff_ffff
    ensures var reply := RegisterServer.StopReply(sizes, signals, id, regs, stop);
            var at := |reply| - 1 - |HexNumber(id)|;
            && at >= 7 && reply[at - 7..at] == Ascii("thread:") && Strtoul(reply, at) == (id, |reply| - 1)
  {
    Marks();
    hide HexEncode, HexNumber, Ascii, RegisterServer.StopReply, Strtoul;
    StopReplySpelled(sizes, signals, id, regs, stop);
    var reply, g := RegisterServer.StopReply(sizes, signals, id, regs, stop), HexEncode(regs);
    var head := [stop.status] + HexEncode([signals(stop.signal)]);
    var fields := Ascii("01:") + g[8..16] + Ascii(";") + (Ascii("40:") + g[768..776] + Ascii(";"));
    Concat3(head, fields, Ascii("thread:") + HexNumber(id) + Ascii(";"));
    ThreadAtEnd(reply, head + fields, id);
  }

  lemma ThreadAtEnd(reply: seq<byte>, front: seq<byte>, id: nat)
    requires reply == front + (Ascii("thread:") + HexNumber(id) + [SEMICOLON]) && id <= ULONG_MAX
    ensures var at := |reply| - 1 - |HexNumber(id)|;
            && at >= 7 && reply[at - 7..at] == Ascii("thread:") && Strtoul(reply, at) == (id, |reply| - 1)
  {
    hide Ascii, HexNumber, Strtoul;
    var lead := front + Ascii("thread:");
    assert reply == lead + HexNumber(id) + [SEMICOLON];
    StrtoulRoundTrip(lead, id, [SEMICOLON]);
  }
}
