/** convert_int_to_ascii, convert_ascii_to_int, decode_m_packet and decode_M_packet
    (src/remote-utils.c): the loops, and what they decode. */
module HexCodec {
  import opened Arithmetic
  import opened Memory
  import opened Options
  import opened Text

  /** The value of a long long after wrapping around. */
  function ToSigned64(v: int): int {
    var u := v % 0x1_0000_0000_0000_0000;
    if u < 0x8000_0000_0000_0000 then u else u - 0x1_0000_0000_0000_0000
  }

  /** convert_int_to_ascii; `to` gets a NUL after the digits. */
  method ConvertIntToAscii(from: array<byte>, to: array<byte>, n: nat)
    requires from != to && n <= from.Length && 2 * n < to.Length
    modifies to
    ensures to[..2 * n] == HexEncode(from[..n]) && to[2 * n] == NUL
  {
    for k := 0 to n
      invariant forall i :: 0 <= i < 2 * k ==> to[i] == HexEncode(from[..n])[i]
    {
      to[2 * k] := ToHex(from[k] / 16);
      to[2 * k + 1] := ToHex(from[k] % 16);
    }
    to[2 * n] := NUL;
  }

  /** convert_ascii_to_int; when a character is not a digit, `error` leaves the pairs before it
      stored and the rest of `to` as it was. */
  method ConvertAsciiToInt(from: seq<byte>, to: array<byte>, n: nat) returns (ok: bool)
    requires GoodPairs(from, n) <= to.Length
    modifies to
    ensures ok <==> GoodPairs(from, n) == n
    ensures to[..GoodPairs(from, n)] == HexDecode(from, GoodPairs(from, n))
    ensures forall i :: GoodPairs(from, n) <= i < to.Length ==> to[i] == old(to[i])
  {
    var k := 0;
    while k < n
      invariant 0 <= k <= n && GoodPairs(from, n) >= k
      invariant forall i :: 0 <= i < k ==> to[i] == PairAt(from, i)
      invariant forall i :: k <= i < to.Length ==> to[i] == old(to[i])
    {
      var nib1, nib2 := FromHex(CharAt(from, 2 * k)), FromHex(CharAt(from, 2 * k + 1));
      if nib1.None? || nib2.None? {
        assert !GoodPair(from, k);
        return false;
      }
      assert GoodPair(from, k);
      to[k] := nib1.value * 16 + nib2.value;
      k := k + 1;
    }
    ok := true;
  }

  // ---------- numbers inside packets ----------

  /** The index of the first `stop`, or the length. */
  function IndexOf(text: seq<byte>, i: nat, stop: byte): (j: nat)
    requires i <= |text|
    ensures i <= j <= |text|
    ensures forall k :: i <= k < j ==> text[k] != stop
    ensures j < |text| ==> text[j] == stop
    decreases |text| - i
  {
    if i < |text| && text[i] != stop then IndexOf(text, i + 1, stop) else i
  }

  /** The digits from `i` to the next `stop`, if `stop` follows and all are digits. */
  function Field(text: seq<byte>, i: nat, stop: byte): (r: Option<nat>)
    requires i <= |text|
    ensures r.Some? ==> i <= r.value < |text| && text[r.value] == stop && AllHex(text[i..r.value])
  {
    var j := IndexOf(text, i, stop);
    if j < |text| && AllHex(text[i..j]) then Some(j) else None
  }

  datatype MemArgs = MemArgs(addr: int, len: nat)

  /** What decode_m_packet makes of its text; None is a call of `error`. */
  function DecodedRead(text: seq<byte>): Option<MemArgs> {
    var j := Field(text, 0, COMMA);
    if j.None? then None
    else
      var digits := FirstFour(text[j.value + 1..]);
      if AllHex(digits) then Some(MemArgs(ToSigned64(HexValue(text[..j.value])), HexValue(digits))) else None
  }

  /** What decode_M_packet makes of its text, and where the data starts. */
  function DecodedWrite(text: seq<byte>): (r: Option<(MemArgs, nat)>)
    ensures r.Some? ==> r.value.1 <= |text|
  {
    var j := Field(text, 0, COMMA);
    if j.None? then None
    else
      var k := Field(text, j.value + 1, COLON);
      if k.None? then None
      else
        Some((MemArgs(ToSigned64(HexValue(text[..j.value])),
                      HexValue(text[j.value + 1..k.value]) % 0x1_0000_0000), k.value + 1))
  }

  lemma HexValueSnoc(digits: seq<byte>, c: byte)
    requires AllHex(digits) && IsHex(c)
    ensures AllHex(digits + [c]) && HexValue(digits + [c]) == HexValue(digits) * 16 + Digit(c)
  {
    assert (digits + [c])[..|digits|] == digits;
  }

  /** One shift of a long long that has wrapped around already. */
  lemma SignedPush(v: int, d: int)
    ensures ToSigned64(ToSigned64(v) * 16 + d) == ToSigned64(v * 16 + d)
  {
    var m := 0x1_0000_0000_0000_0000;
    ModPush(v, d, m);
    ModPush(ToSigned64(v), d, m);
    assert ToSigned64(v) % m == v % m;
  }

  /** One more digit of an address that has wrapped around already. */
  lemma AddressPush(from: seq<byte>, start: nat, i: nat)
    requires start <= i < |from| && AllHex(from[start..i]) && IsHex(from[i])
    ensures AllHex(from[start..i + 1])
    ensures ToSigned64(HexValue(from[start..i + 1])) ==
            ToSigned64(ToSigned64(HexValue(from[start..i])) * 16 + Digit(from[i]))
  {
    var digits := from[start..i];
    assert from[start..i + 1] == digits + [from[i]];
    HexValueSnoc(digits, from[i]);
    SignedPush(HexValue(digits), Digit(from[i]));
  }

  lemma LengthPush(from: seq<byte>, start: nat, i: nat)
    requires start <= i < |from| && AllHex(from[start..i]) && IsHex(from[i])
    ensures AllHex(from[start..i + 1])
    ensures HexValue(from[start..i + 1]) % 0x1_0000_0000 ==
            (HexValue(from[start..i]) % 0x1_0000_0000 * 16 + Digit(from[i])) % 0x1_0000_0000
  {
    var digits := from[start..i];
    assert from[start..i + 1] == digits + [from[i]];
    HexValueSnoc(digits, from[i]);
    ModPush(HexValue(digits), Digit(from[i]), 0x1_0000_0000);
  }

  lemma StillMissing(from: seq<byte>, start: nat, i: nat, stop: byte)
    requires start <= i < |from| && stop !in from[start..i] && from[i] != stop
    ensures stop !in from[start..i + 1]
  {
    assert from[start..i + 1] == from[start..i] + [from[i]];
  }

  /** Read digits up to `stop`: the value so far is shifted in at the bottom. */
  method ScanAddress(from: seq<byte>, start: nat) returns (j: Option<nat>, addr: int)
    requires start <= |from| && NUL !in from
    ensures j == Field(from, start, COMMA)
    ensures j.Some? ==> addr == ToSigned64(HexValue(from[start..j.value]))
  {
    var i := start;
    addr := 0;
    assert from[start..start] == [];
    while CharAt(from, i) != COMMA
      invariant start <= i <= |from| && COMMA !in from[start..i]
      invariant AllHex(from[start..i]) && addr == ToSigned64(HexValue(from[start..i]))
      decreases |from| - i
    {
      var d := FromHex(CharAt(from, i));
      if d.None? {
        NotAField(from, start, i, COMMA);
        return None, addr;
      }
      AddressPush(from, start, i);
      StillMissing(from, start, i, COMMA);
      addr := ToSigned64(addr * 16 + d.value);
      i := i + 1;
    }
    IndexOfIs(from, start, i, COMMA);
    j := Some(i);
  }

  lemma {:induction false} IndexOfIs(text: seq<byte>, i: nat, j: nat, stop: byte)
    requires i <= j < |text| && text[j] == stop && stop !in text[i..j]
    ensures IndexOf(text, i, stop) == j
    decreases j - i
  {
    if i < j {
      assert text[i] == text[i..j][0];
      assert text[i + 1..j] == text[i..j][1..];
      IndexOfIs(text, i + 1, j, stop);
    }
  }

  lemma NotAField(text: seq<byte>, start: nat, i: nat, stop: byte)
    requires start <= i <= |text| && stop !in text[start..i]
    requires i < |text| ==> text[i] != stop && !IsHex(text[i])
    ensures Field(text, start, stop) == None
  {
    var j := IndexOf(text, start, stop);
    assert forall k :: start <= k < i ==> text[k] == text[start..i][k - start];
    if j < |text| {
      assert i < j;
      assert text[start..j][i - start] == text[i];
    }
  }

  /** Read digits up to a colon into an unsigned int. */
  method ScanLength(from: seq<byte>, start: nat) returns (j: Option<nat>, len: nat)
    requires start <= |from| && NUL !in from
    ensures j == Field(from, start, COLON)
    ensures j.Some? ==> len == HexValue(from[start..j.value]) % 0x1_0000_0000
  {
    var i := start;
    len := 0;
    assert from[start..start] == [];
    while CharAt(from, i) != COLON
      invariant start <= i <= |from| && COLON !in from[start..i]
      invariant AllHex(from[start..i]) && len == HexValue(from[start..i]) % 0x1_0000_0000
      decreases |from| - i
    {
      var d := FromHex(CharAt(from, i));
      if d.None? {
        NotAField(from, start, i, COLON);
        return None, len;
      }
      LengthPush(from, start, i);
      StillMissing(from, start, i, COLON);
      len := (len * 16 + d.value) % 0x1_0000_0000;
      i := i + 1;
    }
    IndexOfIs(from, start, i, COLON);
    j := Some(i);
  }

  /** The digits of a length that decode_m_packet looks at. */
  function FirstFour(rest: seq<byte>): seq<byte> {
    if |rest| < 4 then rest else rest[..4]
  }

  /** Read up to four digits and no further. */
  method ScanFour(rest: seq<byte>) returns (len: Option<nat>)
    requires NUL !in rest
    ensures len == if AllHex(FirstFour(rest)) then Some(HexValue(FirstFour(rest))) else None
  {
    var j, n := 0, 0;
    assert rest[0..0] == [];
    while j < 4
      invariant 0 <= j <= 4 && j <= |rest| && AllHex(rest[0..j]) && n == HexValue(rest[0..j]) % 0x1_0000_0000
      invariant HexValue(rest[0..j]) < Power16(j)
    {
      var ch := CharAt(rest, j);
      if ch == NUL {
        break;
      }
      var d := FromHex(ch);
      if d.None? {
        assert !IsHex(FirstFour(rest)[j]);
        return None;
      }
      LengthPush(rest, 0, j);
      n := (n * 16 + d.value) % 0x1_0000_0000;
      j := j + 1;
      HexValueBound(rest[0..j]);
    }
    assert rest[0..j] == FirstFour(rest);
    assert Power16(4) == 0x10000;
    Power16Grows(j, 4);
    len := Some(n);
  }

  lemma {:induction false} Power16Grows(j: nat, k: nat)
    requires j <= k
    ensures Power16(j) <= Power16(k)
    decreases k
  {
    if j < k {
      Power16Grows(j, k - 1);
    }
  }

  /** decode_m_packet: at most four digits of the length are looked at. */
  method DecodeReadPacket(from: seq<byte>) returns (r: Option<MemArgs>)
    requires NUL !in from
    ensures r == DecodedRead(from)
  {
    var comma, addr := ScanAddress(from, 0);
    if comma.None? {
      return None;
    }
    var len := ScanFour(from[comma.value + 1..]);
    if len.None? {
      return None;
    }
    assert from[0..comma.value] == from[..comma.value];
    r := Some(MemArgs(addr, len.value));
  }

  /** decode_M_packet up to the data, which convert_ascii_to_int reads next. */
  method DecodeWritePacket(from: seq<byte>) returns (r: Option<(MemArgs, nat)>)
    requires NUL !in from
    ensures r == DecodedWrite(from)
  {
    var comma, addr := ScanAddress(from, 0);
    if comma.None? {
      return None;
    }
    var colon, len := ScanLength(from, comma.value + 1);
    if colon.None? {
      return None;
    }
    assert from[0..comma.value] == from[..comma.value];
    r := Some((MemArgs(addr, len), colon.value + 1));
  }

  // ---------- reading back printed packets ----------

  function PrintRead(addr: nat, len: nat): seq<byte> {
    HexNumber(addr) + Ascii(",") + HexNumber(len)
  }

  function PrintWrite(addr: nat, data: seq<byte>): seq<byte> {
    HexNumber(addr) + Ascii(",") + (HexNumber(|data|) + Ascii(":") + HexEncode(data))
  }

  lemma FieldOfDigits(text: seq<byte>, before: seq<byte>, digits: seq<byte>, stop: byte, rest: seq<byte>)
    requires AllHex(digits) && !IsHex(stop) && text == before + digits + [stop] + rest
    ensures var j := |before| + |digits|;
            Field(text, |before|, stop) == Some(j) && text[|before|..j] == digits && text[j + 1..] == rest
  {
    var j := |before| + |digits|;
    assert text[|before|..j] == digits;
    IndexOfIs(text, |before|, j, stop);
  }

  /** What decode_m_packet keeps of a length. */
  lemma FourDigits(len: nat)
    ensures var d := HexNumber(len);
            var kept := FirstFour(d);
            AllHex(kept) && (HexValue(kept) == len <==> len < 0x10000)
  {
    var d := HexNumber(len);
    HexNumberValue(len);
    HexNumberLength(len, 4);
    assert Power16(4) == 0x10000;
    if |d| >= 4 {
      HexValueBound(d[..4]);
      assert |d| == 4 ==> d[..4] == d;
    }
  }

  lemma AddressOfDigits(text: seq<byte>, digits: seq<byte>, tail: seq<byte>)
    requires AllHex(digits) && text == digits + [COMMA] + tail
    ensures var j := |digits|;
            Field(text, 0, COMMA) == Some(j) && text[..j] == digits && text[j + 1..] == tail
  {
    assert text == [] + digits + [COMMA] + tail;
    FieldOfDigits(text, [], digits, COMMA, tail);
  }

  lemma SmallAddress(v: nat)
    requires v < 0x8000_0000_0000_0000
    ensures ToSigned64(v) == v
  {}

  /** The signed number of 64 bits with the same bits. */
  lemma SignedIs(v: int)
    ensures -0x8000_0000_0000_0000 <= ToSigned64(v) < 0x8000_0000_0000_0000
    ensures exists n: int :: ToSigned64(v) == v + n * 0x1_0000_0000_0000_0000
  {
    var m := 0x1_0000_0000_0000_0000;
    assert v == v / m * m + v % m;
    assert ToSigned64(v) == v + (if v % m < 0x8000_0000_0000_0000 then 0 - v / m else 0 - v / m - 1) * m;
  }

  /** Of a length the first four digits are read. */
  lemma FirstFourRead(addr: nat, digits: seq<byte>)
    requires addr < 0x8000_0000_0000_0000 && AllHex(digits) && |digits| >= 4
    ensures DecodedRead(HexNumber(addr) + Ascii(",") + digits) == Some(MemArgs(addr, HexValue(digits[..4])))
  {
    HexNumberValue(addr);
    SmallAddress(addr);
    assert Ascii(",") == [COMMA];
    AddressOfDigits(HexNumber(addr) + [COMMA] + digits, HexNumber(addr), digits);
  }

  /** A length of more than four digits loses digits: decode_m_packet reads its packet back
      exactly for lengths below 0x10000. */
  lemma ReadRoundTripIff(addr: nat, len: nat)
    requires addr < 0x8000_0000_0000_0000
    ensures DecodedRead(PrintRead(addr, len)).Some?
    ensures DecodedRead(PrintRead(addr, len)) == Some(MemArgs(addr, len)) <==> len < 0x10000
  {
    HexNumberValue(addr);
    SmallAddress(addr);
    AddressOfDigits(PrintRead(addr, len), HexNumber(addr), HexNumber(len));
    FourDigits(len);
  }

  lemma {:induction false} HexValueBound(digits: seq<byte>)
    requires AllHex(digits)
    ensures HexValue(digits) < Power16(|digits|)
  {
    if digits != [] {
      HexValueBound(digits[..|digits| - 1]);
    }
  }

  function Power16(n: nat): nat {
    if n == 0 then 1 else 16 * Power16(n - 1)
  }

  lemma {:induction false} HexNumberLength(n: nat, k: nat)
    requires k > 0
    ensures |HexNumber(n)| <= k <==> n < Power16(k)
    decreases k
  {
    if k == 1 {
      assert Power16(1) == 16 * Power16(0);
    } else {
      HexNumberLength(n / 16, k - 1);
      Power16AtLeast(k);
    }
  }

  lemma {:induction false} Power16AtLeast(k: nat)
    requires k > 0
    ensures Power16(k) >= 16
  {
    if k > 1 {
      Power16AtLeast(k - 1);
    }
  }

  lemma DecodedWriteIs(text: seq<byte>, j: nat, k: nat)
    requires Field(text, 0, COMMA) == Some(j) && j < |text| && Field(text, j + 1, COLON) == Some(k)
    ensures DecodedWrite(text) == Some((MemArgs(ToSigned64(HexValue(text[..j])),
                                                HexValue(text[j + 1..k]) % 0x1_0000_0000), k + 1))
  {}

  lemma HeaderParts(a: seq<byte>, n: seq<byte>, tail: seq<byte>)
    ensures a + [COMMA] + (n + [COLON] + tail) == (a + [COMMA]) + n + [COLON] + tail
  {}

  lemma HeaderOfDigits(text: seq<byte>, a: seq<byte>, n: seq<byte>, tail: seq<byte>) returns (start: nat)
    requires AllHex(a) && AllHex(n) && HexValue(a) < 0x8000_0000_0000_0000 && HexValue(n) < 0x1_0000_0000
    requires text == a + [COMMA] + (n + [COLON] + tail)
    ensures start <= |text| && text[start..] == tail
    ensures DecodedWrite(text) == Some((MemArgs(HexValue(a), HexValue(n)), start))
  {
    hide AllHex, HexValue, Field, DecodedWrite;
    AddressOfDigits(text, a, n + [COLON] + tail);
    HeaderParts(a, n, tail);
    FieldOfDigits(text, a + [COMMA], n, COLON, tail);
    DecodedWriteIs(text, |a|, |a| + 1 + |n|);
    start := |a| + 1 + |n| + 1;
    SmallAddress(HexValue(a));
  }

  lemma HexRoundTripAlone(data: seq<byte>)
    ensures GoodPairs(HexEncode(data), |data|) == |data| && HexDecode(HexEncode(data), |data|) == data
  {
    assert HexEncode(data) + [] == HexEncode(data);
    HexRoundTrip(data, []);
  }

  lemma PrintedMarks(addr: nat, data: seq<byte>)
    ensures PrintWrite(addr, data) == HexNumber(addr) + [COMMA] + (HexNumber(|data|) + [COLON] + HexEncode(data))
  {
    hide HexNumber, HexEncode;
    assert Ascii(",") == [COMMA] && Ascii(":") == [COLON];
  }

  /** decode_M_packet reads back every address below 2^63 and every byte string. */
  lemma WriteRoundTrip(addr: nat, data: seq<byte>) returns (text: seq<byte>, start: nat)
    requires addr < 0x8000_0000_0000_0000 && |data| < 0x1_0000_0000
    ensures text == PrintWrite(addr, data) && start <= |text|
    ensures DecodedWrite(text) == Some((MemArgs(addr, |data|), start))
    ensures GoodPairs(text[start..], |data|) == |data| && HexDecode(text[start..], |data|) == data
  {
    HexRoundTripAlone(data);
    HexNumberValue(addr);
    HexNumberValue(|data|);
    text := PrintWrite(addr, data);
    hide *;
    PrintedMarks(addr, data);
    start := HeaderOfDigits(text, HexNumber(addr), HexNumber(|data|), HexEncode(data));
  }
}
