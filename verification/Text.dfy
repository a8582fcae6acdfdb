/** Characters of the protocol as bytes, and C strings: a text without NUL, read as if a NUL followed. */
module Text {
  import opened Memory
  import opened Options

  const NUL: byte := 0
  const DIGIT_0: byte := 48
  const DIGIT_9: byte := 57
  const LOWER_A: byte := 97
  const LOWER_F: byte := 102
  const UPPER_A: byte := 65
  const UPPER_F: byte := 70
  const LOWER_X: byte := 120
  const UPPER_X: byte := 88
  const SPACE: byte := 32
  const PLUS: byte := 43
  const COMMA: byte := 44
  const MINUS: byte := 45
  const COLON: byte := 58
  const SEMICOLON: byte := 59

  function Ascii(s: string): (r: seq<byte>)
    ensures |r| == |s|
  {
    seq(|s|, i requires 0 <= i < |s| => s[i] as int % 256)
  }

  function Letter(c: char): byte {
    c as int % 256
  }

  function CharAt(text: seq<byte>, i: nat): byte {
    if i < |text| then text[i] else NUL
  }

  /** fromhex: lower-case digits only; None is a call of `error`. */
  function FromHex(c: int): (r: Option<nat>)
    ensures r.Some? ==> r.value < 16
  {
    if DIGIT_0 <= c <= DIGIT_9 then Some(c - DIGIT_0)
    else if LOWER_A <= c <= LOWER_F then Some(c - LOWER_A + 10)
    else None
  }

  /** tohex */
  function ToHex(nib: nat): (c: byte)
    requires nib < 16
    ensures FromHex(c) == Some(nib)
    ensures c != NUL && c < 128 && c != COMMA && c != COLON && c != SEMICOLON
  {
    if nib < 10 then DIGIT_0 + nib else LOWER_A + nib - 10
  }

  lemma FromHexToHex(c: byte)
    requires FromHex(c).Some?
    ensures ToHex(FromHex(c).value) == c
  {}

  predicate IsHex(c: byte) {
    FromHex(c).Some?
  }

  lemma Concat3<T>(a: seq<T>, b: seq<T>, c: seq<T>)
    ensures a + b + c == a + (b + c)
  {}

  // ---------- byte strings in hexadecimal ----------

  /** Two digits a byte, high nibble first. */
  function HexEncode(data: seq<byte>): (r: seq<byte>)
    ensures |r| == 2 * |data|
    ensures forall i :: 0 <= i < |r| ==>
                          r[i] == ToHex(if i % 2 == 0 then data[i / 2] / 16 else data[i / 2] % 16)
  {
    seq(2 * |data|, i requires 0 <= i < 2 * |data| =>
      ToHex(if i % 2 == 0 then data[i / 2] / 16 else data[i / 2] % 16))
  }

  /** The pair of characters at `2 * k` is a byte. */
  predicate GoodPair(text: seq<byte>, k: nat) {
    IsHex(CharAt(text, 2 * k)) && IsHex(CharAt(text, 2 * k + 1))
  }

  function PairAt(text: seq<byte>, k: nat): byte
    requires GoodPair(text, k)
  {
    FromHex(CharAt(text, 2 * k)).value * 16 + FromHex(CharAt(text, 2 * k + 1)).value
  }

  /** How many of the first `n` pairs are good, up to the first bad one. */
  function GoodPairs(text: seq<byte>, n: nat): (k: nat)
    ensures k <= n
    ensures forall j :: 0 <= j < k ==> GoodPair(text, j)
    ensures k < n ==> !GoodPair(text, k)
  {
    if n == 0 then 0
    else
      var k := GoodPairs(text, n - 1);
      if k == n - 1 && GoodPair(text, k) then n else k
  }

  lemma {:induction false} GoodPairsFit(text: seq<byte>, n: nat)
    ensures 2 * GoodPairs(text, n) <= |text|
  {
    var k := GoodPairs(text, n);
    assert k > 0 ==> GoodPair(text, k - 1);
  }

  function HexDecode(text: seq<byte>, k: nat): (r: seq<byte>)
    requires forall j :: 0 <= j < k ==> GoodPair(text, j)
    ensures |r| == k
    ensures forall j :: 0 <= j < k ==> r[j] == PairAt(text, j)
  {
    seq(k, j requires 0 <= j < k => PairAt(text, j))
  }

  lemma EncodedPair(data: seq<byte>, rest: seq<byte>, k: nat)
    requires k < |data|
    ensures GoodPair(HexEncode(data) + rest, k) && PairAt(HexEncode(data) + rest, k) == data[k]
  {
    var text := HexEncode(data) + rest;
    assert text[2 * k] == ToHex(data[k] / 16);
    assert text[2 * k + 1] == ToHex(data[k] % 16);
  }

  /** Decoding inverts encoding, whatever follows. */
  lemma HexRoundTrip(data: seq<byte>, rest: seq<byte>)
    ensures GoodPairs(HexEncode(data) + rest, |data|) == |data|
    ensures HexDecode(HexEncode(data) + rest, |data|) == data
  {
    var text := HexEncode(data) + rest;
    forall k | 0 <= k < |data| ensures GoodPair(text, k) && PairAt(text, k) == data[k] {
      EncodedPair(data, rest, k);
    }
  }

  lemma PairSplits(text: seq<byte>, k: nat)
    requires 2 * k + 1 < |text| && GoodPair(text, k)
    ensures ToHex(PairAt(text, k) / 16) == text[2 * k] && ToHex(PairAt(text, k) % 16) == text[2 * k + 1]
  {
    FromHexToHex(text[2 * k]);
    FromHexToHex(text[2 * k + 1]);
  }

  /** Encoding inverts decoding: the codec loses nothing in either direction. */
  lemma HexRoundTripBack(text: seq<byte>, n: nat)
    requires |text| == 2 * n && GoodPairs(text, n) == n
    ensures HexEncode(HexDecode(text, n)) == text
  {
    var data := HexDecode(text, n);
    forall i | 0 <= i < 2 * n ensures HexEncode(data)[i] == text[i] {
      assert GoodPair(text, i / 2) && data[i / 2] == PairAt(text, i / 2);
      PairSplits(text, i / 2);
    }
  }

  // ---------- numbers in hexadecimal ----------

  /** The shortest lower-case numeral. */
  function HexNumber(n: nat): (r: seq<byte>)
    ensures |r| > 0
  {
    if n < 16 then [ToHex(n)] else HexNumber(n / 16) + [ToHex(n % 16)]
  }

  predicate AllHex(digits: seq<byte>) {
    forall i :: 0 <= i < |digits| ==> IsHex(digits[i])
  }

  function Digit(c: byte): nat
    requires IsHex(c)
  {
    FromHex(c).value
  }

  /** The unbounded value of a numeral. */
  function HexValue(digits: seq<byte>): nat
    requires AllHex(digits)
  {
    if digits == [] then 0
    else HexValue(digits[..|digits| - 1]) * 16 + Digit(digits[|digits| - 1])
  }

  lemma {:induction false} HexNumberValue(n: nat)
    ensures AllHex(HexNumber(n)) && HexValue(HexNumber(n)) == n
  {
    var r := HexNumber(n);
    if n >= 16 {
      HexNumberValue(n / 16);
      assert r[..|r| - 1] == HexNumber(n / 16);
    } else {
      assert r[..0] == [];
    }
  }

  lemma HexIsText(data: seq<byte>, n: nat)
    ensures NUL !in HexEncode(data) && NUL !in HexNumber(n)
  {
    HexNumberValue(n);
    var digits := HexNumber(n);
    forall i | 0 <= i < |digits| ensures digits[i] != NUL {
      assert IsHex(digits[i]);
    }
  }

  // ---------- C strings in buffers ----------

  /** The text in a buffer: everything before the first NUL. */
  function Str(s: seq<byte>): (r: seq<byte>)
    ensures |r| <= |s| && r == s[..|r|]
    ensures NUL !in r
    ensures |r| < |s| ==> s[|r|] == NUL
  {
    if s == [] || s[0] == NUL then [] else [s[0]] + Str(s[1..])
  }

  lemma StrAgain(text: seq<byte>)
    requires NUL !in text
    ensures Str(text) == text
  {
    assert forall i :: 0 <= i < |text| ==> text[i] != NUL;
    var r := Str(text);
    assert |r| == |text|;
  }

  lemma StrIs(s: seq<byte>, n: nat)
    requires n < |s| && s[n] == NUL && NUL !in s[..n]
    ensures Str(s) == s[..n]
  {
    var r := Str(s);
    assert forall k :: 0 <= k < n ==> s[..n][k] != NUL;
    assert forall k :: 0 <= k < |r| ==> r[k] != NUL;
  }
}

/** strtol and strtoul of the C library with base 16, on a machine with 32-bit long. */
module CLibrary {
  import opened Memory
  import opened Options
  import opened Text

  const LONG_MIN: int := -0x8000_0000
  const LONG_MAX: int := 0x7fff_ffff
  const ULONG_MAX: int := 0xffff_ffff

  predicate IsSpace(c: byte) {
    c == SPACE || 9 <= c <= 13
  }

  /** Hexadecimal digits in either case. */
  function AnyDigit(c: byte): (r: Option<nat>)
    ensures r.Some? ==> r.value < 16
    ensures IsHex(c) ==> r == FromHex(c)
  {
    if UPPER_A <= c <= UPPER_F then Some(c - UPPER_A + 10) else FromHex(c)
  }

  function SkipSpaces(text: seq<byte>, i: nat): (j: nat)
    requires i <= |text|
    ensures i <= j <= |text|
    decreases |text| - i
  {
    if i < |text| && IsSpace(text[i]) then SkipSpaces(text, i + 1) else i
  }

  function SkipDigits(text: seq<byte>, i: nat): (j: nat)
    requires i <= |text|
    ensures i <= j <= |text|
    decreases |text| - i
  {
    if i < |text| && AnyDigit(text[i]).Some? then SkipDigits(text, i + 1) else i
  }

  /** The value of a numeral. */
  function AnyValue(digits: seq<byte>): nat {
    if digits == [] then 0
    else
      var d := AnyDigit(digits[|digits| - 1]);
      AnyValue(digits[..|digits| - 1]) * 16 + if d.Some? then d.value else 0
  }

  /** A numeral found in a text: its sign, its digits, and where the digits start and end. */
  datatype Numeral = Numeral(negative: bool, start: nat, end: nat)

  /** Space, a sign, an optional 0x that is followed by a digit, then digits. */
  function FindNumeral(text: seq<byte>, from: nat): (n: Numeral)
    requires from <= |text|
    ensures from <= n.start <= n.end <= |text|
  {
    var i := SkipSpaces(text, from);
    var signed := CharAt(text, i) == MINUS || CharAt(text, i) == PLUS;
    var j := if signed then i + 1 else i;
    var prefixed := && CharAt(text, j) == DIGIT_0 && CharAt(text, j + 1) in {LOWER_X, UPPER_X}
                    && AnyDigit(CharAt(text, j + 2)).Some?;
    var start := if prefixed then j + 2 else j;
    Numeral(CharAt(text, i) == MINUS, start, SkipDigits(text, start))
  }

  function Magnitude(text: seq<byte>, n: Numeral): nat
    requires n.start <= n.end <= |text|
  {
    AnyValue(text[n.start..n.end])
  }

  /** The value, saturated, and the index after the numeral; without digits 0 and `from` itself. */
  function Strtol(text: seq<byte>, from: nat): (r: (int, nat))
    requires from <= |text|
    ensures LONG_MIN <= r.0 <= LONG_MAX
    ensures from <= r.1 <= |text|
  {
    var n := FindNumeral(text, from);
    if n.start == n.end then (0, from)
    else
      var m: int := Magnitude(text, n);
      var v := if n.negative then -m else m;
      (if v < LONG_MIN then LONG_MIN else if v > LONG_MAX then LONG_MAX else v, n.end)
  }

  function Strtoul(text: seq<byte>, from: nat): (r: (int, nat))
    requires from <= |text|
    ensures 0 <= r.0 <= ULONG_MAX
    ensures from <= r.1 <= |text|
  {
    var n := FindNumeral(text, from);
    if n.start == n.end then (0, from)
    else
      var m: int := Magnitude(text, n);
      (if m > ULONG_MAX then ULONG_MAX else if n.negative then (-m) % (ULONG_MAX + 1) else m, n.end)
  }

  // ---------- reading back printed numbers ----------

  /** `text` continues at `i` with something that ends a numeral. */
  predicate Ends(text: seq<byte>, i: nat) {
    i < |text| ==> AnyDigit(text[i]).None? && text[i] != LOWER_X && text[i] != UPPER_X
  }

  lemma {:induction false} AnyValueIsHexValue(digits: seq<byte>)
    requires AllHex(digits)
    ensures AnyValue(digits) == HexValue(digits)
  {
    if digits != [] {
      AnyValueIsHexValue(digits[..|digits| - 1]);
    }
  }

  lemma {:induction false} SkipDigitsTo(text: seq<byte>, i: nat, j: nat)
    requires i <= j <= |text|
    requires forall k :: i <= k < j ==> AnyDigit(text[k]).Some?
    requires j < |text| ==> AnyDigit(text[j]).None?
    ensures SkipDigits(text, i) == j
    decreases j - i
  {
    if i < j {
      SkipDigitsTo(text, i + 1, j);
    }
  }

  lemma NumeralAt(text: seq<byte>, from: nat, negative: bool, end: nat)
    requires var start := if negative then from + 1 else from;
             && start < end <= |text| && AllHex(text[start..end])
             && (negative ==> text[from] == MINUS)
    requires Ends(text, end)
    ensures FindNumeral(text, from) == Numeral(negative, if negative then from + 1 else from, end)
  {
    var start := if negative then from + 1 else from;
    forall k | start <= k < end ensures IsHex(text[k]) {
      assert text[k] == text[start..end][k - start];
    }
    SkipDigitsTo(text, start, end);
    assert CharAt(text, start + 1) != LOWER_X && CharAt(text, start + 1) != UPPER_X;
  }

  lemma PrintedNumeral(lead: seq<byte>, digits: seq<byte>, rest: seq<byte>, negative: bool, from: nat)
    requires AllHex(digits) && digits != [] && Ends(rest, 0)
    requires from == if negative then |lead| - 1 else |lead|
    requires negative ==> lead[|lead| - 1] == MINUS
    ensures var text := lead + digits + rest;
            var n := FindNumeral(text, from);
            && n == Numeral(negative, |lead|, |lead + digits|)
            && Magnitude(text, n) == HexValue(digits)
  {
    var text := lead + digits + rest;
    var end := |lead + digits|;
    assert text[|lead|..end] == digits;
    AnyValueIsHexValue(digits);
    NumeralAt(text, from, negative, end);
  }

  /** strtol reads any numeral back, in whatever number of digits. */
  lemma StrtolReads(text: seq<byte>, lead: seq<byte>, digits: seq<byte>, rest: seq<byte>, negative: bool, from: nat)
    requires AllHex(digits) && digits != [] && Ends(rest, 0)
    requires text == lead + digits + rest
    requires from == if negative then |lead| - 1 else |lead|
    requires negative ==> lead[|lead| - 1] == MINUS
    requires HexValue(digits) <= if negative then -LONG_MIN else LONG_MAX
    ensures Strtol(text, from).0 == if negative then 0 - HexValue(digits) else HexValue(digits)
    ensures Strtol(text, from).1 == |lead| + |digits|
  {
    PrintedNumeral(lead, digits, rest, negative, from);
  }

  /** strtoul reads a printed number back. */
  lemma StrtoulRoundTrip(before: seq<byte>, v: nat, rest: seq<byte>)
    requires v <= ULONG_MAX && Ends(rest, 0)
    ensures Strtoul(before + HexNumber(v) + rest, |before|) == (v, |before + HexNumber(v)|)
  {
    HexNumberValue(v);
    PrintedNumeral(before, HexNumber(v), rest, false, |before|);
  }
}
