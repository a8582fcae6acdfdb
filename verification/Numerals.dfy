/** Digits, numbers and byte strings in literal text: what module Text means by them. */
module Numerals {
  import opened Memory
  import opened Options
  import opened Text
  import opened CLibrary

  lemma ToHexSpelled(n: nat)
    requires n < 16
    ensures ToHex(n) == Ascii("0123456789abcdef")[n]
  {}

  /** fromhex knows these characters and no others. */
  lemma FromHexSpelled(c: byte, n: nat)
    ensures FromHex(c) == Some(n) <==> n < 16 && c == Ascii("0123456789abcdef")[n]
  {}

  lemma FromHexIncreases(b: byte, c: byte)
    requires IsHex(b) && IsHex(c)
    ensures b < c <==> FromHex(b).value < FromHex(c).value
  {}

  lemma UpperSpelled(n: nat)
    requires n < 16
    ensures Ascii("0123456789ABCDEF")[n] == if n < 10 then DIGIT_0 + n else UPPER_A + n - 10
  {}

  /** The C library takes a letter in either case. */
  lemma AnyDigitSpelled(c: byte, n: nat)
    ensures AnyDigit(c) == Some(n) <==>
            n < 16 && (c == Ascii("0123456789abcdef")[n] || c == Ascii("0123456789ABCDEF")[n])
  {
    if n < 16 {
      UpperSpelled(n);
      ToHexSpelled(n);
    }
    hide Ascii;
  }

  // ---------- byte strings ----------

  lemma HexEncodeByte(b: byte)
    ensures HexEncode([b]) == [Ascii("0123456789abcdef")[b / 16], Ascii("0123456789abcdef")[b % 16]]
  {
    ToHexSpelled(b / 16);
    ToHexSpelled(b % 16);
  }

  lemma Halves(i: nat, j: nat)
    ensures (2 * i + j) / 2 == i + j / 2 && (2 * i + j) % 2 == j % 2
  {}

  lemma HexEncodeSlice(data: seq<byte>, i: nat, j: nat)
    requires i <= j <= |data|
    ensures HexEncode(data[i..j]) == HexEncode(data)[2 * i..2 * j]
  {
    hide ToHex, HexEncode;
    var part, whole := HexEncode(data[i..j]), HexEncode(data);
    forall t | 0 <= t < 2 * (j - i) ensures part[t] == whole[2 * i + t] {
      Halves(i, t);
      assert data[i..j][t / 2] == data[i + t / 2];
    }
    assert part == whole[2 * i..2 * j];
  }

  lemma HexEncodeConcat(s: seq<byte>, t: seq<byte>)
    ensures HexEncode(s + t) == HexEncode(s) + HexEncode(t)
  {
    hide ToHex, HexEncode;
    HexEncodeSlice(s + t, 0, |s|);
    HexEncodeSlice(s + t, |s|, |s + t|);
    assert (s + t)[0..|s|] == s && (s + t)[|s|..|s + t|] == t;
    var all := HexEncode(s + t);
    assert all == all[0..2 * |s|] + all[2 * |s|..2 * |s + t|];
  }

  // ---------- numbers ----------

  /** A numeral is read from the left, to base 16. */
  lemma HexValueSpelled(digits: seq<byte>, n: nat)
    requires AllHex(digits) && n < 16
    ensures HexValue([]) == 0 && AllHex(digits + [Ascii("0123456789abcdef")[n]])
    ensures HexValue(digits + [Ascii("0123456789abcdef")[n]]) == HexValue(digits) * 16 + n
  {
    var c := Ascii("0123456789abcdef")[n];
    FromHexSpelled(c, n);
    assert (digits + [c])[..|digits|] == digits;
  }

  /** The two digits of a byte are a numeral for it. */
  lemma HexEncodeValue(b: byte)
    ensures AllHex(HexEncode([b])) && HexValue(HexEncode([b])) == b
  {
    var digits := HexEncode([b]);
    assert digits == [ToHex(b / 16), ToHex(b % 16)];
    assert digits[..1] == [ToHex(b / 16)] && digits[..1][..0] == [];
    assert HexValue(digits[..1]) == b / 16;
  }

  lemma {:induction false} HexValueGrows(digits: seq<byte>)
    requires AllHex(digits) && digits != [] && digits[0] != DIGIT_0
    ensures HexValue(digits) > 0
  {
    if |digits| > 1 {
      HexValueGrows(digits[..|digits| - 1]);
    } else {
      assert digits[..0] == [];
    }
  }

  /** The one numeral of a number that has no zero in front. */
  lemma {:induction false} HexNumberSpelled(digits: seq<byte>)
    requires AllHex(digits) && digits != [] && (|digits| > 1 ==> digits[0] != Letter('0'))
    ensures HexNumber(HexValue(digits)) == digits
    decreases |digits|
  {
    var init, last := digits[..|digits| - 1], digits[|digits| - 1];
    FromHexToHex(last);
    if |digits| == 1 {
      assert init == [] && digits == [last];
    } else {
      HexValueGrows(init);
      HexNumberSpelled(init);
      assert HexValue(digits) / 16 == HexValue(init) && HexValue(digits) % 16 == Digit(last);
      assert digits == init + [last];
    }
  }

  /** And it is one of these. */
  lemma {:induction false} HexNumberStarts(n: nat)
    ensures AllHex(HexNumber(n)) && HexValue(HexNumber(n)) == n
    ensures HexNumber(n)[0] == Letter('0') <==> n == 0
  {
    HexNumberValue(n);
    if n >= 16 {
      HexNumberStarts(n / 16);
    }
  }

  lemma NumbersSpelled()
    ensures HexNumber(0) == Ascii("0") && HexNumber(0x40) == Ascii("40") && HexNumber(0x1f3) == Ascii("1f3")
    ensures HexEncode([0xab]) == Ascii("ab")
  {
    assert HexNumber(0x1f3) == HexNumber(0x1f) + [ToHex(3)];
    assert HexNumber(0x1f) == HexNumber(1) + [ToHex(0xf)];
    assert HexNumber(0x40) == HexNumber(4) + [ToHex(0)];
  }

  // ---------- strtol and strtoul ----------

  /** A numeral at the start of a text, with a '-' in front or not. */
  predicate Signed(text: seq<byte>, sign: seq<byte>, digits: seq<byte>, rest: seq<byte>) {
    && text == sign + digits + rest && (sign == Ascii("-") || sign == [])
    && AllHex(digits) && digits != [] && Ends(rest, 0)
  }

  lemma SignedNumeral(text: seq<byte>, sign: seq<byte>, digits: seq<byte>, rest: seq<byte>)
    requires Signed(text, sign, digits, rest)
    ensures FindNumeral(text, 0) == Numeral(sign != [], |sign|, |sign| + |digits|)
    ensures Magnitude(text, FindNumeral(text, 0)) == HexValue(digits)
  {
    hide HexValue, AllHex, FindNumeral, Magnitude, Ends;
    assert Ascii("-") == [MINUS];
    PrintedNumeral(sign, digits, rest, sign != [], 0);
  }

  /** strtol on a machine with 32-bit long saturates. */
  lemma StrtolSpelled(text: seq<byte>, sign: seq<byte>, digits: seq<byte>, rest: seq<byte>)
    requires Signed(text, sign, digits, rest)
    ensures Strtol(text, 0).1 == |sign| + |digits|
    ensures Strtol(text, 0).0 ==
            if sign != [] then if HexValue(digits) > 0x8000_0000 then -0x8000_0000 else 0 - HexValue(digits)
            else if HexValue(digits) > 0x7fff_ffff then 0x7fff_ffff else HexValue(digits)
  {
    SignedNumeral(text, sign, digits, rest);
    hide FindNumeral, Magnitude, HexValue, Ascii, Ends;
  }

  lemma NegatedUnsigned(m: int)
    requires 0 <= m <= 0xffff_ffff
    ensures (-m) % (ULONG_MAX + 1) == if m == 0 then 0 else 0x1_0000_0000 - m
  {}

  /** strtoul saturates, too, and negates modulo 2^32. */
  lemma StrtoulSpelled(text: seq<byte>, sign: seq<byte>, digits: seq<byte>, rest: seq<byte>)
    requires Signed(text, sign, digits, rest)
    ensures Strtoul(text, 0).1 == |sign| + |digits|
    ensures Strtoul(text, 0).0 ==
            if HexValue(digits) > 0xffff_ffff then 0xffff_ffff
            else if sign != [] && HexValue(digits) > 0 then 0x1_0000_0000 - HexValue(digits) else HexValue(digits)
  {
    SignedNumeral(text, sign, digits, rest);
    var m := HexValue(digits);
    if m <= 0xffff_ffff {
      NegatedUnsigned(m);
    }
    hide FindNumeral, Magnitude, HexValue, Ascii, Ends, Signed;
  }

  /** Space in front, a plus sign and 0x are read over. */
  lemma NumeralSpelled()
    ensures FindNumeral(Ascii(" +0x1F;"), 0) == Numeral(false, 4, 6) && Ascii(" +0x1F;")[4..6] == Ascii("1F")
  {
    var text := Ascii(" +0x1F;");
    assert SkipSpaces(text, 0) == SkipSpaces(text, 1) == 1;
    assert SkipDigits(text, 4) == SkipDigits(text, 5) == SkipDigits(text, 6) == 6;
  }

  lemma CasesSpelled()
    ensures AnyValue(Ascii("1F")) == 31 && Strtol(Ascii(" +0x1F;"), 0) == (31, 6)
  {
    NumeralSpelled();
    hide FindNumeral;
    var text := Ascii("1F");
    assert text[..1] == Ascii("1") && text[..1][..0] == [];
    assert AnyValue(text[..1]) == 1;
  }

  /** Without digits there is no number: what stands there is not read. */
  lemma NothingSpelled()
    ensures Strtol(Ascii("-;"), 0) == (0, 0) && Strtoul(Ascii("-;"), 0) == (0, 0)
  {
    var text := Ascii("-;");
    assert SkipSpaces(text, 0) == 0 && SkipDigits(text, 1) == 1;
  }

  /** 0x without digits is a zero. */
  lemma PrefixSpelled()
    ensures Strtol(Ascii("0X;"), 0) == (0, 1)
  {
    var text := Ascii("0X;");
    assert SkipSpaces(text, 0) == 0 && SkipDigits(text, 0) == SkipDigits(text, 1) == 1;
    assert FindNumeral(text, 0) == Numeral(false, 0, 1);
    hide FindNumeral;
    assert text[0..1] == Ascii("0") && Ascii("0")[..0] == [];
  }
}
