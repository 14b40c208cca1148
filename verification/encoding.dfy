/**
 * The encoding page: the per-character table (decimal, hexadecimal, binary
 * and `U+` forms of each code unit), the Base64 encode/decode box with its
 * error text, and the number-system converter built on `parseInt` and
 * `toString`.
 */
module Encoding {
  import opened Wrappers
  import opened JsText
  import opened JsNumber
  import Base64

  /** One row of the character table: the code unit `split("")` gave, and its four forms. */
  datatype CharDetail = CharDetail(unit: CodeUnit, decimal: nat, hex: string, binary: string, unicode: string)

  /** Upper-case digits of `n` in `radix`, padded with zeros on the left to at least `width`. */
  function Padded(n: nat, radix: nat, width: nat): (d: string)
    requires 2 <= radix <= 36
    ensures |d| >= width && |d| >= 1
  {
    PadStart(Upper(NatToString(n, radix)), width, '0')
  }

  /**
   * The row for one code unit. `codePointAt(0)` of a one-unit string is that
   * unit, a lone surrogate included; it is 0 only for U+0000, where `|| 0`
   * gives 0 again, so `|| 0` cannot change the value.
   */
  function Detail(u: CodeUnit): (row: CharDetail)
    ensures row.unit == u && row.decimal == u
    ensures |row.hex| >= 4 && row.hex[..2] == "0x"
    ensures |row.binary| >= 8
    ensures |row.unicode| >= 6 && row.unicode[..2] == "U+"
  {
    CharDetail(u, u, "0x" + Padded(u, 16, 2), Padded(u, 2, 8), "U+" + Padded(u, 16, 4))
  }

  /** The table: one row per UTF-16 code unit of the input, in order. */
  function Details(s: string): (rows: seq<CharDetail>)
    ensures |rows| == Length(s)
    ensures forall i :: 0 <= i < |rows| ==> rows[i] == Detail(CodeUnits(s)[i])
  {
    var u := CodeUnits(s);
    seq(|u|, i requires 0 <= i < |u| => Detail(u[i]))
  }

  /** Text without characters above U+FFFF has one row per character, holding that character's value. */
  lemma DetailsBmp(s: string)
    requires IsBmp(s)
    ensures |Details(s)| == |s|
    ensures forall i :: 0 <= i < |s| ==> Details(s)[i].decimal == s[i] as int
  {
    BmpCodeUnits(s);
  }

  /** A character above U+FFFF gives two rows, its high and its low surrogate, which combine back into it. */
  lemma DetailsAstral(c: char)
    requires c as int >= 0x1_0000
    ensures |Details([c])| == 2
    ensures IsHighSurrogate(Details([c])[0].decimal) && IsLowSurrogate(Details([c])[1].decimal)
    ensures Combine(Details([c])[0].unit, Details([c])[1].unit) == c as int
  {
    assert CodeUnits([c]) == Utf16(c) + CodeUnits([]);
    Utf16Combines(c);
  }

  /** Padded upper-case digits are digits of the radix and still denote `n`. */
  lemma PaddedValue(n: nat, radix: nat, width: nat)
    requires 2 <= radix <= 36
    ensures AllDigitsIn(Padded(n, radix, width), radix)
    ensures DigitsValue(Padded(n, radix, width), radix) == n
  {
    var d := NatToString(n, radix);
    NatToStringValue(n, radix);
    UpperDigitsValue(d, radix);
    var u := Upper(d);
    if |u| < width {
      LeadingZerosValue(width - |u|, u, radix);
    }
  }

  /** `parseInt` in radix 16 skips the `0x` in front of hexadecimal digits. */
  lemma ParseIntHex(z: string)
    requires z != [] && AllDigitsIn(z, 16)
    ensures ParseInt("0x" + z, 16) == Some(DigitsValue(z, 16))
  {
    var s := "0x" + z;
    assert TrimStart(s) == s;
    assert s[2..] == z;
    assert SignAndDigits(s, 16) == (false, z);
    AllDigitsPrefix(z, 16);
    ParseIntWhole(s, false, z, 16);
  }

  /** Every form in a row reads back, with `parseInt`, as the row's decimal value. */
  lemma DetailParsesBack(u: CodeUnit)
    ensures ParseInt(Detail(u).hex, 16) == Some(u as int)
    ensures ParseInt(Detail(u).binary, 2) == Some(u as int)
    ensures ParseInt(Detail(u).unicode[2..], 16) == Some(u as int)
  {
    PaddedValue(u, 16, 2);
    PaddedValue(u, 2, 8);
    PaddedValue(u, 16, 4);
    ParseIntHex(Padded(u, 16, 2));
    ParseIntDigits(Padded(u, 2, 8), 2);
    assert Detail(u).unicode[2..] == Padded(u, 16, 4);
    ParseIntDigits(Padded(u, 16, 4), 16);
  }

  /** `n.toString(radix)` padded to a width it fits in is exactly that wide. */
  lemma PaddedExact(n: nat, radix: nat, width: nat)
    requires 2 <= radix <= 36 && 1 <= width && n < Pow(radix, width)
    ensures |Padded(n, radix, width)| == width
  {
    NatToStringLength(n, radix, width);
  }

  /** The `U+` form always has exactly four digits; for a unit that fits in a byte the other columns are exactly `0x` and two digits, and eight bits, and wider otherwise. */
  lemma DetailWidths(u: CodeUnit)
    ensures |Detail(u).unicode| == 6
    ensures |Detail(u).hex| == 4 <==> u < 256
    ensures |Detail(u).binary| == 8 <==> u < 256
  {
    assert Pow(16, 2) == 256;
    assert Pow(2, 8) == 256;
    assert Pow(16, 4) == 0x1_0000;
    PaddedExact(u, 16, 4);
    if u < 256 {
      PaddedExact(u, 16, 2);
      PaddedExact(u, 2, 8);
    } else {
      PaddedValue(u, 16, 2);
      PaddedValue(u, 2, 8);
      DigitsBelowPow(Padded(u, 16, 2), 16);
      DigitsBelowPow(Padded(u, 2, 8), 2);
    }
  }

  datatype Mode = EncodeMode | DecodeMode

  const Base64Error: string := "Invalid input for selected mode"

  /** The Base64 box: `btoa` or `atob`, with the fixed message where they throw. */
  function Base64Output(mode: Mode, input: string): (r: string)
    ensures mode == EncodeMode && !IsLatin1(input) ==> r == Base64Error
    ensures mode == EncodeMode && IsLatin1(input) ==> |r| % 4 == 0
  {
    var result := if mode == EncodeMode then Base64.Btoa(input) else Base64.Atob(input);
    result.GetOr(Base64Error)
  }

  /** Decoding what the box encoded gives the Latin-1 text back. */
  lemma Base64BoxRoundTrip(s: string)
    requires IsLatin1(s)
    ensures Base64Output(DecodeMode, Base64Output(EncodeMode, s)) == s
  {
    Base64.AtobBtoa(s);
  }

  /** Decoding text with a character that is not Base64, `=` or ASCII whitespace shows the message. */
  lemma Base64BoxRejects(s: string, i: nat)
    requires i < |s| && !Base64.InAlphabet(s[i]) && s[i] != '=' && !Base64.IsAsciiWhitespace(s[i])
    ensures Base64Output(DecodeMode, s) == Base64Error
  {
    Base64.AtobRejectsForeign(s, i);
  }

  /** Decoding text whose length without ASCII whitespace leaves remainder 1 modulo 4 shows the message. */
  lemma Base64BoxRejectsLength(s: string)
    requires |Base64.RemoveAsciiWhitespace(s)| % 4 == 1
    ensures Base64Output(DecodeMode, s) == Base64Error
  {
    Base64.AtobRejectsLength(s);
  }

  /** Decoding text with an `=` outside the final padding shows the message. */
  lemma Base64BoxRejectsMisplacedPad(s: string, j: nat)
    requires var w := Base64.RemoveAsciiWhitespace(s);
      j < |w| && w[j] == '=' && (|w| % 4 != 0 || j + 2 < |w| || (j + 2 == |w| && w[j + 1] != '='))
    ensures Base64Output(DecodeMode, s) == Base64Error
  {
    Base64.AtobRejectsMisplacedPad(s, j);
  }

  const InvalidNumber: string := "Invalid input"

  /**
   * The converter: read `input` in `inBase` as `parseInt` does, then write the
   * number with `toString(outBase)` and upper-case the text. The page offers
   * the bases 2, 8, 10 and 16; any radix `toString` accepts behaves the same
   * way. The text reads back as the number exactly when `toString` writes
   * plain digits: from 10^21 on, base 10 gives exponent form, which reads back
   * as its leading digit, and past the largest double the page shows
   * "INFINITY".
   */
  function Convert(input: string, inBase: nat, outBase: nat): (r: string)
    requires 2 <= inBase <= 36 && 2 <= outBase <= 36
    ensures r == InvalidNumber <==> ParseInt(input, inBase) == None
    ensures var d := ParseInt(input, inBase);
      d.Some? ==> (ParseInt(r, outBase) == d <==> WrittenInDigits(d.value, outBase))
    ensures var d := ParseInt(input, inBase);
      d.Some? && WrittenInDigits(d.value, outBase) ==> IsNumeral(r, outBase)
    ensures var d := ParseInt(input, inBase);
      d.Some? && outBase == 10 && ExponentFrom <= Abs(d.value) < InfinityBound ==>
        ParseInt(r, 10).Some?
        && ParseInt(r, 10).value == if d.value < 0 then -(LeadingDigit(Abs(d.value)) as int) else LeadingDigit(Abs(d.value))
    ensures var d := ParseInt(input, inBase);
      d.Some? && Abs(d.value) >= InfinityBound ==> r == if d.value < 0 then "-INFINITY" else "INFINITY"
  {
    var decimal := ParseInt(input, inBase);
    if decimal.None? then InvalidNumber
    else
      var v := decimal.value;
      WrittenNumber(v, outBase);
      Upper(NumberToString(v, outBase))
  }

  /** What the converter shows for the number `v` in `radix`, and how that text reads back. */
  lemma WrittenNumber(v: int, radix: nat)
    requires 2 <= radix <= 36
    ensures var r := Upper(NumberToString(v, radix));
      r != InvalidNumber
      && (ParseInt(r, radix) == Some(v) <==> WrittenInDigits(v, radix))
      && (WrittenInDigits(v, radix) ==> IsNumeral(r, radix))
    ensures radix == 10 && ExponentFrom <= Abs(v) < InfinityBound ==>
      ParseInt(Upper(NumberToString(v, radix)), 10).Some?
      && ParseInt(Upper(NumberToString(v, radix)), 10).value
        == if v < 0 then -(LeadingDigit(Abs(v)) as int) else LeadingDigit(Abs(v))
    ensures Abs(v) >= InfinityBound ==> Upper(NumberToString(v, radix)) == if v < 0 then "-INFINITY" else "INFINITY"
  {
    ParseIntNumberToString(v, radix);
    if WrittenInDigits(v, radix) {
      UpperIntToStringNumeral(v, radix);
    }
    if radix == 10 && ExponentFrom <= Abs(v) < InfinityBound {
      ParseIntExponential(v);
    }
    if Abs(v) >= InfinityBound {
      InfinityBranch(v, radix);
    }
    NotInvalid(v, radix);
  }

  /** A written number, plain, in exponent form or infinite, is never the text "Invalid input". */
  lemma NotInvalid(i: int, radix: nat)
    requires 2 <= radix <= 36
    ensures Upper(NumberToString(i, radix)) != InvalidNumber
  {
    var u := Upper(NumberToString(i, radix));
    assert InvalidNumber[0] == 'I' && InvalidNumber[7] == ' ' && |InvalidNumber| == 13;
    if Abs(i) >= InfinityBound {
      InfinityBranch(i, radix);
    } else if radix == 10 && Abs(i) >= ExponentFrom {
      ExponentialText(i);
    } else if i >= 0 {
      UpperDigitsValue(NatToString(i, radix), radix);
      assert |u| > 7 ==> IsDigitIn(u[7], radix);
    }
  }

  /** Exponent form starts with a minus sign or with a decimal digit, never with `I`. */
  lemma ExponentialText(i: int)
    requires ExponentFrom <= Abs(i) < InfinityBound
    ensures Upper(NumberToString(i, 10)) != [] && Upper(NumberToString(i, 10))[0] != 'I'
  {
    ExponentialShape(Abs(i));
    if i < 0 {
      NegativeExponentialText(i);
    } else {
      ExponentialBranch(i);
    }
  }

  /**
   * Converting from `b1` to `b2` and back gives the canonical upper-case form
   * in `b1` whenever the number is written in plain digits in `b2`; otherwise
   * the intermediate text no longer denotes the number.
   */
  lemma ConvertRoundTrip(s: string, b1: nat, b2: nat)
    requires 2 <= b1 <= 36 && 2 <= b2 <= 36
    requires Convert(s, b1, b2) != InvalidNumber
    ensures WrittenInDigits(ParseInt(s, b1).value, b2) ==> Convert(Convert(s, b1, b2), b2, b1) == Convert(s, b1, b1)
    ensures !WrittenInDigits(ParseInt(s, b1).value, b2) ==> ParseInt(Convert(s, b1, b2), b2) != ParseInt(s, b1)
  {
  }

  /** Plain digits read back as their number, so converting them to the same base gives what `toString` writes. */
  lemma ConvertCanonical(i: int, b: nat)
    requires 2 <= b <= 36
    ensures Convert(Upper(IntToString(i, b)), b, b) == Upper(NumberToString(i, b))
    ensures WrittenInDigits(i, b) ==> Convert(Upper(IntToString(i, b)), b, b) == Upper(IntToString(i, b))
  {
    ParseIntToString(i, b);
  }

  /**
   * Converting to the same base leaves a numeral unchanged exactly when its
   * number is written in plain digits, and apart from the error text changes
   * everything else: the numerals are the converter's canonical forms.
   */
  lemma NumeralFixed(r: string, b: nat)
    requires 2 <= b <= 36
    ensures IsNumeral(r, b) ==> ParseInt(r, b).Some? && (Convert(r, b, b) == r <==> WrittenInDigits(ParseInt(r, b).value, b))
    ensures Convert(r, b, b) == r && r != InvalidNumber ==> IsNumeral(r, b)
  {
    if IsNumeral(r, b) {
      NumeralUnique(r, b);
      ConvertCanonical(ParseInt(r, b).value, b);
    }
  }

  /** Only the longest run of valid digits counts: whatever follows it is ignored (bar a `0x` read as a prefix in base 16). */
  lemma ConvertIgnoresTail(z: string, rest: string, inBase: nat, outBase: nat)
    requires 2 <= inBase <= 36 && 2 <= outBase <= 36
    requires z != [] && AllDigitsIn(z, inBase)
    requires rest == [] || !IsDigitIn(rest[0], inBase)
    requires !(inBase == 16 && z == "0" && rest != [] && (rest[0] == 'x' || rest[0] == 'X'))
    ensures Convert(z + rest, inBase, outBase) == Convert(z, inBase, outBase)
  {
    ParseIntPrefix(z, rest, inBase);
  }

  /** The page's initial values: "42" in base 10 reads as 101010 in base 2. */
  lemma ConvertExample()
    ensures Convert("42", 10, 2) == "101010"
  {
    FortyTwoParses();
    FortyTwoWritten();
  }

  lemma FortyTwoWritten()
    ensures Upper(IntToString(42, 2)) == "101010"
  {
    FortyTwoInBinary();
    assert Upper("101010") == "101010";
  }

  lemma FortyTwoParses()
    ensures ParseInt("42", 10) == Some(42)
  {
    assert DigitsValue("42", 10) == 42 by {
      assert "42"[..1] == "4";
    }
    ParseIntDigits("42", 10);
  }

  lemma FortyTwoInBinary()
    ensures NatToString(42, 2) == "101010"
  {
    assert NatToString(1, 2) == "1";
    assert NatToString(2, 2) == "10";
    assert NatToString(5, 2) == "101";
    assert NatToString(10, 2) == "1010";
    assert NatToString(21, 2) == "10101";
  }

  /** From 10^21 on, base 10 shows exponent form: "1" and twenty-one zeros convert to "1E+21". */
  lemma ConvertExponentExample()
    ensures Convert("1" + Repeat('0', 21), 10, 10) == "1E+21"
  {
    TenToTheTwentyOneParses();
    TenToTheTwentyOneWritten();
  }

  /** Exponent form reads back as its leading digit: "1E+21" converts to "1". */
  lemma ConvertExponentBack()
    ensures Convert("1E+21", 10, 10) == "1"
  {
    ExponentTextParses();
    OneWritten();
  }

  lemma ExponentTextParses()
    ensures ParseInt("1E+21", 10) == Some(1)
  {
    ExponentTextSplits();
    ParseIntPrefix("1", "E+21", 10);
    assert DigitsValue("1", 10) == 1 by {
      assert "1"[..0] == [];
    }
    ParseIntDigits("1", 10);
  }

  lemma ExponentTextSplits()
    ensures "1" + "E+21" == "1E+21"
  {
  }

  lemma OneWritten()
    ensures Upper(NumberToString(1, 10)) == "1"
  {
    assert NumberToString(1, 10) == "1";
    assert Upper("1") == "1";
  }

  lemma TenToTheTwentyOneParses()
    ensures ParseInt("1" + Repeat('0', 21), 10) == Some(ExponentFrom as int)
  {
    ExponentFromValue();
    TenPowerText(21);
    NatToStringValue(Pow(10, 21), 10);
    ParseIntDigits(NatToString(Pow(10, 21), 10), 10);
  }

  lemma TenToTheTwentyOneWritten()
    ensures Upper(NumberToString(ExponentFrom, 10)) == "1E+21"
  {
    ExponentFromValue();
    TenPowerText(21);
    TenPowerSignificand(21);
    assert Significand(ExponentFrom) == "1";
    assert DecimalExponent(ExponentFrom) == 21;
    assert NatToString(2, 10) == "2";
    assert NatToString(21, 10) == "21";
    assert Exponential(ExponentFrom) == "1e+21";
    assert NumberToString(ExponentFrom, 10) == "1e+21";
    assert Upper("1e+21") == "1E+21";
  }
}
