/**
 * `Number.prototype.toString(radix)` and `parseInt(string, radix)` on integers,
 * for the radices 2..36. Values are unbounded integers here: `NumberToString`
 * follows the double's text where it leaves plain digits, writing "Infinity"
 * past the largest double and exponent form from 10^21 in radix 10, but it
 * keeps every digit of the exact integer where a double would round.
 */
module JsNumber {
  import opened Wrappers
  import opened JsText

  /** The value `parseInt` gives one character, in either case; None for a non-digit. */
  function DigitValue(c: char): (r: Option<nat>)
    ensures r.Some? <==> IsAsciiAlnum(c)
    ensures r.Some? ==> r.value < 36
  {
    if IsAsciiDigit(c) then Some(c as int - '0' as int)
    else if IsAsciiLower(c) then Some(c as int - 'a' as int + 10)
    else if IsAsciiUpper(c) then Some(c as int - 'A' as int + 10)
    else None
  }

  /** The character `toString` writes for digit `d`: `0`-`9`, then `a`-`z`. */
  function DigitChar(d: nat): (c: char)
    requires d < 36
    ensures DigitValue(c) == Some(d)
    ensures c == '0' <==> d == 0
  {
    if d < 10 then ('0' as int + d) as char else ('a' as int + (d - 10)) as char
  }

  predicate IsDigitIn(c: char, radix: nat) {
    DigitValue(c).Some? && DigitValue(c).value < radix
  }

  predicate AllDigitsIn(z: string, radix: nat) {
    forall i :: 0 <= i < |z| ==> IsDigitIn(z[i], radix)
  }

  /** The number a string of digits denotes, most significant digit first. */
  function DigitsValue(z: string, radix: nat): nat
    requires AllDigitsIn(z, radix)
  {
    if z == [] then 0
    else DigitsValue(z[..|z| - 1], radix) * radix + DigitValue(z[|z| - 1]).value
  }

  /** `n.toString(radix)` for a non-negative integer. */
  function NatToString(n: nat, radix: nat): (r: string)
    requires 2 <= radix <= 36
    ensures |r| >= 1
    ensures AllDigitsIn(r, radix)
    ensures r[0] == '0' <==> n == 0
    decreases n
  {
    if n < radix then [DigitChar(n)]
    else
      DivMod(n, radix);
      var high := NatToString(n / radix, radix);
      var r := high + [DigitChar(n % radix)];
      assert r[0] == high[0];
      r
  }

  /** Euclidean division by a radix: quotient, remainder and the bound on each. */
  lemma DivMod(n: nat, radix: nat)
    requires 2 <= radix <= n
    ensures 1 <= n / radix < n
    ensures n % radix < radix
    ensures n == (n / radix) * radix + n % radix
  {
  }

  /** `i.toString(radix)`: a minus sign, then the digits of the magnitude. */
  function IntToString(i: int, radix: nat): (r: string)
    requires 2 <= radix <= 36
    ensures |r| >= 1
    ensures i < 0 <==> r[0] == '-'
  {
    if i < 0 then "-" + NatToString(-i, radix) else NatToString(i, radix)
  }

  /** Length of the longest prefix of `s` made of digits of `radix`. */
  function DigitPrefix(s: string, radix: nat): (k: nat)
    ensures k <= |s|
    ensures AllDigitsIn(s[..k], radix)
    ensures k < |s| ==> !IsDigitIn(s[k], radix)
  {
    if s == [] || !IsDigitIn(s[0], radix) then 0
    else
      var k' := DigitPrefix(s[1..], radix);
      assert s[..k' + 1] == [s[0]] + s[1..][..k'];
      k' + 1
  }

  /**
   * `parseInt(s, radix)` for a radix in 2..36, as ECMA-262 defines it: skip
   * leading whitespace, take one optional sign, drop a `0x`/`0X` prefix when the
   * radix is 16, then read the longest run of digits. None stands for NaN.
   */
  function ParseInt(s: string, radix: nat): (r: Option<int>)
    requires 2 <= radix <= 36
  {
    var signAndDigits := SignAndDigits(s, radix);
    ReadDigits(signAndDigits.0, signAndDigits.1, radix)
  }

  /** The number the leading digits of `body` denote, negated after a minus sign; None when there are none. */
  function ReadDigits(negative: bool, body: string, radix: nat): (r: Option<int>)
    requires 2 <= radix <= 36
  {
    var k := DigitPrefix(body, radix);
    if k == 0 then None
    else
      var magnitude: int := DigitsValue(body[..k], radix);
      Some(if negative then -magnitude else magnitude)
  }

  /** The sign `parseInt` reads, and the text it then scans for digits. */
  function SignAndDigits(s: string, radix: nat): (bool, string) {
    var t := TrimStart(s);
    var negative := |t| > 0 && t[0] == '-';
    var unsigned := if |t| > 0 && (t[0] == '-' || t[0] == '+') then t[1..] else t;
    (negative, StripHexPrefix(unsigned, radix))
  }

  /** In radix 16 `parseInt` skips a leading `0x` or `0X`. */
  function StripHexPrefix(u: string, radix: nat): string {
    if radix == 16 && |u| >= 2 && u[0] == '0' && (u[1] == 'x' || u[1] == 'X') then u[2..] else u
  }

  lemma StripHexPrefixOfDigits(z: string, radix: nat)
    requires radix <= 36 && AllDigitsIn(z, radix)
    ensures StripHexPrefix(z, radix) == z
  {
    if radix == 16 && |z| >= 2 {
      assert IsDigitIn(z[1], radix);
    }
  }

  lemma NotSpaceDigit(c: char, radix: nat)
    requires IsDigitIn(c, radix)
    ensures !IsSpace(c) && c != '-' && c != '+'
  {
    assert IsAsciiAlnum(c);
  }

  /** A digit string is neither signed, padded nor `0x`-prefixed. */
  lemma SignAndDigitsOfDigits(z: string, radix: nat)
    requires 2 <= radix <= 36
    requires z != [] && AllDigitsIn(z, radix)
    ensures SignAndDigits(z, radix) == (false, z)
  {
    NotSpaceDigit(z[0], radix);
    assert TrimStart(z) == z;
    StripHexPrefixOfDigits(z, radix);
  }

  function Pow(b: nat, k: nat): nat {
    if k == 0 then 1 else b * Pow(b, k - 1)
  }

  /** `k` digits denote a number below `radix^k`. */
  lemma {:induction false} DigitsBelowPow(z: string, radix: nat)
    requires 2 <= radix && AllDigitsIn(z, radix)
    ensures DigitsValue(z, radix) < Pow(radix, |z|)
  {
    if z != [] {
      var h := z[..|z| - 1];
      assert AllDigitsIn(h, radix) by {
        forall i | 0 <= i < |h| ensures IsDigitIn(h[i], radix) {
          assert h[i] == z[i];
        }
      }
      DigitsBelowPow(h, radix);
      var v, p, d := DigitsValue(h, radix), Pow(radix, |h|), DigitValue(z[|z| - 1]).value;
      assert DigitsValue(z, radix) == v * radix + d;
      assert Pow(radix, |z|) == radix * p;
      MulStep(v, p, d, radix);
    }
  }

  lemma MulStep(v: nat, p: nat, d: nat, radix: nat)
    requires v < p && d < radix
    ensures v * radix + d < radix * p
  {
    assert v * radix <= (p - 1) * radix;
  }

  lemma DigitsValueSnoc(z: string, c: char, radix: nat)
    requires AllDigitsIn(z, radix) && IsDigitIn(c, radix)
    ensures AllDigitsIn(z + [c], radix)
    ensures DigitsValue(z + [c], radix) == DigitsValue(z, radix) * radix + DigitValue(c).value
  {
    assert (z + [c])[..|z|] == z;
  }

  /** Reading back what `toString` wrote gives the number. */
  lemma {:induction false} NatToStringValue(n: nat, radix: nat)
    requires 2 <= radix <= 36
    ensures DigitsValue(NatToString(n, radix), radix) == n
    decreases n
  {
    if n >= radix {
      DivMod(n, radix);
      NatToStringValue(n / radix, radix);
      DigitsValueSnoc(NatToString(n / radix, radix), DigitChar(n % radix), radix);
    }
  }

  /** Upper-casing a digit string keeps every digit and its value. */
  lemma {:induction false} UpperDigitsValue(z: string, radix: nat)
    requires AllDigitsIn(z, radix)
    ensures AllDigitsIn(Upper(z), radix)
    ensures DigitsValue(Upper(z), radix) == DigitsValue(z, radix)
  {
    var u := Upper(z);
    forall i | 0 <= i < |z| ensures DigitValue(u[i]) == DigitValue(z[i]) {
      assert u[i] == AsciiUpper(z[i]);
    }
    if z != [] {
      assert Upper(z[..|z| - 1]) == u[..|u| - 1];
      UpperDigitsValue(z[..|z| - 1], radix);
    }
  }

  /** Leading zeros add nothing to the value of a digit string. */
  lemma {:induction false} LeadingZerosValue(m: nat, z: string, radix: nat)
    requires 2 <= radix && AllDigitsIn(z, radix)
    ensures AllDigitsIn(Repeat('0', m) + z, radix)
    ensures DigitsValue(Repeat('0', m) + z, radix) == DigitsValue(z, radix)
    decreases m, |z|
  {
    var w := Repeat('0', m) + z;
    assert AllDigitsIn(w, radix) by {
      forall i | 0 <= i < |w| ensures IsDigitIn(w[i], radix) {
        if i >= m { assert w[i] == z[i - m]; }
      }
    }
    if z == [] {
      assert w == Repeat('0', m);
      if m > 0 {
        assert w[..|w| - 1] == Repeat('0', m - 1) + [];
        LeadingZerosValue(m - 1, [], radix);
      }
    } else {
      assert w[..|w| - 1] == Repeat('0', m) + z[..|z| - 1];
      LeadingZerosValue(m, z[..|z| - 1], radix);
    }
  }

  /** A string made only of digits is read whole. */
  lemma {:induction false} AllDigitsPrefix(z: string, radix: nat)
    requires AllDigitsIn(z, radix)
    ensures DigitPrefix(z, radix) == |z|
  {
    if z != [] {
      assert IsDigitIn(z[0], radix);
      AllDigitsPrefix(z[1..], radix);
    }
  }

  /** `parseInt` reads a non-empty digit string as the number it denotes. */
  lemma ParseIntDigits(z: string, radix: nat)
    requires 2 <= radix <= 36
    requires z != [] && AllDigitsIn(z, radix)
    ensures ParseInt(z, radix) == Some(DigitsValue(z, radix))
  {
    SignAndDigitsOfDigits(z, radix);
    AllDigitsPrefix(z, radix);
    ParseIntWhole(z, false, z, radix);
  }

  /** `parseInt` undoes upper-cased `toString` in the same radix, sign included. */
  lemma ParseIntToString(i: int, radix: nat)
    requires 2 <= radix <= 36
    ensures ParseInt(Upper(IntToString(i, radix)), radix) == Some(i)
  {
    var n: nat := if i < 0 then -i else i;
    var d := NatToString(n, radix);
    NatToStringValue(n, radix);
    UpperDigitsValue(d, radix);
    var u := Upper(d);
    if i >= 0 {
      ParseIntDigits(u, radix);
    } else {
      assert Upper(IntToString(i, radix)) == "-" + u by {
        assert IntToString(i, radix) == "-" + d;
      }
      ParseIntNegative(u, radix);
    }
  }

  /**
   * The text `i.toString(radix).toUpperCase()` can be: an optional minus sign,
   * then digits of the radix with no lower-case letter and no leading zero, and
   * zero written as `0` alone.
   */
  predicate IsNumeral(r: string, radix: nat) {
    var body := if r != [] && r[0] == '-' then r[1..] else r;
    body != [] && AllDigitsIn(body, radix)
    && (forall k :: 0 <= k < |body| ==> !IsAsciiLower(body[k]))
    && (body[0] == '0' ==> r == "0")
  }

  /** Upper-cased `toString` writes a numeral: sign, upper-case digits, no leading zero. */
  lemma UpperIntToStringNumeral(i: int, radix: nat)
    requires 2 <= radix <= 36
    ensures IsNumeral(Upper(IntToString(i, radix)), radix)
  {
    var n: nat := if i < 0 then -i else i;
    var d := NatToString(n, radix);
    UpperDigitsValue(d, radix);
    var u := Upper(d);
    assert u[0] == AsciiUpper(d[0]);
    assert u[0] == '0' ==> d[0] == '0';
    if i >= 0 {
      assert u[0] != '-' by {
        assert IsDigitIn(d[0], radix);
      }
      if n == 0 {
        assert d == "0";
      }
    } else {
      assert Upper(IntToString(i, radix)) == "-" + u by {
        assert IntToString(i, radix) == "-" + d;
      }
      assert ("-" + u)[1..] == u;
    }
  }

  /** Every numeral is exactly what upper-cased `toString` writes for the number `parseInt` reads from it. */
  lemma NumeralUnique(r: string, radix: nat)
    requires 2 <= radix <= 36 && IsNumeral(r, radix)
    ensures ParseInt(r, radix).Some?
    ensures r == Upper(IntToString(ParseInt(r, radix).value, radix))
  {
    if r[0] == '-' {
      var body := r[1..];
      assert r == "-" + body;
      NegativeNumeral(body, radix);
    } else {
      PlainNumeral(r, radix);
    }
  }

  /** Upper-case digits without a leading zero are what `toString` writes for the value `parseInt` reads. */
  lemma PlainNumeral(z: string, radix: nat)
    requires 2 <= radix <= 36 && z != [] && AllDigitsIn(z, radix)
    requires forall k :: 0 <= k < |z| ==> !IsAsciiLower(z[k])
    requires z[0] == '0' ==> z == "0"
    ensures ParseInt(z, radix).Some?
    ensures z == Upper(IntToString(ParseInt(z, radix).value, radix))
  {
    ParseIntDigits(z, radix);
    UpperNatToString(z, radix);
  }

  /** A minus sign before upper-case digits without a leading zero is what `toString` writes for the negated value. */
  lemma NegativeNumeral(body: string, radix: nat)
    requires 2 <= radix <= 36 && body != [] && AllDigitsIn(body, radix) && body[0] != '0'
    requires forall k :: 0 <= k < |body| ==> !IsAsciiLower(body[k])
    ensures ParseInt("-" + body, radix).Some?
    ensures "-" + body == Upper(IntToString(ParseInt("-" + body, radix).value, radix))
  {
    ParseIntNegative(body, radix);
    var v := DigitsValue(body, radix);
    LeadingDigitPositive(body, radix);
    UpperNatToString(body, radix);
    UpperNegative(v, radix);
  }

  /** Upper-casing `toString` of a negative number keeps the minus sign in front of the upper-cased magnitude. */
  lemma UpperNegative(v: nat, radix: nat)
    requires 2 <= radix <= 36 && v >= 1
    ensures Upper(IntToString(-(v as int), radix)) == "-" + Upper(NatToString(v, radix))
  {
    var d := NatToString(v, radix);
    assert IntToString(-(v as int), radix) == "-" + d;
  }

  /** Upper-case digits without a leading zero are what upper-cased `toString` writes for their value. */
  lemma {:induction false} UpperNatToString(z: string, radix: nat)
    requires 2 <= radix <= 36 && z != [] && AllDigitsIn(z, radix)
    requires forall k :: 0 <= k < |z| ==> !IsAsciiLower(z[k])
    requires z[0] == '0' ==> z == "0"
    ensures Upper(NatToString(DigitsValue(z, radix), radix)) == z
  {
    var h := z[..|z| - 1];
    var c := z[|z| - 1];
    assert z == h + [c];
    if h == [] {
      UpperSingleDigit(c, radix);
    } else {
      assert h[0] == z[0];
      assert AllDigitsIn(h, radix) && forall k :: 0 <= k < |h| ==> !IsAsciiLower(h[k]) by {
        forall k | 0 <= k < |h| ensures IsDigitIn(h[k], radix) && !IsAsciiLower(h[k]) {
          assert h[k] == z[k];
        }
      }
      UpperNatToString(h, radix);
      UpperSnocDigit(h, c, radix);
    }
  }

  /** A single upper-case digit is what upper-cased `toString` writes for its value. */
  lemma UpperSingleDigit(c: char, radix: nat)
    requires 2 <= radix <= 36 && IsDigitIn(c, radix) && !IsAsciiLower(c)
    ensures AllDigitsIn([c], radix)
    ensures Upper(NatToString(DigitsValue([c], radix), radix)) == [c]
  {
    assert [c][..0] == [];
    assert DigitsValue([c], radix) == DigitValue(c).value;
    UpperDigitChar(c, radix);
  }

  /** The inductive step: if `h` is written back by upper-cased `toString`, so is `h` followed by a digit. */
  lemma UpperSnocDigit(h: string, c: char, radix: nat)
    requires 2 <= radix <= 36 && h != [] && AllDigitsIn(h, radix) && h[0] != '0'
    requires IsDigitIn(c, radix) && !IsAsciiLower(c)
    requires Upper(NatToString(DigitsValue(h, radix), radix)) == h
    ensures AllDigitsIn(h + [c], radix)
    ensures Upper(NatToString(DigitsValue(h + [c], radix), radix)) == h + [c]
  {
    var high := NatToString(DigitsValue(h, radix), radix);
    var x := DigitChar(DigitValue(c).value);
    NatToStringSnoc(h, c, radix);
    UpperDigitChar(c, radix);
    assert Upper(high + [x]) == Upper(high) + [AsciiUpper(x)];
  }

  /** Appending a digit to digits without a leading zero appends its character to what `toString` writes. */
  lemma NatToStringSnoc(h: string, c: char, radix: nat)
    requires 2 <= radix <= 36 && h != [] && AllDigitsIn(h, radix) && h[0] != '0' && IsDigitIn(c, radix)
    ensures AllDigitsIn(h + [c], radix)
    ensures NatToString(DigitsValue(h + [c], radix), radix)
      == NatToString(DigitsValue(h, radix), radix) + [DigitChar(DigitValue(c).value)]
  {
    var z := h + [c];
    assert AllDigitsIn(z, radix) by {
      forall k | 0 <= k < |z| ensures IsDigitIn(z[k], radix) {
        if k < |h| { assert z[k] == h[k]; }
      }
    }
    assert z[..|z| - 1] == h;
    var v := DigitsValue(h, radix);
    var d := DigitValue(c).value;
    var n := DigitsValue(z, radix);
    assert n == v * radix + d;
    LeadingDigitPositive(h, radix);
    DivModOf(v, d, radix);
    MulPositive(v, radix);
    assert n >= radix && n / radix == v && n % radix == d;
  }

  /** A digit that is not a lower-case letter is the upper-cased digit `toString` writes for its value. */
  lemma UpperDigitChar(c: char, radix: nat)
    requires IsDigitIn(c, radix) && !IsAsciiLower(c)
    ensures AsciiUpper(DigitChar(DigitValue(c).value)) == c
  {
  }

  /** A digit string that does not start with `0` denotes a positive number. */
  lemma {:induction false} LeadingDigitPositive(z: string, radix: nat)
    requires 2 <= radix && z != [] && AllDigitsIn(z, radix) && z[0] != '0'
    ensures DigitsValue(z, radix) >= 1
  {
    var h := z[..|z| - 1];
    if h == [] {
      assert z == [z[0]];
    } else {
      assert h[0] == z[0];
      LeadingDigitPositive(h, radix);
      MulPositive(DigitsValue(h, radix), radix);
    }
  }

  lemma MulPositive(v: nat, radix: nat)
    requires 1 <= v && 2 <= radix
    ensures v * radix >= radix
  {
  }

  /** Euclidean division undoes `v * radix + d` for a digit `d`. */
  lemma DivModOf(v: nat, d: nat, radix: nat)
    requires d < radix && 2 <= radix
    ensures (v * radix + d) / radix == v && (v * radix + d) % radix == d
  {
    var n := v * radix + d;
    var q := n / radix;
    assert q * radix + n % radix == n;
    assert q * radix < (v + 1) * radix by {
      assert (v + 1) * radix == v * radix + radix;
    }
    MulLess(q, v + 1, radix);
    assert v * radix < (q + 1) * radix by {
      assert (q + 1) * radix == q * radix + radix;
    }
    MulLess(v, q + 1, radix);
  }

  lemma MulLess(a: nat, b: nat, c: nat)
    requires 0 < c && a * c < b * c
    ensures a < b
  {
  }

  /** `parseInt` reads a minus sign followed by digits as the negated value. */
  lemma ParseIntNegative(u: string, radix: nat)
    requires 2 <= radix <= 36
    requires u != [] && AllDigitsIn(u, radix)
    ensures ParseInt("-" + u, radix) == Some(-(DigitsValue(u, radix) as int))
  {
    var s := "-" + u;
    assert TrimStart(s) == s;
    assert s[1..] == u;
    StripHexPrefixOfDigits(u, radix);
    assert SignAndDigits(s, radix) == (true, u);
    AllDigitsPrefix(u, radix);
    ParseIntWhole(s, true, u, radix);
  }

  /** When every character after the sign is a digit, `parseInt` reads all of them. */
  lemma ParseIntWhole(s: string, negative: bool, u: string, radix: nat)
    requires 2 <= radix <= 36
    requires u != [] && AllDigitsIn(u, radix)
    requires SignAndDigits(s, radix) == (negative, u)
    requires DigitPrefix(u, radix) == |u|
    ensures ParseInt(s, radix) == Some(if negative then -(DigitsValue(u, radix) as int) else DigitsValue(u, radix))
  {
    ReadAllDigits(negative, u, radix);
  }

  lemma ReadAllDigits(negative: bool, u: string, radix: nat)
    requires 2 <= radix <= 36
    requires u != [] && AllDigitsIn(u, radix)
    requires DigitPrefix(u, radix) == |u|
    ensures ReadDigits(negative, u, radix) == Some(if negative then -(DigitsValue(u, radix) as int) else DigitsValue(u, radix))
  {
    assert u[..|u|] == u;
  }

  /** A number below `radix^k` takes at most `k` digits. */
  lemma {:induction false} NatToStringLength(n: nat, radix: nat, k: nat)
    requires 2 <= radix <= 36 && 1 <= k
    requires n < Pow(radix, k)
    ensures |NatToString(n, radix)| <= k
    decreases n
  {
    if n >= radix {
      DivMod(n, radix);
      var q := n / radix;
      QuotientBound(n, radix, Pow(radix, k - 1));
      NatToStringLength(q, radix, k - 1);
    }
  }

  lemma QuotientBound(n: nat, radix: nat, p: nat)
    requires 2 <= radix && n < radix * p
    ensures n / radix < p
  {
    assert n / radix * radix <= n;
    MulCancel(n / radix, p, radix);
  }

  lemma MulCancel(q: nat, p: nat, radix: nat)
    requires 1 <= radix && q * radix < p * radix
    ensures q < p
  {
  }

  /** `parseInt` stops at the first character that is not a digit of the radix. */
  lemma ParseIntPrefix(z: string, rest: string, radix: nat)
    requires 2 <= radix <= 36
    requires z != [] && AllDigitsIn(z, radix)
    requires rest == [] || !IsDigitIn(rest[0], radix)
    requires !(radix == 16 && z == "0" && rest != [] && (rest[0] == 'x' || rest[0] == 'X'))
    ensures ParseInt(z + rest, radix) == ParseInt(z, radix)
  {
    var s := z + rest;
    PlainStart(z, rest, radix);
    PrefixStops(z, rest, radix);
    assert s[..|z|] == z;
    ParseIntDigits(z, radix);
  }

  /** Text that starts with a digit other than a `0x` has no sign, blank or prefix to skip. */
  lemma PlainStart(z: string, rest: string, radix: nat)
    requires 2 <= radix <= 36
    requires z != [] && AllDigitsIn(z, radix)
    requires rest == [] || !IsDigitIn(rest[0], radix)
    requires !(radix == 16 && z == "0" && rest != [] && (rest[0] == 'x' || rest[0] == 'X'))
    ensures SignAndDigits(z + rest, radix) == (false, z + rest)
  {
    var s := z + rest;
    assert s[0] == z[0];
    NotSpaceDigit(z[0], radix);
    NoHexPrefix(z, rest, radix);
  }

  lemma NoHexPrefix(z: string, rest: string, radix: nat)
    requires 2 <= radix <= 36
    requires z != [] && AllDigitsIn(z, radix)
    requires rest == [] || !IsDigitIn(rest[0], radix)
    requires !(radix == 16 && z == "0" && rest != [] && (rest[0] == 'x' || rest[0] == 'X'))
    ensures StripHexPrefix(z + rest, radix) == z + rest
  {
    var s := z + rest;
    if radix == 16 && |s| >= 2 && s[0] == '0' {
      if |z| >= 2 {
        assert s[1] == z[1];
        assert IsDigitIn(z[1], radix);
      } else {
        assert z == "0";
        assert s[1] == rest[0];
      }
    }
  }

  lemma {:induction false} PrefixStops(z: string, rest: string, radix: nat)
    requires AllDigitsIn(z, radix)
    requires rest == [] || !IsDigitIn(rest[0], radix)
    ensures DigitPrefix(z + rest, radix) == |z|
  {
    if z != [] {
      assert (z + rest)[1..] == z[1..] + rest;
      assert (z + rest)[0] == z[0];
      PrefixStops(z[1..], rest, radix);
    } else {
      assert z + rest == rest;
    }
  }

  // Number.prototype.toString on the double `parseInt` gives

  /** The magnitude of an integer. */
  function Abs(i: int): nat {
    if i < 0 then -i else i
  }

  /**
   * The least magnitude that `parseInt` rounds to an infinite double: halfway
   * between Number.MAX_VALUE, (2^53 - 1) * 2^971, and 2^1024, where rounding
   * half to even goes up (`InfinityBoundValue`).
   */
  const InfinityBound: nat := 179769313486231580793728971405303415079934132710037826936173778980444968292764750946649017977587207096330286416692887910946555547851940402630657488671505820681908902000708383676273854845817711531764475730270069855571366959622842914819860834936475292719074168444365510704342711559699508093042880177904174497792

  /** 10^21 (`ExponentFromValue`): from here on `toString(10)` writes exponent form. */
  const ExponentFrom: nat := 1_000_000_000_000_000_000_000

  /** Whether `x.toString(radix)` writes `x` as plain digits: finite, and below 10^21 in radix 10. */
  predicate WrittenInDigits(i: int, radix: nat) {
    Abs(i) < InfinityBound && (radix != 10 || Abs(i) < ExponentFrom)
  }

  /**
   * `x.toString(radix)` (ECMA-262, Number::toString) for the number `x` that
   * `parseInt` read as `i`: "Infinity" past the largest double, exponent form
   * from 10^21 in radix 10, and otherwise the digits `IntToString` writes.
   */
  function NumberToString(i: int, radix: nat): string
    requires 2 <= radix <= 36
  {
    var sign := if i < 0 then "-" else "";
    if Abs(i) >= InfinityBound then sign + "Infinity"
    else if radix == 10 && Abs(i) >= ExponentFrom then sign + Exponential(Abs(i))
    else IntToString(i, radix)
  }

  /** The digits of `z` up to its last non-zero one. */
  function DropTrailingZeros(z: string): (r: string)
    ensures |r| <= |z| && r == z[..|r|]
    ensures forall k :: |r| <= k < |z| ==> z[k] == '0'
    ensures r != [] ==> r[|r| - 1] != '0'
  {
    if z != [] && z[|z| - 1] == '0' then
      var r := DropTrailingZeros(z[..|z| - 1]);
      assert forall k :: |r| <= k < |z| - 1 ==> z[k] == z[..|z| - 1][k];
      r
    else z
  }

  /** The significant decimal digits of `m`: what exponent form keeps of it. */
  function Significand(m: nat): string {
    DropTrailingZeros(NatToString(m, 10))
  }

  /** The power of ten that `m`'s leading digit stands for. */
  function DecimalExponent(m: nat): nat {
    |NatToString(m, 10)| - 1
  }

  /** The first decimal digit of a positive `m`. */
  function LeadingDigit(m: nat): nat
    requires m >= 1
  {
    DigitValue(NatToString(m, 10)[0]).value
  }

  /**
   * Exponent form for n > 21 in Number::toString: the first significant digit,
   * then a point and the others when there are any, then `e+` and the exponent.
   */
  function Exponential(m: nat): string
    requires m >= 1
  {
    var s := Significand(m);
    assert NatToString(m, 10)[0] != '0';
    (if |s| == 1 then s else [s[0]] + "." + s[1..]) + "e+" + NatToString(DecimalExponent(m), 10)
  }

  /**
   * Exponent form denotes `m` exactly: its significant digits start and end
   * with a non-zero digit, scaled by the power of ten the exponent leaves over,
   * and the exponent is that of the leading digit.
   */
  lemma SignificandValue(m: nat)
    requires m >= 1
    ensures var s, e := Significand(m), DecimalExponent(m);
      s != [] && AllDigitsIn(s, 10) && s[0] != '0' && s[|s| - 1] != '0' && |s| <= e + 1
      && DigitsValue(s, 10) * Pow(10, e + 1 - |s|) == m
    ensures 1 <= LeadingDigit(m) <= 9 && DigitValue(Significand(m)[0]) == Some(LeadingDigit(m))
  {
    SignificandShape(m);
    DropZerosValue(NatToString(m, 10), 10);
    NatToStringValue(m, 10);
  }

  /** The significant digits start with the leading digit and end with a non-zero one. */
  lemma SignificandShape(m: nat)
    requires m >= 1
    ensures var s, d := Significand(m), NatToString(m, 10);
      s != [] && s[0] == d[0] && d[0] != '0' && s[|s| - 1] != '0' && |s| <= |d|
    ensures 1 <= LeadingDigit(m) <= 9 && DigitValue(Significand(m)[0]) == Some(LeadingDigit(m))
  {
    var d := NatToString(m, 10);
    assert d[0] != '0';
    assert IsDigitIn(d[0], 10);
  }

  /** The exponent is that of the leading digit: `10^e <= m < 10^(e + 1)`; from 10^21 on it is at least 21. */
  lemma ExponentBounds(m: nat)
    requires m >= 1
    ensures Pow(10, DecimalExponent(m)) <= m < Pow(10, DecimalExponent(m) + 1)
    ensures m >= ExponentFrom ==> DecimalExponent(m) >= 21
  {
    var d := NatToString(m, 10);
    NatToStringValue(m, 10);
    DigitsBelowPow(d, 10);
    LeadingDigitPow(d, 10);
    if m >= ExponentFrom && DecimalExponent(m) < 21 {
      ExponentFromValue();
      PowMono(10, |d|, 21);
      assert false;
    }
  }

  /** Trailing zeros scale the value of a digit string by a power of the radix. */
  lemma {:induction false} DropZerosValue(z: string, radix: nat)
    requires 2 <= radix && AllDigitsIn(z, radix)
    ensures AllDigitsIn(DropTrailingZeros(z), radix)
    ensures DigitsValue(DropTrailingZeros(z), radix) * Pow(radix, |z| - |DropTrailingZeros(z)|) == DigitsValue(z, radix)
  {
    var r := DropTrailingZeros(z);
    assert AllDigitsIn(r, radix) by {
      forall k | 0 <= k < |r| ensures IsDigitIn(r[k], radix) {
        assert r[k] == z[k];
      }
    }
    if z != [] && z[|z| - 1] == '0' {
      var h := z[..|z| - 1];
      assert AllDigitsIn(h, radix) by {
        forall k | 0 <= k < |h| ensures IsDigitIn(h[k], radix) {
          assert h[k] == z[k];
        }
      }
      DropZerosValue(h, radix);
      assert r == DropTrailingZeros(h);
      DigitsValueSnoc(h, '0', radix);
      assert z == h + ['0'];
      ScaleStep(DigitsValue(r, radix), Pow(radix, |h| - |r|), radix);
      assert Pow(radix, |z| - |r|) == radix * Pow(radix, |h| - |r|);
    }
  }

  /** A digit string with a non-zero first digit denotes at least `radix^(|z| - 1)`. */
  lemma {:induction false} LeadingDigitPow(z: string, radix: nat)
    requires 2 <= radix && z != [] && AllDigitsIn(z, radix) && z[0] != '0'
    ensures DigitsValue(z, radix) >= Pow(radix, |z| - 1)
  {
    var h := z[..|z| - 1];
    if h == [] {
      assert z == [z[0]];
    } else {
      assert h[0] == z[0];
      assert AllDigitsIn(h, radix) by {
        forall k | 0 <= k < |h| ensures IsDigitIn(h[k], radix) {
          assert h[k] == z[k];
        }
      }
      LeadingDigitPow(h, radix);
      assert z == h + [z[|z| - 1]];
      DigitsValueSnoc(h, z[|z| - 1], radix);
      MulMono(Pow(radix, |h| - 1), DigitsValue(h, radix), radix);
      assert Pow(radix, |z| - 1) == radix * Pow(radix, |h| - 1);
    }
  }

  lemma ScaleStep(v: nat, p: nat, radix: nat)
    ensures v * (radix * p) == (v * p) * radix
  {
  }

  lemma MulMono(p: nat, v: nat, radix: nat)
    requires p <= v
    ensures radix * p <= v * radix
  {
  }

  lemma {:induction false} PowMono(b: nat, j: nat, k: nat)
    requires 1 <= b && j <= k
    ensures Pow(b, j) <= Pow(b, k)
    decreases k
  {
    if j < k {
      PowMono(b, j, k - 1);
      MulAtLeast(b, Pow(b, k - 1));
    }
  }

  lemma MulAtLeast(b: nat, x: nat)
    requires 1 <= b
    ensures x <= b * x
  {
  }

  lemma {:induction false} PowMonoBase(a: nat, b: nat, k: nat)
    requires a <= b
    ensures Pow(a, k) <= Pow(b, k)
  {
    if k > 0 {
      PowMonoBase(a, b, k - 1);
      MulBoth(a, b, Pow(a, k - 1), Pow(b, k - 1));
    }
  }

  lemma MulBoth(a: nat, b: nat, p: nat, q: nat)
    requires a <= b && p <= q
    ensures a * p <= b * q
  {
    assert a * p <= b * p;
  }

  lemma {:induction false} PowAdd(b: nat, m: nat, n: nat)
    ensures Pow(b, m + n) == Pow(b, m) * Pow(b, n)
    decreases m
  {
    if m > 0 {
      PowAdd(b, m - 1, n);
      assert Pow(b, m + n) == b * Pow(b, m - 1 + n);
      ScaleStep(Pow(b, n), Pow(b, m - 1), b);
    }
  }

  lemma ExponentFromValue()
    ensures ExponentFrom == Pow(10, 21)
  {
    assert Pow(10, 1) == 10;
    PowAdd(10, 1, 1);
    assert Pow(10, 2) == 100;
    PowAdd(10, 2, 2);
    assert Pow(10, 4) == 10_000;
    PowAdd(10, 4, 1);
    assert Pow(10, 5) == 100_000;
    PowAdd(10, 5, 5);
    assert Pow(10, 10) == 10_000_000_000;
    PowAdd(10, 10, 10);
    assert Pow(10, 20) == 100_000_000_000_000_000_000;
    PowAdd(10, 20, 1);
  }

  lemma InfinityBoundValue()
    ensures InfinityBound == Pow(2, 1024) - Pow(2, 970)
  {
    assert Pow(2, 1) == 2;
    PowAdd(2, 1, 1);
    assert Pow(2, 2) == 4;
    PowAdd(2, 2, 2);
    assert Pow(2, 4) == 16;
    PowAdd(2, 4, 4);
    assert Pow(2, 8) == 256;
    PowAdd(2, 8, 8);
    assert Pow(2, 16) == 65536;
    PowAdd(2, 16, 16);
    assert Pow(2, 32) == 4294967296;
    PowAdd(2, 32, 32);
    assert Pow(2, 64) == 18446744073709551616;
    PowAdd(2, 64, 64);
    assert Pow(2, 128) == 340282366920938463463374607431768211456;
    PowAdd(2, 128, 128);
    assert Pow(2, 256) == 115792089237316195423570985008687907853269984665640564039457584007913129639936;
    PowAdd(2, 256, 256);
    assert Pow(2, 512) == 13407807929942597099574024998205846127479365820592393377723561443721764030073546976801874298166903427690031858186486050853753882811946569946433649006084096;
    PowAdd(2, 512, 512);
    assert Pow(2, 1024) == 179769313486231590772930519078902473361797697894230657273430081157732675805500963132708477322407536021120113879871393357658789768814416622492847430639474124377767893424865485276302219601246094119453082952085005768838150682342462881473913110540827237163350510684586298239947245938479716304835356329624224137216;
    PowAdd(2, 512, 256);
    assert Pow(2, 768) == 1552518092300708935148979488462502555256886017116696611139052038026050952686376886330878408828646477950487730697131073206171580044114814391444287275041181139204454976020849905550265285631598444825262999193716468750892846853816057856;
    PowAdd(2, 768, 128);
    assert Pow(2, 896) == 528294531135665246352339784916516606518847326036121522127960709026673902556724859474417255887657187894674394993257128678882347559502685537250538978462939576908386683999005084168731517676426441053024232908211188404148028292751561738838396898767036476489538580897737998336;
    PowAdd(2, 896, 64);
    assert Pow(2, 960) == 9745314011399999080353382387875188310876226857595007526867906457212948690766426102465615065882010259225304916231408668183459169865203094046577987296312653419531277699956473029870789655490053648352799593479218378873685597925394874945746363615468965612827738803104277547081828589991914110976;
    PowAdd(2, 960, 8);
    assert Pow(2, 968) == 2494800386918399764570465891296048207584314075544321926878184053046514864836205082231197456865794626361678058555240619054965547485491992075923964747856039275400007091188857095646922151805453733978316695930679904991663513068901087986111069085560055196883901133594695052052948119037930012409856;
    PowAdd(2, 968, 2);
    assert Pow(2, 970) == 9979201547673599058281863565184192830337256302177287707512736212186059459344820328924789827463178505446712234220962476219862189941967968303695858991424157101600028364755428382587688607221814935913266783722719619966654052275604351944444276342240220787535604534378780208211792476151720049639424;
  }

  /** Upper-cased exponent form starts with the leading digit, followed by a point or `E`. */
  lemma ExponentialShape(m: nat)
    requires m >= 1
    ensures var u := Upper(Exponential(m));
      |u| >= 3 && DigitValue(u[0]) == Some(LeadingDigit(m)) && !IsDigitIn(u[1], 10) && (u[1] == '.' || u[1] == 'E')
  {
    var s := Significand(m);
    SignificandValue(m);
    var x := Exponential(m);
    assert x[0] == s[0];
    if |s| == 1 {
      assert x[1] == 'e';
    } else {
      assert x[1] == '.';
    }
  }

  /** `parseInt` on text whose first character is a digit reads the same number, negated, after a minus sign. */
  lemma ParseIntMinus(t: string, radix: nat, v: int)
    requires 2 <= radix <= 36 && t != [] && IsDigitIn(t[0], radix) && StripHexPrefix(t, radix) == t
    requires ParseInt(t, radix) == Some(v)
    ensures ParseInt("-" + t, radix).Some? && ParseInt("-" + t, radix).value == -v
  {
    var s := "-" + t;
    MinusNotSpace();
    assert s[0] == '-';
    assert TrimStart(s) == s;
    assert s[1..] == t;
    assert SignAndDigits(s, radix) == (true, t);
    NotSpaceDigit(t[0], radix);
    assert TrimStart(t) == t;
    assert SignAndDigits(t, radix) == (false, t);
  }

  lemma MinusNotSpace()
    ensures !IsSpace('-')
  {
  }

  /** `parseInt` reads only the leading digit of exponent form: "1E+21" reads as 1, "-4.5E+21" as -4. */
  lemma ParseIntExponential(i: int)
    requires ExponentFrom <= Abs(i) < InfinityBound
    ensures ParseInt(Upper(NumberToString(i, 10)), 10).Some?
    ensures ParseInt(Upper(NumberToString(i, 10)), 10).value
      == if i < 0 then -(LeadingDigit(Abs(i)) as int) else LeadingDigit(Abs(i))
  {
    if i < 0 {
      ExponentialNegative(i);
    } else {
      ExponentialPositive(i);
    }
  }

  lemma ExponentialPositive(i: int)
    requires ExponentFrom <= i < InfinityBound
    ensures ParseInt(Upper(NumberToString(i, 10)), 10) == Some(LeadingDigit(i))
  {
    ExponentialBranch(i);
    ReadsLeadingDigit(i);
  }

  lemma ExponentialNegative(i: int)
    requires i < 0 && ExponentFrom <= Abs(i) < InfinityBound
    ensures ParseInt(Upper(NumberToString(i, 10)), 10).Some?
    ensures ParseInt(Upper(NumberToString(i, 10)), 10).value == -(LeadingDigit(Abs(i)) as int)
  {
    NegativeExponentialReads(i);
    var u :| Upper(NumberToString(i, 10)) == "-" + u && u != [] && IsDigitIn(u[0], 10)
      && ParseInt(u, 10) == Some(LeadingDigit(Abs(i)));
    ParseIntMinus(u, 10, LeadingDigit(Abs(i)));
  }

  /** Negative exponent form is a minus sign before text that reads as the leading digit. */
  lemma NegativeExponentialReads(i: int)
    requires i < 0 && ExponentFrom <= Abs(i) < InfinityBound
    ensures exists u: string ::
      Upper(NumberToString(i, 10)) == "-" + u && u != [] && IsDigitIn(u[0], 10)
      && ParseInt(u, 10) == Some(LeadingDigit(Abs(i)))
  {
    NegativeExponentialText(i);
    ReadsLeadingDigit(Abs(i));
  }

  lemma NegativeExponentialText(i: int)
    requires i < 0 && ExponentFrom <= Abs(i) < InfinityBound
    ensures Upper(NumberToString(i, 10)) == "-" + Upper(Exponential(Abs(i)))
  {
    ExponentialBranch(i);
    UpperMinus(Exponential(Abs(i)));
  }

  lemma ExponentialBranch(i: int)
    requires ExponentFrom <= Abs(i) < InfinityBound
    ensures NumberToString(i, 10) == if i < 0 then "-" + Exponential(Abs(i)) else Exponential(Abs(i))
  {
    assert "" + Exponential(Abs(i)) == Exponential(Abs(i));
  }

  lemma UpperMinus(x: string)
    ensures Upper("-" + x) == "-" + Upper(x)
  {
    assert forall k :: 0 <= k < |x| ==> ("-" + x)[k + 1] == x[k];
  }

  /** Unsigned exponent form reads as its leading digit. */
  lemma ReadsLeadingDigit(m: nat)
    requires m >= 1
    ensures Upper(Exponential(m)) != [] && IsDigitIn(Upper(Exponential(m))[0], 10)
    ensures ParseInt(Upper(Exponential(m)), 10) == Some(LeadingDigit(m))
  {
    var u := Upper(Exponential(m));
    ExponentialShape(m);
    var z, rest := [u[0]], u[1..];
    assert u == z + rest;
    ParseIntPrefix(z, rest, 10);
    assert DigitsValue(z, 10) == LeadingDigit(m) by {
      assert z[..0] == [];
    }
    ParseIntDigits(z, 10);
  }

  /** Past the largest double the page shows "INFINITY", which reads back as no number at all in the radices up to 18. */
  lemma ParseIntInfinity(i: int, radix: nat)
    requires 2 <= radix <= 36 && Abs(i) >= InfinityBound
    ensures Upper(NumberToString(i, radix)) == (if i < 0 then "-INFINITY" else "INFINITY")
    ensures radix <= 18 ==> ParseInt(Upper(NumberToString(i, radix)), radix) == None
    ensures ParseInt(Upper(NumberToString(i, radix)), radix) != Some(i)
  {
    InfinityBranch(i, radix);
    InfinityText(Upper(NumberToString(i, radix)), radix);
  }

  lemma InfinityBranch(i: int, radix: nat)
    requires 2 <= radix <= 36 && Abs(i) >= InfinityBound
    ensures Upper(NumberToString(i, radix)) == (if i < 0 then "-INFINITY" else "INFINITY")
  {
    var t := NumberToString(i, radix);
    if i < 0 {
      assert t == "-Infinity";
    } else {
      assert t == "Infinity";
    }
    UpperInfinity();
  }

  lemma UpperInfinity()
    ensures Upper("Infinity") == "INFINITY" && Upper("-Infinity") == "-INFINITY"
  {
    UpperMinus("Infinity");
  }

  /** "INFINITY" has no digit below 19, and too few characters to reach the infinite range in any radix. */
  lemma InfinityText(u: string, radix: nat)
    requires 2 <= radix <= 36 && (u == "INFINITY" || u == "-INFINITY")
    ensures radix <= 18 ==> ParseInt(u, radix) == None
    ensures ParseInt(u, radix).Some? ==> Abs(ParseInt(u, radix).value) < InfinityBound
  {
    assert !IsSpace(u[0]);
    assert TrimStart(u) == u;
    if u == "-INFINITY" {
      assert u[1..] == "INFINITY";
    }
    var body := SignAndDigits(u, radix).1;
    assert body == "INFINITY";
    if radix <= 18 {
      assert !IsDigitIn(body[0], radix);
    }
    ParseIntBelowPow(u, radix);
    PowMono(radix, |u|, 9);
    PowMonoBase(radix, 36, 9);
    PowThirtySix();
  }

  lemma PowThirtySix()
    ensures Pow(36, 9) == 101559956668416
  {
    assert Pow(36, 1) == 36;
    assert Pow(36, 2) == 1296;
    assert Pow(36, 3) == 46656;
    assert Pow(36, 4) == 1679616;
    assert Pow(36, 5) == 60466176;
    assert Pow(36, 6) == 2176782336;
    assert Pow(36, 7) == 78364164096;
    assert Pow(36, 8) == 2821109907456;
  }

  /** What `parseInt` reads from `s` has fewer digits than `s` has characters. */
  lemma ParseIntBelowPow(s: string, radix: nat)
    requires 2 <= radix <= 36
    ensures ParseInt(s, radix).Some? ==> Abs(ParseInt(s, radix).value) < Pow(radix, |s|)
  {
    var body := SignAndDigits(s, radix).1;
    var k := DigitPrefix(body, radix);
    assert |body| <= |s|;
    if k > 0 {
      DigitsBelowPow(body[..k], radix);
      PowMono(radix, k, |s|);
    }
  }

  /**
   * `parseInt` undoes upper-cased `toString` in the same radix exactly when
   * `toString` writes plain digits; exponent form and "INFINITY" do not read
   * back as the number.
   */
  lemma ParseIntNumberToString(i: int, radix: nat)
    requires 2 <= radix <= 36
    ensures ParseInt(Upper(NumberToString(i, radix)), radix) == Some(i) <==> WrittenInDigits(i, radix)
  {
    if Abs(i) >= InfinityBound {
      ParseIntInfinity(i, radix);
    } else if radix == 10 && Abs(i) >= ExponentFrom {
      ParseIntExponential(i);
      SignificandValue(Abs(i));
    } else {
      ParseIntToString(i, radix);
    }
  }

  /** A power of ten is written as a one followed by zeros. */
  lemma {:induction false} TenPowerText(k: nat)
    ensures NatToString(Pow(10, k), 10) == "1" + Repeat('0', k)
  {
    if k > 0 {
      TenPowerText(k - 1);
      var n := Pow(10, k);
      DivMod(n, 10);
      assert n / 10 == Pow(10, k - 1) && n % 10 == 0;
      assert NatToString(n, 10) == NatToString(Pow(10, k - 1), 10) + ['0'];
      assert "1" + Repeat('0', k) == ("1" + Repeat('0', k - 1)) + ['0'];
    }
  }

  /** A one followed by zeros keeps only the one as its significant digits. */
  lemma {:induction false} TenPowerSignificand(k: nat)
    ensures DropTrailingZeros("1" + Repeat('0', k)) == "1"
  {
    if k > 0 {
      TenPowerSignificand(k - 1);
      var z := "1" + Repeat('0', k);
      assert z[|z| - 1] == '0';
      assert z[..|z| - 1] == "1" + Repeat('0', k - 1);
    }
  }
}
