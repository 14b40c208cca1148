/**
 * The browser's `btoa` and `atob`: Base64 as section 4 of RFC 4648 defines it
 * (the alphabet `A-Z a-z 0-9 + /`, output padded with `=` to a multiple of four),
 * over strings whose code units are bytes. `atob` decodes the way the HTML
 * standard's "forgiving-base64 decode" does: ASCII whitespace is ignored, the
 * padding is optional, and the unused low bits of the last character are dropped.
 */
module Base64 {
  import opened Wrappers
  import opened JsText

  type Byte = x: int | 0 <= x < 256
  type Sextet = x: int | 0 <= x < 64

  /** The character for a 6-bit value. */
  function Letter(v: Sextet): (c: char)
    ensures InAlphabet(c)
  {
    if v < 26 then ('A' as int + v) as char
    else if v < 52 then ('a' as int + (v - 26)) as char
    else if v < 62 then ('0' as int + (v - 52)) as char
    else if v == 62 then '+'
    else '/'
  }

  predicate InAlphabet(c: char) {
    IsAsciiAlnum(c) || c == '+' || c == '/'
  }

  /** The 6-bit value of an alphabet character. */
  function LetterValue(c: char): (v: Sextet)
    requires InAlphabet(c)
    ensures Letter(v) == c
  {
    if IsAsciiUpper(c) then c as int - 'A' as int
    else if IsAsciiLower(c) then c as int - 'a' as int + 26
    else if IsAsciiDigit(c) then c as int - '0' as int + 52
    else if c == '+' then 62
    else 63
  }

  lemma LetterValueOfLetter(v: Sextet)
    ensures LetterValue(Letter(v)) == v
  {
  }

  predicate AllInAlphabet(d: string) {
    forall i :: 0 <= i < |d| ==> InAlphabet(d[i])
  }

  /** Three bytes (or the one or two left at the end) written as four (or two or three) characters, unpadded. */
  function EncodeGroups(b: seq<Byte>): (r: string)
    ensures AllInAlphabet(r)
    ensures |r| == 4 * (|b| / 3) + (if |b| % 3 == 0 then 0 else |b| % 3 + 1)
  {
    if |b| == 0 then []
    else if |b| == 1 then
      [Letter(b[0] / 4), Letter(b[0] % 4 * 16)]
    else if |b| == 2 then
      [Letter(b[0] / 4), Letter(b[0] % 4 * 16 + b[1] / 16), Letter(b[1] % 16 * 4)]
    else
      EncodeTriple(b[0], b[1], b[2]) + EncodeGroups(b[3..])
  }

  /** The last, partial group has two characters for one byte left over and three for two. */
  lemma GroupsRemainder(b: seq<Byte>)
    ensures |EncodeGroups(b)| % 4 == (if |b| % 3 == 0 then 0 else |b| % 3 + 1)
  {
    var x := if |b| % 3 == 0 then 0 else |b| % 3 + 1;
    assert |EncodeGroups(b)| == 4 * (|b| / 3) + x;
    ModFour(|b| / 3, x);
  }

  lemma PaddedLength(n: nat)
    ensures 4 * (n / 3) + (if n % 3 == 0 then 0 else n % 3 + 1) + |Padding(n)| == 4 * ((n + 2) / 3)
  {
  }

  lemma ModFour(q: nat, x: nat)
    requires x < 4
    ensures (4 * q + x) % 4 == x
  {
  }

  /** Three bytes, 24 bits, as four 6-bit characters. */
  function EncodeTriple(b0: Byte, b1: Byte, b2: Byte): (g: string)
    ensures |g| == 4 && AllInAlphabet(g)
  {
    [Letter(b0 / 4), Letter(b0 % 4 * 16 + b1 / 16), Letter(b1 % 16 * 4 + b2 / 64), Letter(b2 % 64)]
  }

  /** The `=` characters that fill the last group up to four. */
  function Padding(n: nat): string {
    if n % 3 == 1 then "==" else if n % 3 == 2 then "=" else ""
  }

  function Encode(b: seq<Byte>): string {
    EncodeGroups(b) + Padding(|b|)
  }

  /** Four characters (or the two or three left at the end) read back as three (or one or two) bytes. */
  function DecodeGroups(d: string): (r: seq<Byte>)
    requires AllInAlphabet(d) && |d| % 4 != 1
  {
    if |d| == 0 then []
    else if |d| == 2 then
      [LetterValue(d[0]) * 4 + LetterValue(d[1]) / 16]
    else if |d| == 3 then
      [LetterValue(d[0]) * 4 + LetterValue(d[1]) / 16, LetterValue(d[1]) % 16 * 16 + LetterValue(d[2]) / 4]
    else
      DecodeQuad(d[..4]) + DecodeGroups(d[4..])
  }

  /** Four 6-bit characters, 24 bits, as three bytes. */
  function DecodeQuad(g: string): (r: seq<Byte>)
    requires |g| == 4 && AllInAlphabet(g)
    ensures |r| == 3
  {
    [LetterValue(g[0]) * 4 + LetterValue(g[1]) / 16,
     LetterValue(g[1]) % 16 * 16 + LetterValue(g[2]) / 4,
     LetterValue(g[2]) % 4 * 64 + LetterValue(g[3])]
  }

  function BytesOf(s: string): (b: seq<Byte>)
    requires IsLatin1(s)
    ensures |b| == |s|
  {
    seq(|s|, i requires 0 <= i < |s| => s[i] as int)
  }

  function StringOf(b: seq<Byte>): (s: string)
    ensures |s| == |b|
    ensures IsLatin1(s)
  {
    seq(|b|, i requires 0 <= i < |b| => b[i] as char)
  }

  /** `btoa(s)`: None when a code unit does not fit in a byte (the browser throws). */
  function Btoa(s: string): (r: Option<string>)
    ensures r.Some? <==> IsLatin1(s)
    ensures r.Some? ==> |r.value| == 4 * ((|s| + 2) / 3) && |r.value| % 4 == 0
  {
    ModFour((|s| + 2) / 3, 0);
    PaddedLength(|s|);
    if IsLatin1(s) then Some(Encode(BytesOf(s))) else None
  }

  predicate IsAsciiWhitespace(c: char) {
    c == '\t' || c == '\n' || c == '\U{000C}' || c == '\r' || c == ' '
  }

  function RemoveAsciiWhitespace(s: string): (r: string)
    ensures |r| <= |s|
    ensures forall i :: 0 <= i < |r| ==> !IsAsciiWhitespace(r[i])
  {
    if s == [] then []
    else if IsAsciiWhitespace(s[0]) then RemoveAsciiWhitespace(s[1..])
    else [s[0]] + RemoveAsciiWhitespace(s[1..])
  }

  /** When the length is a multiple of four, one or two trailing `=` are dropped. */
  function StripPadding(d: string): (r: string)
    ensures |d| - 2 <= |r| <= |d| && r == d[..|r|]
    ensures forall k :: |r| <= k < |d| ==> d[k] == '='
    ensures |d| % 4 != 0 ==> r == d
  {
    if |d| % 4 != 0 then d
    else if |d| >= 2 && d[|d| - 2..] == "==" then d[..|d| - 2]
    else if |d| >= 1 && d[|d| - 1] == '=' then d[..|d| - 1]
    else d
  }

  /** Removing whitespace distributes over concatenation: each part keeps its other characters, in order. */
  lemma {:induction false} RemoveAsciiWhitespaceConcat(a: string, b: string)
    ensures RemoveAsciiWhitespace(a + b) == RemoveAsciiWhitespace(a) + RemoveAsciiWhitespace(b)
  {
    if a == [] {
      assert a + b == b;
    } else {
      var h := if IsAsciiWhitespace(a[0]) then [] else [a[0]];
      var x, y := RemoveAsciiWhitespace(a[1..]), RemoveAsciiWhitespace(b);
      assert RemoveAsciiWhitespace(a + b) == h + RemoveAsciiWhitespace(a[1..] + b) by {
        assert (a + b)[0] == a[0] && (a + b)[1..] == a[1..] + b;
      }
      assert RemoveAsciiWhitespace(a[1..] + b) == x + y by {
        RemoveAsciiWhitespaceConcat(a[1..], b);
      }
      assert RemoveAsciiWhitespace(a) == h + x;
      assert h + (x + y) == (h + x) + y;
    }
  }

  /** Appending one character appends it to the result exactly when it is not ASCII whitespace. */
  lemma RemoveAsciiWhitespaceSnoc(s: string, c: char)
    ensures RemoveAsciiWhitespace(s + [c]) == RemoveAsciiWhitespace(s) + (if IsAsciiWhitespace(c) then [] else [c])
  {
    RemoveAsciiWhitespaceConcat(s, [c]);
    assert RemoveAsciiWhitespace([c]) == (if IsAsciiWhitespace(c) then [] else [c]) + RemoveAsciiWhitespace([]);
  }

  /** `atob(s)`: None when the browser throws InvalidCharacterError. */
  function Atob(s: string): (r: Option<string>)
    ensures r.Some? ==> IsLatin1(r.value)
  {
    var d := StripPadding(RemoveAsciiWhitespace(s));
    if |d| % 4 == 1 || !AllInAlphabet(d) then None
    else Some(StringOf(DecodeGroups(d)))
  }

  /** Decoding the unpadded groups gives the bytes back. */
  lemma {:induction false} DecodeEncodeGroups(b: seq<Byte>)
    ensures |EncodeGroups(b)| % 4 != 1
    ensures DecodeGroups(EncodeGroups(b)) == b
  {
    GroupsRemainder(b);
    if |b| == 1 {
      GroupRoundTrip1(b[0]);
    } else if |b| == 2 {
      GroupRoundTrip2(b[0], b[1]);
    } else if |b| >= 3 {
      var head := EncodeTriple(b[0], b[1], b[2]);
      var tail := EncodeGroups(b[3..]);
      var e := head + tail;
      assert EncodeGroups(b) == e;
      DecodeEncodeGroups(b[3..]);
      TripleRoundTrip(b[0], b[1], b[2]);
      assert e[..4] == head && e[4..] == tail;
      assert DecodeGroups(e) == DecodeQuad(head) + DecodeGroups(tail);
      SplitThree(b);
    }
  }

  lemma SplitThree(b: seq<Byte>)
    requires |b| >= 3
    ensures b == [b[0], b[1], b[2]] + b[3..]
  {
    assert b[..3] == [b[0], b[1], b[2]];
    assert b == b[..3] + b[3..];
  }

  lemma GroupRoundTrip1(b0: Byte)
    ensures DecodeGroups([Letter(b0 / 4), Letter(b0 % 4 * 16)]) == [b0]
  {
    LetterValueOfLetter(b0 / 4);
    LetterValueOfLetter(b0 % 4 * 16);
  }

  lemma GroupRoundTrip2(b0: Byte, b1: Byte)
    ensures DecodeGroups([Letter(b0 / 4), Letter(b0 % 4 * 16 + b1 / 16), Letter(b1 % 16 * 4)]) == [b0, b1]
  {
    LetterValueOfLetter(b0 / 4);
    LetterValueOfLetter(b0 % 4 * 16 + b1 / 16);
    LetterValueOfLetter(b1 % 16 * 4);
  }

  lemma TripleRoundTrip(b0: Byte, b1: Byte, b2: Byte)
    ensures DecodeQuad(EncodeTriple(b0, b1, b2)) == [b0, b1, b2]
  {
    LetterValueOfLetter(b0 / 4);
    LetterValueOfLetter(b0 % 4 * 16 + b1 / 16);
    LetterValueOfLetter(b1 % 16 * 4 + b2 / 64);
    LetterValueOfLetter(b2 % 64);
    FirstByte(b0, b1);
    SecondByte(b0, b1, b2);
    ThirdByte(b1, b2);
  }

  lemma FirstByte(b0: Byte, b1: Byte)
    ensures (b0 / 4) * 4 + (b0 % 4 * 16 + b1 / 16) / 16 == b0
  {
  }

  lemma SecondByte(b0: Byte, b1: Byte, b2: Byte)
    ensures (b0 % 4 * 16 + b1 / 16) % 16 * 16 + (b1 % 16 * 4 + b2 / 64) / 4 == b1
  {
    LowSixteenth(b0 % 4, b1 / 16);
    HighQuarter(b1 % 16, b2 / 64);
  }

  lemma LowSixteenth(h: nat, l: nat)
    requires l < 16
    ensures (h * 16 + l) % 16 == l
  {
  }

  lemma HighQuarter(h: nat, l: nat)
    requires l < 4
    ensures (h * 4 + l) / 4 == h
  {
  }

  lemma ThirdByte(b1: Byte, b2: Byte)
    ensures (b1 % 16 * 4 + b2 / 64) % 4 * 64 + b2 % 64 == b2
  {
  }

  lemma StripPaddingOfEncode(b: seq<Byte>)
    ensures StripPadding(Encode(b)) == EncodeGroups(b)
  {
    var g := EncodeGroups(b);
    DecodeEncodeGroups(b);
    GroupsRemainder(b);
    if |b| % 3 == 1 {
      StripTwo(g);
    } else if |b| % 3 == 2 {
      StripOne(g);
    } else {
      StripNone(g);
    }
  }

  lemma StripTwo(g: string)
    requires AllInAlphabet(g) && |g| % 4 == 2
    ensures StripPadding(g + "==") == g
  {
    var e := g + "==";
    assert e[|e| - 2..] == "==";
    assert e[..|e| - 2] == g;
  }

  lemma StripOne(g: string)
    requires AllInAlphabet(g) && |g| % 4 == 3
    ensures StripPadding(g + "=") == g
  {
    var e := g + "=";
    assert e[|e| - 2] == g[|g| - 1];
    assert e[|e| - 2..] != "==" by {
      assert e[|e| - 2..][0] == g[|g| - 1];
    }
    assert e[..|e| - 1] == g;
  }

  lemma StripNone(g: string)
    requires AllInAlphabet(g) && |g| % 4 == 0
    ensures StripPadding(g + "") == g
  {
    assert g + "" == g;
    if |g| > 0 {
      assert g[|g| - 2..][1] == g[|g| - 1];
    }
  }

  lemma {:induction false} NoWhitespaceKept(s: string)
    requires forall i :: 0 <= i < |s| ==> !IsAsciiWhitespace(s[i])
    ensures RemoveAsciiWhitespace(s) == s
  {
    if s != [] {
      NoWhitespaceKept(s[1..]);
      assert [s[0]] + s[1..] == s;
    }
  }

  /** `atob(btoa(s)) == s` for every string `btoa` accepts. */
  lemma AtobBtoa(s: string)
    requires IsLatin1(s)
    ensures Atob(Btoa(s).value) == Some(s)
  {
    var b := BytesOf(s);
    var e := Encode(b);
    assert forall i :: 0 <= i < |e| ==> !IsAsciiWhitespace(e[i]) by {
      forall i | 0 <= i < |e| ensures !IsAsciiWhitespace(e[i]) {
        if i < |EncodeGroups(b)| {
          assert e[i] == EncodeGroups(b)[i];
        }
      }
    }
    NoWhitespaceKept(e);
    StripPaddingOfEncode(b);
    DecodeEncodeGroups(b);
    assert StringOf(b) == s;
  }

  /** A character that is neither in the alphabet, nor `=`, nor ASCII whitespace makes `atob` throw. */
  lemma AtobRejectsForeign(s: string, i: nat)
    requires i < |s| && !InAlphabet(s[i]) && s[i] != '=' && !IsAsciiWhitespace(s[i])
    ensures Atob(s) == None
  {
    var w := RemoveAsciiWhitespace(s);
    var j := ForeignSurvives(s, i);
    var d := StripPadding(w);
    assert d == w[..|d|];
    assert j < |d|;
    assert d[j] == s[i];
  }

  /** Text whose length without whitespace leaves remainder 1 on division by four makes `atob` throw. */
  lemma AtobRejectsLength(s: string)
    requires |RemoveAsciiWhitespace(s)| % 4 == 1
    ensures Atob(s) == None
  {
  }

  /**
   * An `=` that is not part of the final padding makes `atob` throw: one in a
   * text whose length without whitespace is not a multiple of four, one
   * before the last two characters, or one second to last that another
   * character follows.
   */
  lemma AtobRejectsMisplacedPad(s: string, j: nat)
    requires var w := RemoveAsciiWhitespace(s);
      j < |w| && w[j] == '=' && (|w| % 4 != 0 || j + 2 < |w| || (j + 2 == |w| && w[j + 1] != '='))
    ensures Atob(s) == None
  {
    var w := RemoveAsciiWhitespace(s);
    var d := StripPadding(w);
    assert j < |d| by {
      if |w| % 4 == 0 && j + 2 == |w| {
        assert w[|w| - 2..][1] == w[j + 1];
      }
    }
    assert d[j] == w[j];
  }

  /**
   * The converse of the three rejections: text with no foreign character, a
   * length without whitespace other than one more than a multiple of four,
   * and `=` only as final padding, decodes.
   */
  lemma AtobAccepts(s: string)
    requires var w := RemoveAsciiWhitespace(s);
      |w| % 4 != 1 && (forall k :: 0 <= k < |w| ==> InAlphabet(w[k]) || w[k] == '=') && PadsFinal(w)
    ensures Atob(s).Some?
  {
    var w := RemoveAsciiWhitespace(s);
    var d := StripPadding(w);
    StrippedLength(w);
    forall k | 0 <= k < |d| ensures InAlphabet(d[k]) {
      PadOnlyAtEnd(w, k);
    }
  }

  /**
   * Every `=` is final padding: none before the last two characters, one
   * second to last only before another, and any only when the length is a
   * multiple of four.
   */
  predicate PadsFinal(w: string) {
    (forall k :: 0 <= k < |w| - 2 ==> w[k] != '=')
    && (|w| >= 2 && w[|w| - 2] == '=' ==> |w| % 4 == 0 && w[|w| - 1] == '=')
    && (|w| >= 1 && w[|w| - 1] == '=' ==> |w| % 4 == 0)
  }

  /** Dropping padding from a length that is not one more than a multiple of four never makes it one. */
  lemma StrippedLength(w: string)
    requires |w| % 4 != 1
    ensures |StripPadding(w)| % 4 != 1
  {
    var n := |w|;
    if n % 4 == 0 {
      assert |StripPadding(w)| == n || |StripPadding(w)| == n - 1 || |StripPadding(w)| == n - 2;
    }
  }

  /** Under `PadsFinal`, no `=` survives `StripPadding`: each kept character is the input's and not a pad. */
  lemma PadOnlyAtEnd(w: string, k: nat)
    requires PadsFinal(w) && k < |StripPadding(w)|
    ensures StripPadding(w)[k] == w[k] && w[k] != '='
  {
    var n := |w|;
    if n % 4 == 0 && n >= 2 && w[n - 2] == '=' && w[n - 1] == '=' {
      assert w[n - 2..] == "==";
      assert |StripPadding(w)| == n - 2;
    } else if n % 4 == 0 && n >= 1 && w[n - 1] == '=' {
      assert |StripPadding(w)| == n - 1;
    }
  }

  /** Removing whitespace keeps a non-whitespace character, at some index of the result. */
  lemma {:induction false} ForeignSurvives(s: string, i: nat) returns (j: nat)
    requires i < |s| && !IsAsciiWhitespace(s[i])
    ensures j < |RemoveAsciiWhitespace(s)| && RemoveAsciiWhitespace(s)[j] == s[i]
  {
    if i == 0 {
      j := 0;
    } else {
      var j' := ForeignSurvives(s[1..], i - 1);
      j := if IsAsciiWhitespace(s[0]) then j' else j' + 1;
    }
  }
}
