/**
 * The JavaScript string built-ins the pages lean on: `trim`, the `\s` class,
 * `split` on one separator, `padStart`, ASCII case mapping, and the UTF-16
 * view that `length`, `split("")` and `charCodeAt` see.
 *
 * A `char` is a Unicode scalar value. A JavaScript string is a sequence of
 * UTF-16 code units, in which a character above U+FFFF takes two (a
 * surrogate pair); `CodeUnits` gives that view and `Length` its length. A
 * JavaScript string holding an unpaired surrogate has no `string` here.
 */
module JsText {

  /** WhiteSpace or LineTerminator in the sense of ECMA-262: what `trim` strips and `\s` matches. */
  predicate IsSpace(c: char) {
    c in SpaceChars || '\U{2000}' <= c <= '\U{200A}'
  }

  /** The whitespace code units outside the run U+2000..U+200A. */
  const SpaceChars: set<char> := {
    '\t', '\n', '\U{000B}', '\U{000C}', '\r', ' ', '\U{00A0}', '\U{1680}',
    '\U{2028}', '\U{2029}', '\U{202F}', '\U{205F}', '\U{3000}', '\U{FEFF}'
  }

  predicate AllSpace(s: string) {
    forall i :: 0 <= i < |s| ==> IsSpace(s[i])
  }

  predicate NoSpace(s: string) {
    forall i :: 0 <= i < |s| ==> !IsSpace(s[i])
  }

  /** `s.trimStart()`: the suffix left after the leading whitespace. */
  function TrimStart(s: string): (r: string)
    ensures |r| <= |s| && r == s[|s| - |r|..]
    ensures AllSpace(s[..|s| - |r|])
    ensures r != [] ==> !IsSpace(r[0])
    ensures s != [] && !IsSpace(s[0]) ==> r == s
  {
    if |s| > 0 && IsSpace(s[0]) then
      var r := TrimStart(s[1..]);
      StartStep(s, r);
      r
    else s
  }

  /** `s.trimEnd()`: the prefix left before the trailing whitespace. */
  function TrimEnd(s: string): (r: string)
    ensures |r| <= |s| && r == s[..|r|]
    ensures AllSpace(s[|r|..])
    ensures r != [] ==> !IsSpace(r[|r| - 1])
    ensures s != [] && !IsSpace(s[|s| - 1]) ==> r == s
  {
    if |s| > 0 && IsSpace(s[|s| - 1]) then
      var r := TrimEnd(s[..|s| - 1]);
      EndStep(s, r);
      r
    else s
  }

  /** Cutting one leading space keeps the cut a whitespace-only prefix. */
  lemma StartStep(s: string, r: string)
    requires s != [] && IsSpace(s[0])
    requires |r| <= |s| - 1 && r == s[1..][|s| - 1 - |r|..] && AllSpace(s[1..][..|s| - 1 - |r|])
    ensures r == s[|s| - |r|..] && AllSpace(s[..|s| - |r|])
  {
    assert s[1..][|s| - 1 - |r|..] == s[|s| - |r|..];
    SpaceCons(s[0], s[1..][..|s| - 1 - |r|]);
    assert s[..|s| - |r|] == [s[0]] + s[1..][..|s| - 1 - |r|];
  }

  /** Cutting one trailing space keeps the cut a whitespace-only suffix. */
  lemma EndStep(s: string, r: string)
    requires s != [] && IsSpace(s[|s| - 1])
    requires |r| <= |s| - 1 && r == s[..|s| - 1][..|r|] && AllSpace(s[..|s| - 1][|r|..])
    ensures r == s[..|r|] && AllSpace(s[|r|..])
  {
    assert s[..|s| - 1][..|r|] == s[..|r|];
    SpaceSnoc(s[..|s| - 1][|r|..], s[|s| - 1]);
    assert s[|r|..] == s[..|s| - 1][|r|..] + [s[|s| - 1]];
  }

  lemma SpaceCons(c: char, p: string)
    requires IsSpace(c) && AllSpace(p)
    ensures AllSpace([c] + p)
  {
  }

  lemma SpaceSnoc(p: string, c: char)
    requires AllSpace(p) && IsSpace(c)
    ensures AllSpace(p + [c])
  {
  }

  /** `s.trim()`. */
  function Trim(s: string): (r: string)
    ensures |r| <= |s|
    ensures r == [] <==> AllSpace(s)
    ensures r != [] ==> !IsSpace(r[0]) && !IsSpace(r[|r| - 1])
    ensures (s == [] || (!IsSpace(s[0]) && !IsSpace(s[|s| - 1]))) ==> r == s
    ensures exists i: nat :: SpaceAround(s, i, r)
  {
    TrimCuts(s);
    TrimParts(s, TrimStart(s), TrimEnd(TrimStart(s)));
    TrimEnd(TrimStart(s))
  }

  lemma TrimCuts(s: string)
    ensures StartCut(s, TrimStart(s)) && EndCut(TrimStart(s), TrimEnd(TrimStart(s)))
  {
  }

  /** `r` sits in `s` at `i` with nothing but whitespace before and after it. */
  predicate SpaceAround(s: string, i: nat, r: string) {
    i + |r| <= |s| && r == s[i..i + |r|] && AllSpace(s[..i]) && AllSpace(s[i + |r|..])
  }

  /** `t` is `s` with leading whitespace cut, as `TrimStart` promises. */
  predicate StartCut(s: string, t: string) {
    |t| <= |s| && t == s[|s| - |t|..] && AllSpace(s[..|s| - |t|]) && (t != [] ==> !IsSpace(t[0]))
    && (s != [] && !IsSpace(s[0]) ==> t == s)
  }

  /** `r` is `t` with trailing whitespace cut, as `TrimEnd` promises. */
  predicate EndCut(t: string, r: string) {
    |r| <= |t| && r == t[..|r|] && AllSpace(t[|r|..]) && (r != [] ==> !IsSpace(r[|r| - 1]))
    && (t != [] && !IsSpace(t[|t| - 1]) ==> r == t)
  }

  /** The facts `Trim` promises, from those of its two halves. */
  lemma TrimParts(s: string, t: string, r: string)
    requires StartCut(s, t) && EndCut(t, r)
    ensures r == [] <==> AllSpace(s)
    ensures r != [] ==> !IsSpace(r[0]) && !IsSpace(r[|r| - 1])
    ensures (s == [] || (!IsSpace(s[0]) && !IsSpace(s[|s| - 1]))) ==> r == s
    ensures exists i: nat :: SpaceAround(s, i, r)
  {
    var i := |s| - |t|;
    assert s[i + |r|..] == t[|r|..];
    assert r == s[i..i + |r|];
    assert SpaceAround(s, i, r);
    if r == [] {
      TrimAllSpace(s, t, r);
    } else {
      TrimNotAllSpace(s, t, r);
    }
    if s != [] && !IsSpace(s[0]) && !IsSpace(s[|s| - 1]) {
      assert t == s;
    }
  }

  lemma TrimAllSpace(s: string, t: string, r: string)
    requires StartCut(s, t) && EndCut(t, r) && r == []
    ensures AllSpace(s)
  {
    assert AllSpace(t) by {
      assert t[|r|..] == t;
    }
    AllSpaceConcat(s, |s| - |t|);
  }

  lemma TrimNotAllSpace(s: string, t: string, r: string)
    requires StartCut(s, t) && EndCut(t, r) && r != []
    ensures !AllSpace(s) && !IsSpace(r[0])
  {
    assert t[0] == r[0];
    assert s[|s| - |t|] == t[0];
  }

  /** A string is all whitespace when both sides of a cut are. */
  lemma AllSpaceConcat(s: string, k: nat)
    requires k <= |s|
    requires AllSpace(s[..k]) && AllSpace(s[k..])
    ensures AllSpace(s)
  {
    forall i | 0 <= i < |s| ensures IsSpace(s[i]) {
      if i < k {
        assert s[i] == s[..k][i];
      } else {
        assert s[i] == s[k..][i - k];
      }
    }
  }

  /** A character as stripping leaves it: gone if whitespace, kept otherwise. */
  function KeepNonSpace(c: char): (r: string)
    ensures NoSpace(r) && |r| <= 1
  {
    if IsSpace(c) then [] else [c]
  }

  /** `s.replace(/\s/g, "")`: every whitespace character removed, the rest kept in order. */
  function StripSpaces(s: string): (r: string)
    ensures |r| <= |s|
    ensures NoSpace(r)
  {
    if s == [] then [] else KeepNonSpace(s[0]) + StripSpaces(s[1..])
  }

  /** Text without whitespace is left as it is, and all-whitespace text becomes empty. */
  lemma {:induction false} StripSpacesExtremes(s: string)
    ensures NoSpace(s) ==> StripSpaces(s) == s
    ensures AllSpace(s) ==> StripSpaces(s) == []
  {
    if s != [] {
      StripSpacesExtremes(s[1..]);
      assert NoSpace(s) ==> NoSpace(s[1..]) && !IsSpace(s[0]);
      assert AllSpace(s) ==> AllSpace(s[1..]) && IsSpace(s[0]);
      assert [s[0]] + s[1..] == s;
    }
  }

  /** Stripping distributes over concatenation: each part keeps its own non-whitespace characters, in order. */
  lemma {:induction false} StripSpacesConcat(a: string, b: string)
    ensures StripSpaces(a + b) == StripSpaces(a) + StripSpaces(b)
  {
    if a == [] {
      assert a + b == b;
    } else {
      var h, x, y := KeepNonSpace(a[0]), StripSpaces(a[1..]), StripSpaces(b);
      assert StripSpaces(a + b) == h + StripSpaces(a[1..] + b) by {
        assert (a + b)[0] == a[0] && (a + b)[1..] == a[1..] + b;
      }
      assert StripSpaces(a[1..] + b) == x + y by {
        StripSpacesConcat(a[1..], b);
      }
      assert h + (x + y) == (h + x) + y;
    }
  }

  /** Appending one character appends it to the result exactly when it is not whitespace. */
  lemma StripSpacesSnoc(s: string, c: char)
    ensures StripSpaces(s + [c]) == StripSpaces(s) + (if IsSpace(c) then [] else [c])
  {
    StripSpacesConcat(s, [c]);
    assert [c][1..] == [];
  }

  predicate IsAsciiUpper(c: char) { 'A' <= c <= 'Z' }
  predicate IsAsciiLower(c: char) { 'a' <= c <= 'z' }
  predicate IsAsciiDigit(c: char) { '0' <= c <= '9' }
  predicate IsAsciiLetter(c: char) { IsAsciiUpper(c) || IsAsciiLower(c) }
  predicate IsAsciiAlnum(c: char) { IsAsciiLetter(c) || IsAsciiDigit(c) }

  /** Regular-expression tests `/[A-Z]/`, `/[a-z]/`, `/[0-9]/` and `/[^A-Za-z0-9]/` over a whole string. */
  predicate HasUpper(s: string) { exists i :: 0 <= i < |s| && IsAsciiUpper(s[i]) }
  predicate HasLower(s: string) { exists i :: 0 <= i < |s| && IsAsciiLower(s[i]) }
  predicate HasDigit(s: string) { exists i :: 0 <= i < |s| && IsAsciiDigit(s[i]) }
  predicate HasSpecial(s: string) { exists i :: 0 <= i < |s| && !IsAsciiAlnum(s[i]) }

  function AsciiUpper(c: char): char {
    if IsAsciiLower(c) then (c as int - 32) as char else c
  }

  function AsciiLower(c: char): char {
    if IsAsciiUpper(c) then (c as int + 32) as char else c
  }

  /** `toUpperCase`, restricted to the ASCII letters. */
  function Upper(s: string): (r: string)
    ensures |r| == |s|
    ensures forall i :: 0 <= i < |s| ==> r[i] == AsciiUpper(s[i])
  {
    seq(|s|, i requires 0 <= i < |s| => AsciiUpper(s[i]))
  }

  /** `toLowerCase`, restricted to the ASCII letters. */
  function Lower(s: string): (r: string)
    ensures |r| == |s|
    ensures forall i :: 0 <= i < |s| ==> r[i] == AsciiLower(s[i])
  {
    seq(|s|, i requires 0 <= i < |s| => AsciiLower(s[i]))
  }

  /** `s.split(sep)` for a one-character separator. */
  function Split(s: string, sep: char): (r: seq<string>)
    ensures |r| >= 1
    ensures forall k, i :: 0 <= k < |r| && 0 <= i < |r[k]| ==> r[k][i] != sep
  {
    if s == [] then [""]
    else
      var rest := Split(s[1..], sep);
      if s[0] == sep then [""] + rest
      else [[s[0]] + rest[0]] + rest[1..]
  }

  /** `pieces.join(sep)` for a one-character separator. */
  function Join(pieces: seq<string>, sep: char): string
    requires |pieces| >= 1
  {
    if |pieces| == 1 then pieces[0] else pieces[0] + [sep] + Join(pieces[1..], sep)
  }

  /** Joining the pieces of a split with the same separator gives the string back. */
  lemma {:induction false} SplitJoin(s: string, sep: char)
    ensures Join(Split(s, sep), sep) == s
  {
    if s != [] {
      var rest := Split(s[1..], sep);
      SplitJoin(s[1..], sep);
      if s[0] == sep {
        assert Split(s, sep)[1..] == rest;
      } else {
        var r := Split(s, sep);
        assert r[0] == [s[0]] + rest[0];
        if |rest| == 1 {
          assert Join(r, sep) == [s[0]] + rest[0];
        } else {
          assert r[1..] == rest[1..];
          assert Join(r, sep) == [s[0]] + (rest[0] + [sep] + Join(rest[1..], sep));
        }
        assert [s[0]] + s[1..] == s;
      }
    }
  }

  function Repeat(c: char, n: nat): (r: string)
    ensures |r| == n
    ensures forall i :: 0 <= i < n ==> r[i] == c
  {
    seq(n, _ => c)
  }

  /** `s.padStart(n, fill)` for a one-character fill. */
  function PadStart(s: string, n: nat, fill: char): (r: string)
    ensures |r| == if |s| >= n then |s| else n
    ensures r[|r| - |s|..] == s
    ensures forall i :: 0 <= i < |r| - |s| ==> r[i] == fill
  {
    if |s| >= n then s else Repeat(fill, n - |s|) + s
  }

  /** Every character fits in one byte: the strings `btoa` accepts. */
  predicate IsLatin1(s: string) {
    forall i :: 0 <= i < |s| ==> s[i] as int < 256
  }

  /** A 16-bit value: one element of a JavaScript string. */
  type CodeUnit = x: int | 0 <= x < 0x1_0000

  predicate IsHighSurrogate(u: int) { 0xD800 <= u < 0xDC00 }
  predicate IsLowSurrogate(u: int) { 0xDC00 <= u < 0xE000 }

  /** Every character is below U+10000, so each is a single code unit. */
  predicate IsBmp(s: string) {
    forall i :: 0 <= i < |s| ==> s[i] as int < 0x1_0000
  }

  /** The UTF-16 encoding of one character: itself below U+10000, otherwise a high then a low surrogate. */
  function Utf16(c: char): (u: seq<CodeUnit>)
    ensures |u| == if c as int < 0x1_0000 then 1 else 2
    ensures |u| == 1 ==> !IsHighSurrogate(u[0]) && !IsLowSurrogate(u[0])
    ensures |u| == 2 ==> IsHighSurrogate(u[0]) && IsLowSurrogate(u[1])
  {
    var v := c as int;
    if v < 0x1_0000 then [v]
    else
      var w := v - 0x1_0000;
      SurrogateHalves(w);
      [0xD800 + w / 0x400, 0xDC00 + w % 0x400]
  }

  lemma SurrogateHalves(w: int)
    requires 0 <= w < 0x10_0000
    ensures 0 <= w / 0x400 < 0x400 && 0 <= w % 0x400 < 0x400
  {
  }

  /** The character a surrogate pair stands for, as `codePointAt` combines it. */
  function Combine(hi: CodeUnit, lo: CodeUnit): int {
    0x1_0000 + (hi - 0xD800) * 0x400 + (lo - 0xDC00)
  }

  /** A surrogate pair combines back into the character it encodes. */
  lemma Utf16Combines(c: char)
    requires c as int >= 0x1_0000
    ensures Combine(Utf16(c)[0], Utf16(c)[1]) == c as int
  {
    var w := c as int - 0x1_0000;
    assert w / 0x400 * 0x400 + w % 0x400 == w;
  }

  /** The code units of a string, in order: what `split("")` and `charCodeAt` see. */
  function CodeUnits(s: string): (u: seq<CodeUnit>)
    ensures |u| >= |s|
  {
    if s == [] then [] else Utf16(s[0]) + CodeUnits(s[1..])
  }

  /** `s.length`: the number of code units. */
  function Length(s: string): nat {
    |CodeUnits(s)|
  }

  /** Without characters above U+FFFF, each character is its own code unit. */
  lemma {:induction false} BmpCodeUnits(s: string)
    requires IsBmp(s)
    ensures |CodeUnits(s)| == |s|
    ensures forall i :: 0 <= i < |s| ==> CodeUnits(s)[i] == s[i] as int
  {
    if s != [] {
      BmpCodeUnits(s[1..]);
      forall i | 1 <= i < |s| ensures CodeUnits(s)[i] == s[i] as int {
        assert CodeUnits(s)[i] == CodeUnits(s[1..])[i - 1];
      }
    }
  }

  /** `length` counts the characters exactly when none is above U+FFFF; otherwise it counts more. */
  lemma {:induction false} LengthIsSize(s: string)
    ensures Length(s) == |s| <==> IsBmp(s)
  {
    if s != [] {
      LengthIsSize(s[1..]);
      if !IsBmp(s[1..]) {
        var i :| 0 <= i < |s[1..]| && s[1..][i] as int >= 0x1_0000;
        assert s[i + 1] as int >= 0x1_0000;
      }
      if IsBmp(s[1..]) && s[0] as int < 0x1_0000 {
        forall i | 0 <= i < |s| ensures s[i] as int < 0x1_0000 {
          if i > 0 {
            assert s[i] == s[1..][i - 1];
          }
        }
      }
    }
  }

  /** The code units of a concatenation are those of the parts. */
  lemma {:induction false} CodeUnitsConcat(a: string, b: string)
    ensures CodeUnits(a + b) == CodeUnits(a) + CodeUnits(b)
  {
    if a != [] {
      assert (a + b)[0] == a[0] && (a + b)[1..] == a[1..] + b;
      CodeUnitsConcat(a[1..], b);
    } else {
      assert a + b == b;
    }
  }
}
