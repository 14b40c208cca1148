/**
 * The cryptography page: the Caesar cipher over ASCII letters, the password
 * strength meter with its first-failure advice and its label, and the
 * "encrypt" panel with its Base64, ROT13 and reverse methods.
 */
module Cryptography {
  import opened Wrappers
  import opened JsText
  import Base64

  /** One character under a Caesar shift: letters move `k` places round their own alphabet, the rest stay. */
  function ShiftChar(c: char, k: nat): (r: char)
    ensures !IsAsciiLetter(c) ==> r == c
    ensures IsAsciiUpper(c) <==> IsAsciiUpper(r)
    ensures IsAsciiLower(c) <==> IsAsciiLower(r)
  {
    if IsAsciiUpper(c) then ((c as int - 65 + k) % 26 + 65) as char
    else if IsAsciiLower(c) then ((c as int - 97 + k) % 26 + 97) as char
    else c
  }

  /** The ciphertext effect: every character shifted by `k`. */
  function Caesar(s: string, k: nat): (r: string)
    ensures |r| == |s|
    ensures forall i :: 0 <= i < |s| ==> r[i] == ShiftChar(s[i], k)
  {
    seq(|s|, i requires 0 <= i < |s| => ShiftChar(s[i], k))
  }

  /** Position arithmetic: shifting by `k` and then by the rest of 26 is the identity. */
  lemma ShiftBack(x: int, k: nat)
    requires 0 <= x < 26
    ensures ((x + k) % 26 + (26 - k % 26)) % 26 == x
  {
    var y := (x + k) % 26;
    assert x + k == (x + k) / 26 * 26 + y;
    assert k == k / 26 * 26 + k % 26;
    var d := (x + k) / 26 - k / 26;
    assert y + (26 - k % 26) == x + 26 - 26 * d;
    if d == 0 {
      assert (x + 26) % 26 == x;
    } else {
      assert d == 1;
    }
  }

  lemma ShiftCharBack(c: char, k: nat)
    ensures ShiftChar(ShiftChar(c, k), 26 - k % 26) == c
  {
    if IsAsciiUpper(c) {
      ShiftBack(c as int - 65, k);
    } else if IsAsciiLower(c) {
      ShiftBack(c as int - 97, k);
    }
  }

  /** Deciphering: a shift by `k` is undone by a shift by `26 - k` (for `k` in the slider's range 1..25, or any `k` reduced mod 26). */
  lemma CaesarRoundTrip(s: string, k: nat)
    ensures Caesar(Caesar(s, k), 26 - k % 26) == s
  {
    forall i | 0 <= i < |s| ensures Caesar(Caesar(s, k), 26 - k % 26)[i] == s[i] {
      ShiftCharBack(s[i], k);
    }
  }

  /** The page's own example: with a shift of 3, A becomes D and B becomes E; the default text enciphers as shown. */
  lemma CaesarExamples()
    ensures Caesar("AB", 3) == "DE"
    ensures Caesar("Hello World", 3) == "Khoor Zruog"
  {
  }

  /** ROT13 as the encrypt panel computes it: add 13, less 26 from `n` on, then keep the low byte. */
  function Rot13Char(c: char): (r: char)
    ensures !IsAsciiLetter(c) ==> r == c
  {
    if IsAsciiLetter(c) then
      var down := if AsciiLower(c) < 'n' then 0 else 26;
      ((c as int + 13 - down) % 256) as char
    else c
  }

  function Rot13(s: string): (r: string)
    ensures |r| == |s|
    ensures forall i :: 0 <= i < |s| ==> r[i] == Rot13Char(s[i])
  {
    seq(|s|, i requires 0 <= i < |s| => Rot13Char(s[i]))
  }

  /** ROT13 is the Caesar shift by 13. */
  lemma Rot13IsCaesar(s: string)
    ensures Rot13(s) == Caesar(s, 13)
  {
    forall i | 0 <= i < |s| ensures Rot13(s)[i] == Caesar(s, 13)[i] {
      Rot13CharIsShift(s[i]);
    }
  }

  lemma Rot13CharIsShift(c: char)
    ensures Rot13Char(c) == ShiftChar(c, 13)
  {
    if IsAsciiUpper(c) {
      assert AsciiLower(c) as int == c as int + 32;
    }
  }

  /** ROT13 is its own inverse. */
  lemma Rot13Involution(s: string)
    ensures Rot13(Rot13(s)) == s
  {
    var r := Rot13(s);
    assert r == Caesar(s, 13) by {
      Rot13IsCaesar(s);
    }
    assert Rot13(r) == Caesar(r, 13) by {
      Rot13IsCaesar(r);
    }
    assert Caesar(Caesar(s, 13), 13) == s by {
      CaesarRoundTrip(s, 13);
      assert 26 - 13 % 26 == 13;
    }
  }

  /** `s.split("").reverse().join("")`, over characters: one above U+FFFF stays whole, where the page would separate its two surrogates. */
  function Reverse(s: string): (r: string)
    ensures |r| == |s|
    ensures forall i :: 0 <= i < |s| ==> r[i] == s[|s| - 1 - i]
  {
    if s == [] then [] else Reverse(s[1..]) + [s[0]]
  }

  /** Reversing twice gives the text back. */
  lemma ReverseInvolution(s: string)
    ensures Reverse(Reverse(s)) == s
  {
  }

  /** On text without characters above U+FFFF, reversing the characters reverses the code units, as `split("")` does. */
  lemma ReverseCodeUnits(s: string)
    requires IsBmp(s)
    ensures |CodeUnits(Reverse(s))| == |CodeUnits(s)|
    ensures forall i :: 0 <= i < |s| ==> CodeUnits(Reverse(s))[i] == CodeUnits(s)[|s| - 1 - i]
  {
    var r := Reverse(s);
    assert IsBmp(r) by {
      forall i | 0 <= i < |r| ensures r[i] as int < 0x1_0000 {
        assert r[i] == s[|s| - 1 - i];
      }
    }
    BmpCodeUnits(s);
    BmpCodeUnits(r);
  }

  /** Reversal keeps every character, as often as it occurs. */
  lemma {:induction false} ReverseMultiset(s: string)
    ensures multiset(Reverse(s)) == multiset(s)
  {
    if s != [] {
      ReverseMultiset(s[1..]);
      assert s == [s[0]] + s[1..];
    }
  }

  /** One check of the strength meter: whether it passed, and the advice shown when it did not. */
  datatype Rule = Rule(passed: bool, advice: string)

  /** The five checks, in the order the meter runs them. */
  function Rules(p: string): (rules: seq<Rule>)
    ensures |rules| == 5
  {
    [Rule(Length(p) >= 8, "Password should be at least 8 characters"),
     Rule(HasUpper(p), "Add uppercase letters"),
     Rule(HasLower(p), "Add lowercase letters"),
     Rule(HasDigit(p), "Add numbers"),
     Rule(HasSpecial(p), "Add special characters")]
  }

  /** 20 points for each passed check. */
  function Points(rules: seq<Rule>): nat {
    if rules == [] then 0 else (if rules[0].passed then 20 else 0) + Points(rules[1..])
  }

  /** The advice of the failed checks, in order. */
  function Failures(rules: seq<Rule>): (f: seq<string>)
    ensures |f| <= |rules|
  {
    if rules == [] then []
    else if rules[0].passed then Failures(rules[1..])
    else [rules[0].advice] + Failures(rules[1..])
  }

  lemma {:induction false} PointsFailures(rules: seq<Rule>)
    ensures Points(rules) == 20 * (|rules| - |Failures(rules)|)
  {
    if rules != [] {
      PointsFailures(rules[1..]);
    }
  }

  datatype Analysis = Analysis(strength: nat, feedback: string)

  /** The strength effect: nothing to score for an empty password; otherwise the points and the first advice. */
  function AnalyzePassword(p: string): (a: Analysis)
    ensures p == [] ==> a == Analysis(0, "Enter a password")
    ensures p != [] ==> a.strength % 20 == 0 && 20 <= a.strength <= 100
    ensures p != [] ==> (a.feedback == "Strong password!" <==> a.strength == 100)
  {
    if p == [] then Analysis(0, "Enter a password")
    else
      var rules := Rules(p);
      var f := Failures(rules);
      PointsFailures(rules);
      SomeRulePasses(p);
      AdviceNotStrong(p);
      Analysis(Points(rules), if |f| > 0 then f[0] else "Strong password!")
  }

  /** Any character passes one of the letter, digit or special checks. */
  lemma SomeRulePasses(p: string)
    requires p != []
    ensures |Failures(Rules(p))| <= 4
  {
    var c := p[0];
    var rules := Rules(p);
    if IsAsciiUpper(c) {
      assert HasUpper(p);
      FailuresShorter(rules, 1);
    } else if IsAsciiLower(c) {
      assert HasLower(p);
      FailuresShorter(rules, 2);
    } else if IsAsciiDigit(c) {
      assert HasDigit(p);
      FailuresShorter(rules, 3);
    } else {
      assert HasSpecial(p);
      FailuresShorter(rules, 4);
    }
  }

  /** A passed check gives no advice. */
  lemma {:induction false} FailuresShorter(rules: seq<Rule>, i: nat)
    requires i < |rules| && rules[i].passed
    ensures |Failures(rules)| < |rules|
  {
    if i > 0 {
      FailuresShorter(rules[1..], i - 1);
    }
  }

  /** The first advice is that of the first failed check; there is none when all pass. */
  lemma {:induction false} FirstFailure(rules: seq<Rule>, i: nat)
    requires i <= |rules|
    requires forall j :: 0 <= j < i ==> rules[j].passed
    ensures i == |rules| ==> Failures(rules) == []
    ensures i < |rules| && !rules[i].passed ==> Failures(rules) != [] && Failures(rules)[0] == rules[i].advice
  {
    if i > 0 {
      FirstFailure(rules[1..], i - 1);
    }
  }

  /** No check's advice reads "Strong password!". */
  lemma AdviceNotStrong(p: string)
    ensures "Strong password!" !in Failures(Rules(p))
  {
    var rules := Rules(p);
    forall i | 0 <= i < 5 ensures rules[i].advice != "Strong password!" {
      assert rules[i].advice[0] != 'S';
    }
    AdviceOnly(rules, "Strong password!");
  }

  /** Advice that no check gives is never shown. */
  lemma {:induction false} AdviceOnly(rules: seq<Rule>, m: string)
    requires forall i :: 0 <= i < |rules| ==> rules[i].advice != m
    ensures m !in Failures(rules)
  {
    if rules != [] {
      AdviceOnly(rules[1..], m);
    }
  }

  /** The advice the meter gives, check by check: the first one that fails. */
  function FirstAdvice(p: string): string {
    if Length(p) < 8 then "Password should be at least 8 characters"
    else if !HasUpper(p) then "Add uppercase letters"
    else if !HasLower(p) then "Add lowercase letters"
    else if !HasDigit(p) then "Add numbers"
    else if !HasSpecial(p) then "Add special characters"
    else "Strong password!"
  }

  /** The feedback is the advice of the first failed check, in the order length, upper, lower, digit, special. */
  lemma FeedbackIsFirstFailure(p: string)
    requires p != []
    ensures AnalyzePassword(p).feedback == FirstAdvice(p)
  {
    var rules := Rules(p);
    if Length(p) < 8 {
      FirstFailure(rules, 0);
    } else if !HasUpper(p) {
      FirstFailure(rules, 1);
    } else if !HasLower(p) {
      FirstFailure(rules, 2);
    } else if !HasDigit(p) {
      FirstFailure(rules, 3);
    } else if !HasSpecial(p) {
      FirstFailure(rules, 4);
    } else {
      FirstFailure(rules, 5);
    }
  }

  /** The label under the meter. */
  function StrengthLabel(strength: nat): (shown: string)
    ensures shown == "Weak" <==> strength < 40
    ensures shown == "Medium" <==> 40 <= strength < 80
    ensures shown == "Strong" <==> strength >= 80
  {
    if strength < 40 then "Weak" else if strength < 80 then "Medium" else "Strong"
  }

  /** A password is labelled Strong exactly when at most one check fails. */
  lemma StrongLabel(p: string)
    requires p != []
    ensures StrengthLabel(AnalyzePassword(p).strength) == "Strong" <==> |Failures(Rules(p))| <= 1
  {
    PointsFailures(Rules(p));
  }

  /** `handleEncrypt`: None where `btoa` throws on a character above U+00FF. */
  function Encrypt(mode: string, input: string): (r: Option<string>)
    ensures mode != "base64" ==> r.Some?
    ensures mode == "base64" ==> (r.Some? <==> IsLatin1(input))
  {
    if mode == "base64" then Base64.Btoa(input)
    else if mode == "rot13" then Some(Rot13(input))
    else if mode == "reverse" then Some(Reverse(input))
    else Some(input)
  }

  /** Each mode is undone by its counterpart: `atob`, ROT13 itself, reversal itself; anything else is the identity. */
  lemma EncryptUndone(input: string)
    ensures IsLatin1(input) ==> Base64.Atob(Encrypt("base64", input).value) == Some(input)
    ensures Encrypt("rot13", Encrypt("rot13", input).value) == Some(input)
    ensures Encrypt("reverse", Encrypt("reverse", input).value) == Some(input)
    ensures Encrypt("none", input) == Some(input)
  {
    if IsLatin1(input) {
      Base64.AtobBtoa(input);
    }
    Rot13Involution(input);
    ReverseInvolution(input);
  }
}
