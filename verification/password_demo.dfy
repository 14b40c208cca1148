/**
 * The personal-data password demo: the strength heuristic with its
 * personal-information penalty, the "complexity" transformer, the five
 * generation methods and which of them apply, the initials rule, the editable
 * family and pet lists, and the random "secure" password.
 *
 * Every `Math.random()` draw is an argument: a draw for a set of `n`
 * characters is a natural number below `n`, the index `Math.floor` gives.
 * The birth year and month, which the page reads from `new Date(...)`, are
 * arguments too.
 */
module PasswordDemo {
  import opened JsText
  import opened JsNumber

  /** `calculateStrength` before the penalty: the points of each test that passes. */
  function RawStrength(p: string): (raw: nat)
    ensures raw <= 85
    ensures Length(p) < 8 ==> raw <= 45
  {
    (if Length(p) >= 8 then 20 else 0)
    + (if Length(p) >= 12 then 10 else 0)
    + (if HasLower(p) then 10 else 0)
    + (if HasUpper(p) then 10 else 0)
    + (if HasDigit(p) then 10 else 0)
    + (if HasSpecial(p) then 15 else 0)
    + (if Length(p) >= 16 then 10 else 0)
  }

  /** `calculateStrength`: 25 points off for personal information, never below 0 nor above 100. */
  function CalculateStrength(p: string): (s: nat)
    ensures s <= 60
    ensures Length(p) < 8 ==> s <= 20
    ensures s + 25 >= RawStrength(p) && (s > 0 ==> s + 25 == RawStrength(p))
  {
    var penalised := if RawStrength(p) >= 25 then RawStrength(p) - 25 else 0;
    Min(100, penalised)
  }

  /** `Math.min` on naturals. */
  function Min(a: nat, b: nat): (m: nat)
    ensures m <= a && m <= b && (m == a || m == b)
  {
    if a < b then a else b
  }

  /** The top score, 60, needs a length of 16 or more and all four kinds of character. */
  lemma TopStrength(p: string)
    ensures CalculateStrength(p) == 60 <==> Length(p) >= 16 && HasLower(p) && HasUpper(p) && HasDigit(p) && HasSpecial(p)
  {
  }

  /** Options the page passes to `addComplexity`. */
  datatype Options = Options(length: nat, numbers: bool, symbols: bool, uppercase: bool, lowercase: bool)

  /** The random draws one `addComplexity` call makes: the two-digit number, the symbol, and the filler characters. */
  datatype Draws = Draws(number: nat, symbol: nat, fill: seq<nat>)

  const Symbols: string := "!@#$%^&*"
  const FillChars: string := "abcdefghijklmnopqrstuvwxyzABCDEFGHIJKLMNOPQRSTUVWXYZ0123456789!@#$%^&*"

  /** Draws in range, and enough filler draws for any shortfall. */
  predicate ValidDraws(d: Draws, o: Options) {
    d.number < 100 && d.symbol < |Symbols| && |d.fill| >= o.length
    && forall k :: 0 <= k < |d.fill| ==> d.fill[k] < |FillChars|
  }

  /** `s.charAt(0).toUpperCase() + s.slice(1)`. */
  function Capitalize(s: string): (r: string)
    ensures |r| == |s|
    ensures s != [] ==> r[0] == AsciiUpper(s[0]) && r[1..] == s[1..]
  {
    if s == [] then [] else [AsciiUpper(s[0])] + s[1..]
  }

  /** The base after the two case options. */
  function Cased(base: string, o: Options): (r: string)
    ensures |r| == |base|
  {
    var p := if o.uppercase then Capitalize(base) else base;
    if o.lowercase then (if o.uppercase then Capitalize(Lower(p)) else Lower(p)) else p
  }

  /** The base, cased, with the number and the symbol the options ask for. */
  function Decorated(base: string, o: Options, d: Draws): (r: string)
    requires ValidDraws(d, o)
    ensures |r| >= |base| && r[..|base|] == Cased(base, o)
  {
    var p := Cased(base, o);
    var p1 := if o.numbers then p + PadStart(NatToString(d.number, 10), 2, '0') else p;
    var p2 := if o.symbols then p1 + [Symbols[d.symbol]] else p1;
    assert p2[..|base|] == p;
    p2
  }

  /** `addComplexity`: the decorated base, filled with random characters or cut to the requested length. */
  function AddComplexity(base: string, o: Options, d: Draws): (r: string)
    requires ValidDraws(d, o)
    ensures |r| == o.length
  {
    var p := Decorated(base, o, d);
    if |p| < o.length then p + seq(o.length - |p|, k requires 0 <= k < o.length - |p| => FillChars[d.fill[k]])
    else p[..o.length]
  }

  /** Whatever the draws, the result starts with as much of the cased base as fits. */
  lemma AddComplexityKeepsBase(base: string, o: Options, d: Draws)
    requires ValidDraws(d, o)
    ensures var n := if |base| < o.length then |base| else o.length;
      AddComplexity(base, o, d)[..n] == Cased(base, o)[..n]
  {
    var p := Decorated(base, o, d);
    var r := AddComplexity(base, o, d);
    var n := if |base| < o.length then |base| else o.length;
    DecoratedPrefix(base, o, d);
    SharedPrefix(r, p, Min(|p|, o.length), n);
    assert p[..n] == p[..|base|][..n];
  }

  lemma DecoratedPrefix(base: string, o: Options, d: Draws)
    requires ValidDraws(d, o)
    ensures var p := Decorated(base, o, d); var m := Min(|p|, o.length);
      AddComplexity(base, o, d)[..m] == p[..m]
  {
    var p := Decorated(base, o, d);
    if |p| < o.length {
      var fill := seq(o.length - |p|, k requires 0 <= k < o.length - |p| => FillChars[d.fill[k]]);
      assert AddComplexity(base, o, d) == p + fill;
      assert (p + fill)[..|p|] == p;
    }
  }

  lemma SharedPrefix(r: string, p: string, m: nat, n: nat)
    requires n <= m <= |r| && m <= |p| && r[..m] == p[..m]
    ensures r[..n] == p[..n]
  {
    assert r[..n] == r[..m][..n];
    assert p[..n] == p[..m][..n];
  }

  /**
   * The casing rule: with lower case on, the whole base is lowered and then
   * capitalised exactly when upper case is on; with only upper case on, just
   * the first character is raised.
   */
  lemma CasedShape(base: string, o: Options)
    ensures o.lowercase ==> forall i :: 1 <= i < |base| ==> Cased(base, o)[i] == AsciiLower(base[i])
    ensures o.lowercase && base != [] ==>
      Cased(base, o)[0] == (if o.uppercase then AsciiUpper(AsciiLower(base[0])) else AsciiLower(base[0]))
    ensures !o.lowercase && o.uppercase && base != [] ==>
      Cased(base, o)[0] == AsciiUpper(base[0]) && Cased(base, o)[1..] == base[1..]
    ensures !o.lowercase && !o.uppercase ==> Cased(base, o) == base
  {
    if o.lowercase && o.uppercase && base != [] {
      var p := Capitalize(base);
      forall i | 1 <= i < |base| ensures Cased(base, o)[i] == AsciiLower(base[i]) {
        assert Lower(p)[i] == AsciiLower(p[i]);
        assert p[i] == p[1..][i - 1] == base[1..][i - 1];
      }
      assert AsciiLower(AsciiUpper(base[0])) == AsciiLower(base[0]);
    }
  }

  /**
   * `fullName.split(" ").map(n => n[0]).join("")`: the first character of each
   * piece; an empty piece adds nothing. The page's `n[0]` is the first code
   * unit, which differs only for a piece starting above U+FFFF.
   */
  function InitialsOf(pieces: seq<string>): string {
    if pieces == [] then []
    else (if pieces[0] == [] then [] else [pieces[0][0]]) + InitialsOf(pieces[1..])
  }

  function Initials(fullName: string): string {
    InitialsOf(Split(fullName, ' '))
  }

  /** The characters that begin a word: not a space, and first or after a space (`atStart` says whether the position before counts as a space). */
  function WordStarts(s: string, atStart: bool): (r: string)
    ensures |r| <= |s|
  {
    if s == [] then []
    else (if s[0] != ' ' && atStart then [s[0]] else []) + WordStarts(s[1..], s[0] == ' ')
  }

  /** The initials are exactly the word-initial characters of the name. */
  lemma {:induction false} InitialsAreWordStarts(s: string)
    ensures Initials(s) == WordStarts(s, true)
    ensures InitialsOf(Split(s, ' ')[1..]) == WordStarts(s, false)
  {
    if s != [] {
      InitialsAreWordStarts(s[1..]);
      var rest := Split(s[1..], ' ');
      if s[0] == ' ' {
        assert Split(s, ' ') == [""] + rest;
        assert Split(s, ' ')[1..] == rest;
      } else {
        assert Split(s, ' ') == [[s[0]] + rest[0]] + rest[1..];
        assert Split(s, ' ')[1..] == rest[1..];
      }
    }
  }

  datatype Pet = Pet(name: string, kind: string)

  /** What the form collects (the birth date only as the raw field; its year and month come separately). */
  datatype PersonalData = PersonalData(
    fullName: string,
    familyMembers: seq<string>,
    pets: seq<Pet>,
    dateOfBirth: string,
    favoritePlayer: string,
    favoriteSubject: string,
    travelDestination: string)

  /** The names of the pets that have one, in order. */
  function PetNames(pets: seq<Pet>): (names: seq<string>)
    ensures |names| <= |pets|
    ensures forall k :: 0 <= k < |names| ==> names[k] != ""
  {
    if pets == [] then []
    else (if pets[0].name != "" then [pets[0].name] else []) + PetNames(pets[1..])
  }

  /** The family members whose name is not blank, in order. */
  function FamilyNames(members: seq<string>): (names: seq<string>)
    ensures |names| <= |members|
  {
    if members == [] then []
    else (if Trim(members[0]) != "" then [members[0]] else []) + FamilyNames(members[1..])
  }

  datatype Method = NameYear | PetTravel | SubjectPlayer | FamilyMonthPet | InitialsDate

  const AllMethods: seq<Method> := [NameYear, PetTravel, SubjectPlayer, FamilyMonthPet, InitialsDate]

  /** The birth year and month the page derives: empty when no date was entered. */
  datatype Birth = Birth(year: string, month: string)

  function BirthOf(data: PersonalData, date: Birth): Birth {
    if data.dateOfBirth == "" then Birth("", "") else date
  }

  /** Whether a method has the fields it needs. */
  predicate Fires(data: PersonalData, date: Birth, m: Method) {
    var birth := BirthOf(data, date);
    match m
    case NameYear => Split(data.fullName, ' ')[0] != "" && birth.year != ""
    case PetTravel => |PetNames(data.pets)| > 0 && data.travelDestination != ""
    case SubjectPlayer => data.favoriteSubject != "" && data.favoritePlayer != ""
    case FamilyMonthPet => |FamilyNames(data.familyMembers)| > 0 && birth.month != "" && |PetNames(data.pets)| > 0
    case InitialsDate => data.fullName != "" && data.dateOfBirth != ""
  }

  /** The text a method builds its password from. */
  function Base(data: PersonalData, date: Birth, m: Method): string
    requires Fires(data, date, m)
  {
    var birth := BirthOf(data, date);
    match m
    case NameYear => Split(data.fullName, ' ')[0] + birth.year
    case PetTravel => PetNames(data.pets)[0] + StripSpaces(data.travelDestination)
    case SubjectPlayer => StripSpaces(data.favoriteSubject) + StripSpaces(data.favoritePlayer)
    case FamilyMonthPet => StripSpaces(FamilyNames(data.familyMembers)[0]) + birth.month + PetNames(data.pets)[0]
    case InitialsDate => Initials(data.fullName) + RemoveDashes(data.dateOfBirth)
  }

  /** `s.replace(/-/g, "")`. */
  function RemoveDashes(s: string): (r: string)
    ensures |r| <= |s|
    ensures forall k :: 0 <= k < |r| ==> r[k] != '-'
    ensures s != [] && s[0] != '-' ==> r != [] && r[0] == s[0]
  {
    if s == [] then [] else (if s[0] == '-' then [] else [s[0]]) + RemoveDashes(s[1..])
  }

  /** Dash removal distributes over concatenation: each part keeps its other characters, in order. */
  lemma {:induction false} RemoveDashesConcat(a: string, b: string)
    ensures RemoveDashes(a + b) == RemoveDashes(a) + RemoveDashes(b)
  {
    if a == [] {
      assert a + b == b;
    } else {
      var h := if a[0] == '-' then [] else [a[0]];
      var x, y := RemoveDashes(a[1..]), RemoveDashes(b);
      assert RemoveDashes(a + b) == h + RemoveDashes(a[1..] + b) by {
        assert (a + b)[0] == a[0] && (a + b)[1..] == a[1..] + b;
      }
      assert RemoveDashes(a[1..] + b) == x + y by {
        RemoveDashesConcat(a[1..], b);
      }
      assert h + (x + y) == (h + x) + y;
    }
  }

  /** Appending one character appends it to the result exactly when it is not a dash. */
  lemma RemoveDashesSnoc(s: string, c: char)
    ensures RemoveDashes(s + [c]) == RemoveDashes(s) + (if c == '-' then [] else [c])
  {
    RemoveDashesConcat(s, [c]);
    assert [c][1..] == [];
  }

  /** An ISO date loses exactly its two dashes. */
  lemma RemoveDashesDate(y: string, m: string, d: string)
    requires forall k :: 0 <= k < |y| ==> y[k] != '-'
    requires forall k :: 0 <= k < |m| ==> m[k] != '-'
    requires forall k :: 0 <= k < |d| ==> d[k] != '-'
    ensures RemoveDashes(y + ['-'] + m + ['-'] + d) == y + m + d
  {
    var dash := ['-'];
    assert RemoveDashes(dash) == [];
    NoDashKept(y);
    NoDashKept(m);
    NoDashKept(d);
    var a := y + dash;
    RemoveDashesConcat(y, dash);
    assert RemoveDashes(a) == y;
    var b := a + m;
    RemoveDashesConcat(a, m);
    var c := b + dash;
    RemoveDashesConcat(b, dash);
    assert RemoveDashes(c) == y + m;
    RemoveDashesConcat(c, d);
  }

  lemma {:induction false} NoDashKept(s: string)
    requires forall k :: 0 <= k < |s| ==> s[k] != '-'
    ensures RemoveDashes(s) == s
  {
    if s != [] {
      NoDashKept(s[1..]);
      assert [s[0]] + s[1..] == s;
    }
  }

  datatype Entry = Entry(password: string, strength: nat, source: Method)

  /** `generatePersonalPasswords` over the methods still to try, each with its own draws. */
  function Generate(data: PersonalData, date: Birth, o: Options, methods: seq<Method>, draws: seq<Draws>): (r: seq<Entry>)
    requires |draws| == |methods| && forall k :: 0 <= k < |draws| ==> ValidDraws(draws[k], o)
    ensures |r| <= |methods|
    ensures forall k :: 0 <= k < |r| ==>
      |r[k].password| == o.length && r[k].strength == CalculateStrength(r[k].password)
  {
    if methods == [] then []
    else
      var rest := Generate(data, date, o, methods[1..], draws[1..]);
      if Fires(data, date, methods[0]) then
        var p := AddComplexity(Base(data, date, methods[0]), o, draws[0]);
        [Entry(p, CalculateStrength(p), methods[0])] + rest
      else rest
  }

  function GeneratePersonalPasswords(data: PersonalData, date: Birth, o: Options, draws: seq<Draws>): (r: seq<Entry>)
    requires |draws| == 5 && forall k :: 0 <= k < 5 ==> ValidDraws(draws[k], o)
    ensures |r| <= 5
  {
    Generate(data, date, o, AllMethods, draws)
  }

  function MethodsOf(entries: seq<Entry>): seq<Method> {
    if entries == [] then [] else [entries[0].source] + MethodsOf(entries[1..])
  }

  /** The methods that fire, in the order given. */
  function FiringMethods(data: PersonalData, date: Birth, methods: seq<Method>): seq<Method> {
    if methods == [] then []
    else (if Fires(data, date, methods[0]) then [methods[0]] else []) + FiringMethods(data, date, methods[1..])
  }

  /** The entries come in the fixed method order, one for each method that fires and none for the rest. */
  lemma {:induction false} GenerateMethods(data: PersonalData, date: Birth, o: Options, methods: seq<Method>, draws: seq<Draws>)
    requires |draws| == |methods| && forall k :: 0 <= k < |draws| ==> ValidDraws(draws[k], o)
    ensures MethodsOf(Generate(data, date, o, methods, draws)) == FiringMethods(data, date, methods)
  {
    if methods != [] {
      GenerateMethods(data, date, o, methods[1..], draws[1..]);
    }
  }

  lemma {:induction false} FiringMember(data: PersonalData, date: Birth, methods: seq<Method>, m: Method)
    ensures m in FiringMethods(data, date, methods) <==> m in methods && Fires(data, date, m)
  {
    if methods != [] {
      FiringMember(data, date, methods[1..], m);
      assert methods == [methods[0]] + methods[1..];
    }
  }

  /** A method appears among the generated passwords exactly when it has the fields it needs. */
  lemma MethodAppears(data: PersonalData, date: Birth, o: Options, draws: seq<Draws>, m: Method)
    requires |draws| == 5 && forall k :: 0 <= k < 5 ==> ValidDraws(draws[k], o)
    ensures m in MethodsOf(GeneratePersonalPasswords(data, date, o, draws)) <==> Fires(data, date, m)
  {
    GenerateMethods(data, date, o, AllMethods, draws);
    FiringMember(data, date, AllMethods, m);
  }

  /** `addFamilyMember` and `addPet`: one empty entry at the end. */
  function Append<T>(list: seq<T>, blank: T): (r: seq<T>)
    ensures |r| == |list| + 1 && r[..|list|] == list && r[|list|] == blank
  {
    list + [blank]
  }

  /** `updated[index] = value` on a copy. */
  function UpdateAt<T>(list: seq<T>, index: nat, value: T): (r: seq<T>)
    requires index < |list|
    ensures |r| == |list| && r[index] == value
    ensures forall k :: 0 <= k < |list| && k != index ==> r[k] == list[k]
  {
    list[index := value]
  }

  /** `list.filter((_, i) => i !== index)`, walking the list from position `at`. */
  function RemoveAt<T>(list: seq<T>, index: int): (r: seq<T>)
    ensures 0 <= index < |list| ==> |r| == |list| - 1
    ensures !(0 <= index < |list|) ==> r == list
  {
    if list == [] then []
    else (if index == 0 then [] else [list[0]]) + RemoveAt(list[1..], index - 1)
  }

  /** Removing drops exactly the entry at `index` and keeps the others in order. */
  lemma {:induction false} RemoveAtSlices<T>(list: seq<T>, index: int)
    requires 0 <= index < |list|
    ensures RemoveAt(list, index) == list[..index] + list[index + 1..]
  {
    if index > 0 {
      RemoveAtSlices(list[1..], index - 1);
      assert list[..index] == [list[0]] + list[1..][..index - 1];
      assert list[index + 1..] == list[1..][index..];
    } else {
      assert list[1..] == RemoveAt(list[1..], -1);
    }
  }

  datatype PetField = NameField | KindField

  /** `updatePet`: one field of one pet. */
  function UpdatePet(pets: seq<Pet>, index: nat, field: PetField, value: string): (r: seq<Pet>)
    requires index < |pets|
    ensures |r| == |pets|
    ensures forall k :: 0 <= k < |pets| && k != index ==> r[k] == pets[k]
    ensures field == NameField ==> r[index] == pets[index].(name := value)
    ensures field == KindField ==> r[index] == pets[index].(kind := value)
  {
    var p := pets[index];
    UpdateAt(pets, index, if field == NameField then p.(name := value) else p.(kind := value))
  }

  /** The form's list edits; Remove is offered only while the list has more than one entry. */
  datatype ListEdit = AddMember | UpdateMember(i: nat, value: string) | RemoveMember(i: nat)
                    | AddPet | UpdatePetField(j: nat, field: PetField, value: string) | RemovePet(j: nat)

  function Edit(data: PersonalData, e: ListEdit): (r: PersonalData)
    ensures |data.familyMembers| >= 1 && |data.pets| >= 1 ==> |r.familyMembers| >= 1 && |r.pets| >= 1
  {
    match e
    case AddMember => data.(familyMembers := Append(data.familyMembers, ""))
    case UpdateMember(i, value) =>
      if i < |data.familyMembers| then data.(familyMembers := UpdateAt(data.familyMembers, i, value)) else data
    case RemoveMember(i) =>
      if |data.familyMembers| > 1 then data.(familyMembers := RemoveAt(data.familyMembers, i)) else data
    case AddPet => data.(pets := Append(data.pets, Pet("", "")))
    case UpdatePetField(j, field, value) =>
      if j < |data.pets| then data.(pets := UpdatePet(data.pets, j, field, value)) else data
    case RemovePet(j) =>
      if |data.pets| > 1 then data.(pets := RemoveAt(data.pets, j)) else data
  }

  const SecureChars: string := "abcdefghijklmnopqrstuvwxyzABCDEFGHIJKLMNOPQRSTUVWXYZ0123456789!@#$%^&*()_+-=[]{}|;:,.<>?"

  /** `generateSecurePassword`: `length` characters, each drawn from the 88-character set. */
  function SecurePassword(length: nat, draws: seq<nat>): (r: string)
    requires |draws| >= length && forall k :: 0 <= k < |draws| ==> draws[k] < |SecureChars|
    ensures |r| == length
    ensures forall k :: 0 <= k < length ==> r[k] in SecureChars
  {
    seq(length, k requires 0 <= k < length => SecureChars[draws[k]])
  }

  /** Every string over the set, of any length, is one the generator can produce. */
  lemma SecureReachable(s: string)
    requires forall k :: 0 <= k < |s| ==> s[k] in SecureChars
    ensures exists draws: seq<nat> ::
      (|draws| == |s| && (forall k :: 0 <= k < |draws| ==> draws[k] < |SecureChars|)
       && SecurePassword(|s|, draws) == s)
  {
    var draws := Positions(SecureChars, s);
    assert SecurePassword(|s|, draws) == s;
  }

  /** Where each character of `s` sits in `chars`. */
  lemma Positions(chars: string, s: string) returns (draws: seq<nat>)
    requires forall k :: 0 <= k < |s| ==> s[k] in chars
    ensures |draws| == |s|
    ensures forall k :: 0 <= k < |s| ==> draws[k] < |chars| && chars[draws[k]] == s[k]
  {
    draws := seq(|s|, k requires 0 <= k < |s| => IndexIn(chars, s[k]));
  }

  /** The position of a character in a string that holds it. */
  function IndexIn(chars: string, c: char): (k: nat)
    requires c in chars
    ensures k < |chars| && chars[k] == c
  {
    if chars[0] == c then 0 else 1 + IndexIn(chars[1..], c)
  }
}
