/** The field validators of simpler/validation.py: `assert_set`,
    `assert_str` with its length and character-class checks, and
    `assert_mail`.  A failed Python `assert` becomes a `Failure` naming the
    field and the check; the request data is a map from field names to
    values. */
module Validation {
  import opened Wrappers
  import opened Strings

  /** A value of the request data: `None`, a string, or anything else. */
  datatype Value = Null | Str(s: string) | Other(tag: int)

  /** The check a field failed. */
  datatype Check =
    | Unset | NotAString
    | TooShort | TooLong
    | NeedsLetter | HasLetter
    | NeedsNumber | HasNumber
    | NeedsWhitespace | HasWhitespace
    | NotMail

  datatype Failed = Failed(name: string, check: Check)

  /** `assert_set(data, name, optional, default)`. */
  function AssertSet(data: map<string, Value>, name: string, optional: bool, default: Value): (r: Result<Value, Failed>)
    ensures name in data ==> r == Success(data[name])
    ensures name !in data && optional ==> r == Success(default)
    ensures name !in data && !optional ==> r == Failure(Failed(name, Unset))
  {
    if optional && name !in data then Success(default)
    else if name !in data then Failure(Failed(name, Unset))
    else Success(data[name])
  }

  // ---------------------------------------------------------------------
  // assert_str

  /** The optional checks of `assert_str` (`None` where not requested);
      `has_symbol` and `has_pattern` are not modelled. */
  datatype StrChecks = StrChecks(
    minLen: Option<int>, maxLen: Option<int>,
    hasLetter: Option<bool>, hasNumber: Option<bool>, hasWhitespace: Option<bool>)

  /** The character classes `[a-z]`, `\d` and `\s` searched for, on ASCII. */
  datatype Class = Lowercase | Digit | Whitespace

  predicate Matches(c: char, cls: Class)
  {
    match cls
    case Lowercase => IsLower(c)
    case Digit => IsDigit(c)
    case Whitespace => IsSpace(c)
  }

  /** `search(cls, s) is not None`. */
  function Search(s: string, cls: Class): (r: bool)
    ensures r <==> exists i :: 0 <= i < |s| && Matches(s[i], cls)
  {
    if s == [] then false
    else if Matches(s[0], cls) then true
    else
      assert forall i :: 1 <= i < |s| ==> s[i] == s[1..][i - 1];
      Search(s[1..], cls)
  }

  /** `search(r'[a-z]', s.lower())` finds exactly the strings with a letter
      of either case. */
  lemma LetterSearch(s: string)
    ensures Search(Lower(s), Lowercase) <==> exists i :: 0 <= i < |s| && (IsUpper(s[i]) || IsLower(s[i]))
  {
    var t := Lower(s);
    if i :| 0 <= i < |s| && (IsUpper(s[i]) || IsLower(s[i])) {
      assert Matches(t[i], Lowercase);
    }
    if i :| 0 <= i < |t| && Matches(t[i], Lowercase) {
      assert IsUpper(s[i]) || IsLower(s[i]);
    }
  }

  /** A requested presence (`True`) or absence (`False`) of a class. */
  function Require(flag: Option<bool>, contains: bool, missing: Check, present: Check): (r: Option<Check>)
    ensures r == Some(missing) <==> flag == Some(true) && !contains
    ensures r == Some(present) <==> flag == Some(false) && contains
    ensures r.None? <==> flag.None? || flag.value == contains
    requires missing != present
  {
    if flag == Some(true) && !contains then Some(missing)
    else if flag == Some(false) && contains then Some(present)
    else None
  }

  ghost predicate HasLetterIn(s: string)
  {
    exists i :: 0 <= i < |s| && (IsUpper(s[i]) || IsLower(s[i]))
  }

  ghost predicate HasDigitIn(s: string)
  {
    exists i :: 0 <= i < |s| && IsDigit(s[i])
  }

  ghost predicate HasSpaceIn(s: string)
  {
    exists i :: 0 <= i < |s| && IsSpace(s[i])
  }

  /** The string `s` fails check `c`. */
  ghost predicate Violates(s: string, checks: StrChecks, c: Check)
  {
    match c
    case TooShort => checks.minLen.Some? && |s| < checks.minLen.value
    case TooLong => checks.maxLen.Some? && |s| > checks.maxLen.value
    case NeedsLetter => checks.hasLetter == Some(true) && !HasLetterIn(s)
    case HasLetter => checks.hasLetter == Some(false) && HasLetterIn(s)
    case NeedsNumber => checks.hasNumber == Some(true) && !HasDigitIn(s)
    case HasNumber => checks.hasNumber == Some(false) && HasDigitIn(s)
    case NeedsWhitespace => checks.hasWhitespace == Some(true) && !HasSpaceIn(s)
    case HasWhitespace => checks.hasWhitespace == Some(false) && HasSpaceIn(s)
    case _ => false
  }

  /** The place of a check in the order `assert_str` runs them. */
  function Rank(c: Check): nat
  {
    match c
    case TooShort => 1
    case TooLong => 2
    case NeedsLetter => 3
    case HasLetter => 3
    case NeedsNumber => 4
    case HasNumber => 4
    case NeedsWhitespace => 5
    case HasWhitespace => 5
    case _ => 0
  }

  /** The first requested check a string fails, if any.  It is a check the
      string violates, no check `assert_str` runs earlier is violated, and
      there is none exactly when every check passes. */
  function FirstFailure(s: string, checks: StrChecks): (r: Option<Check>)
    ensures r.None? <==> forall c :: !Violates(s, checks, c)
    ensures r.Some? ==> Violates(s, checks, r.value)
    ensures r.Some? ==> forall c :: Violates(s, checks, c) ==> Rank(r.value) <= Rank(c)
  {
    RankedViolations(s, checks);
    FirstFrom(s, checks, 1)
  }

  /** Only the checks `assert_str` runs can be violated, and each has a
      place in its order. */
  lemma RankedViolations(s: string, checks: StrChecks)
    ensures forall c :: Violates(s, checks, c) ==> 1 <= Rank(c) <= 5
  {
  }

  /** The first check of place `k` or later that the string fails. */
  function FirstFrom(s: string, checks: StrChecks, k: nat): (r: Option<Check>)
    requires 1 <= k <= 6
    decreases 6 - k
    ensures r.None? <==> forall c :: Violates(s, checks, c) ==> Rank(c) < k
    ensures r.Some? ==> Violates(s, checks, r.value) && k <= Rank(r.value)
    ensures r.Some? ==> forall c :: Violates(s, checks, c) && k <= Rank(c) ==> Rank(r.value) <= Rank(c)
  {
    if k == 6 then
      RankedViolations(s, checks);
      None
    else
      var f := StageFailure(s, checks, k);
      if f.Some? then f else FirstFrom(s, checks, k + 1)
  }

  /** The check of place `k` that the string fails, if any. */
  function StageFailure(s: string, checks: StrChecks, k: nat): (r: Option<Check>)
    requires 1 <= k <= 5
    ensures r.Some? ==> Violates(s, checks, r.value) && Rank(r.value) == k
    ensures r.None? ==> forall c :: Rank(c) == k ==> !Violates(s, checks, c)
  {
    if k == 1 then
      if checks.minLen.Some? && |s| < checks.minLen.value then Some(TooShort) else None
    else if k == 2 then
      if checks.maxLen.Some? && |s| > checks.maxLen.value then Some(TooLong) else None
    else if k == 3 then
      LetterSearch(s);
      Require(checks.hasLetter, Search(Lower(s), Lowercase), NeedsLetter, HasLetter)
    else if k == 4 then
      Require(checks.hasNumber, Search(s, Digit), NeedsNumber, HasNumber)
    else
      Require(checks.hasWhitespace, Search(s, Whitespace), NeedsWhitespace, HasWhitespace)
  }

  /** Every requested check passes. */
  ghost predicate Passes(s: string, checks: StrChecks)
  {
    (checks.minLen.Some? ==> |s| >= checks.minLen.value)
    && (checks.maxLen.Some? ==> |s| <= checks.maxLen.value)
    && (checks.hasLetter.Some? ==> checks.hasLetter.value == HasLetterIn(s))
    && (checks.hasNumber.Some? ==> checks.hasNumber.value == HasDigitIn(s))
    && (checks.hasWhitespace.Some? ==> checks.hasWhitespace.value == HasSpaceIn(s))
  }

  lemma PassesNoViolation(s: string, checks: StrChecks)
    ensures Passes(s, checks) <==> forall c :: !Violates(s, checks, c)
  {
    if !Passes(s, checks) {
      if checks.minLen.Some? && |s| < checks.minLen.value {
        assert Violates(s, checks, TooShort);
      } else if checks.maxLen.Some? && |s| > checks.maxLen.value {
        assert Violates(s, checks, TooLong);
      } else if checks.hasLetter.Some? && checks.hasLetter.value != HasLetterIn(s) {
        assert Violates(s, checks, NeedsLetter) || Violates(s, checks, HasLetter);
      } else if checks.hasNumber.Some? && checks.hasNumber.value != HasDigitIn(s) {
        assert Violates(s, checks, NeedsNumber) || Violates(s, checks, HasNumber);
      } else {
        assert Violates(s, checks, NeedsWhitespace) || Violates(s, checks, HasWhitespace);
      }
    }
  }

  /** `assert_str(data, name, optional, ..., default)`: the default for an
      optional absent field, the field unchanged when it is a string
      passing every requested check, and otherwise the first failed check. */
  function AssertStr(data: map<string, Value>, name: string, optional: bool, checks: StrChecks, default: Value): (r: Result<Value, Failed>)
    ensures r.Success? <==> (optional && name !in data) || (name in data && data[name].Str? && Passes(data[name].s, checks))
    ensures r.Success? ==> r.value == if name in data then data[name] else default
    ensures r.Failure? ==> r.error.name == name
    ensures name !in data && !optional ==> r == Failure(Failed(name, Unset))
    ensures name in data && !data[name].Str? ==> r == Failure(Failed(name, NotAString))
  {
    if optional && name !in data then Success(default)
    else if name !in data then Failure(Failed(name, Unset))
    else
      match data[name]
      case Str(s) =>
        PassesNoViolation(s, checks);
        (match FirstFailure(s, checks)
         case None => Success(data[name])
         case Some(c) => Failure(Failed(name, c)))
      case _ => Failure(Failed(name, NotAString))
  }

  /** Whatever `assert_str` accepts, `assert_set` accepts with the same
      value. */
  lemma AssertStrSet(data: map<string, Value>, name: string, optional: bool, checks: StrChecks, default: Value)
    requires AssertStr(data, name, optional, checks, default).Success?
    ensures AssertSet(data, name, optional, default) == AssertStr(data, name, optional, checks, default)
  {
  }

  // ---------------------------------------------------------------------
  // assert_mail

  /** `[^\s@]`. */
  predicate MailChar(c: char)
  {
    !IsSpace(c) && c != '@'
  }

  /** The end of the run of `[^\s@]` characters from `i`. */
  function MailRun(s: string, i: nat): (r: nat)
    requires i <= |s|
    ensures i <= r <= |s|
    ensures forall k :: i <= k < r ==> MailChar(s[k])
    ensures r < |s| ==> !MailChar(s[r])
    decreases |s| - i
  {
    if i < |s| && MailChar(s[i]) then MailRun(s, i + 1) else i
  }

  lemma {:induction false} MailRunStops(s: string, i: nat, j: nat)
    requires i <= j < |s| && !MailChar(s[j])
    requires forall k :: i <= k < j ==> MailChar(s[k])
    ensures MailRun(s, i) == j
    decreases j - i
  {
    if i < j {
      MailRunStops(s, i + 1, j);
    }
  }

  lemma {:induction false} MailRunReaches(s: string, i: nat, j: nat)
    requires i <= j <= |s|
    requires forall k :: i <= k < j ==> MailChar(s[k])
    ensures MailRun(s, i) >= j
    decreases j - i
  {
    if i < j {
      MailRunReaches(s, i + 1, j);
    }
  }

  /** Whether some `s[k]` with `lo <= k < hi` is a dot. */
  function DotIn(s: string, lo: nat, hi: nat): (r: bool)
    requires hi <= |s|
    ensures r <==> exists k :: lo <= k < hi && s[k] == '.'
    decreases hi - lo
  {
    if lo >= hi then false else s[lo] == '.' || DotIn(s, lo + 1, hi)
  }

  /** `match(r'[^\s@]+@[^\s@]+\.[^\s@]+', s)`: the user part is the whole
      first run, which the `@` must follow; the domain is the run after it,
      and it needs a dot with a character of the run on each side. */
  function MailMatch(s: string): bool
  {
    var a := MailRun(s, 0);
    1 <= a < |s| && s[a] == '@'
      && var e := MailRun(s, a + 1);
      e >= a + 4 && DotIn(s, a + 2, e - 1)
  }

  /** The text the pattern asks for, with `@` at `a`, the dot at `d` and the
      match ending at `e`. */
  ghost predicate MailAt(s: string, a: nat, d: nat, e: nat)
  {
    0 < a && a + 1 < d && d + 1 < e <= |s| && s[a] == '@' && s[d] == '.'
    && (forall k :: 0 <= k < a ==> MailChar(s[k]))
    && (forall k :: a < k < d ==> MailChar(s[k]))
    && (forall k :: d < k < e ==> MailChar(s[k]))
  }

  /** The pattern matches at the start of `s`. */
  ghost predicate MailShape(s: string)
  {
    exists a: nat, d: nat, e: nat :: MailAt(s, a, d, e)
  }

  /** The deterministic matcher accepts exactly the strings that start with
      the shape the pattern describes. */
  lemma MailMatchShape(s: string)
    ensures MailMatch(s) <==> MailShape(s)
  {
    if MailMatch(s) {
      MailMatchSound(s);
    }
    if MailShape(s) {
      MailMatchComplete(s);
    }
  }

  lemma MailMatchSound(s: string)
    requires MailMatch(s)
    ensures MailShape(s)
  {
    var a := MailRun(s, 0);
    var e := MailRun(s, a + 1);
    var d :| a + 2 <= d < e - 1 && s[d] == '.';
    assert MailAt(s, a, d, d + 2);
  }

  lemma MailMatchComplete(s: string)
    requires MailShape(s)
    ensures MailMatch(s)
  {
    var a: nat, d: nat, e: nat :| MailAt(s, a, d, e);
    MailRunStops(s, 0, a);
    assert MailChar(s[d]);
    MailRunReaches(s, a + 1, e);
    var b := MailRun(s, a + 1);
    assert DotIn(s, a + 2, b - 1);
  }

  /** `assert_mail(data, name, optional, default)`.  A value that is not a
      string makes `match` raise. */
  function AssertMail(data: map<string, Value>, name: string, optional: bool, default: Value): (r: Result<Value, Failed>)
    ensures r.Success? <==> (optional && name !in data) || (name in data && data[name].Str? && MailShape(data[name].s))
    ensures r.Success? ==> r.value == if name in data then data[name] else default
    ensures name in data && data[name].Str? && !MailShape(data[name].s) ==> r == Failure(Failed(name, NotMail))
  {
    if optional && name !in data then Success(default)
    else if name !in data then Failure(Failed(name, Unset))
    else
      match data[name]
      case Str(s) =>
        MailMatchShape(s);
        if MailMatch(s) then Success(data[name]) else Failure(Failed(name, NotMail))
      case _ => Failure(Failed(name, NotAString))
  }

  /** Text after the address does not matter: the pattern is anchored at
      the start only. */
  lemma MailTrailing(s: string, tail: string)
    requires MailShape(s)
    ensures MailShape(s + tail)
  {
    var a: nat, d: nat, e: nat :| MailAt(s, a, d, e);
    assert MailAt(s + tail, a, d, e);
  }

  lemma MailExamples()
    ensures MailShape("a@b.c")
    ensures !MailShape("a@b")
    ensures !MailShape("@b.c")
    ensures MailShape("a@b.c d")
  {
    MailMatchShape("a@b.c");
    MailMatchShape("a@b");
    MailMatchShape("@b.c");
    MailMatchShape("a@b.c d");
    assert MailRun("a@b.c", 0) == 1;
    assert MailRun("a@b.c", 2) == 5;
    assert MailRun("a@b", 0) == 1;
    assert MailRun("a@b", 2) == 3;
    assert MailRun("@b.c", 0) == 0;
    assert MailRun("a@b.c d", 0) == 1;
    assert MailRun("a@b.c d", 2) == 5;
  }
}
