/** The cell-code arithmetic of the `Excel` class of
    `simpler/connectors.py`: a column code such as `ABC` read as a number in
    bijective base 26, and a range code such as `A4:B5` read as zero-based
    block delimiters.  Digits are the ASCII digits. */
module Excel {

  import opened Wrappers
  import opened Strings

  /** `assert match` failed; `_LETTERS.index` raised `ValueError`;
      `int(None)` raised `TypeError` for a range without an end. */
  datatype ExcelError = InvalidRange | NotALetter | MissingEnd

  /** `_LETTERS.index(c)`: the position of `c` in `ABC…Z`. */
  function LetterIndex(c: char): (r: Option<nat>)
    ensures r.Some? <==> IsUpper(c)
    ensures r.Some? ==> r.value < 26 && c == ('A' as int + r.value) as char
  {
    if IsUpper(c) then Some(c as int - 'A' as int) else None
  }

  /** The value `index_from_code` accumulates over `code`, or the error of
      its first letter outside `ABC…Z`. */
  function Index(code: string): (r: Result<nat, ExcelError>)
    ensures r.Success? <==> forall i :: 0 <= i < |code| ==> IsUpper(code[i])
    ensures r.Failure? ==> r.error == NotALetter
  {
    if code == [] then Success(0)
    else
      match Index(code[..|code| - 1])
      case Failure(e) => Failure(e)
      case Success(v) =>
        match LetterIndex(code[|code| - 1])
        case None => Failure(NotALetter)
        case Some(p) => Success(v * 26 + p + 1)
  }

  /** `index_from_code(code)`. */
  method IndexFromCode(code: string) returns (r: Result<nat, ExcelError>)
    ensures r == Index(code)
  {
    var res := 0;
    for i := 0 to |code|
      invariant Index(code[..i]) == Success(res)
    {
      assert code[..i + 1][..i] == code[..i];
      match LetterIndex(code[i]) {
        case None =>
          assert code[..i + 1][i] == code[i];
          Prefix(code, i + 1);
          return Failure(NotALetter);
        case Some(p) =>
          res := res * 26 + p + 1;
      }
    }
    assert code[..|code|] == code;
    return Success(res);
  }

  /** A code with a bad letter in its first `n` characters is bad. */
  lemma Prefix(code: string, n: nat)
    requires n <= |code| && Index(code[..n]).Failure?
    ensures Index(code).Failure?
  {
    var i :| 0 <= i < n && !IsUpper(code[..n][i]);
    assert code[i] == code[..n][i];
  }

  /** The column code of a positive index: the inverse of `Index`. */
  function Code(n: nat): (code: string)
    ensures forall i :: 0 <= i < |code| ==> IsUpper(code[i])
  {
    if n == 0 then [] else Code((n - 1) / 26) + [('A' as int + (n - 1) % 26) as char]
  }

  /** Every index has exactly one code: reading the code back gives it. */
  lemma {:induction false} IndexOfCode(n: nat)
    ensures Index(Code(n)) == Success(n)
  {
    if n > 0 {
      var c := Code(n);
      IndexOfCode((n - 1) / 26);
      assert c[..|c| - 1] == Code((n - 1) / 26);
      assert LetterIndex(c[|c| - 1]) == Some((n - 1) % 26);
    }
  }

  /** ... and every code of capitals is the code of its index. */
  lemma {:induction false} CodeOfIndex(code: string)
    requires forall i :: 0 <= i < |code| ==> IsUpper(code[i])
    ensures Code(Index(code).value) == code
  {
    if code != [] {
      var init, last := code[..|code| - 1], code[|code| - 1];
      CodeOfIndex(init);
      var v, p := Index(init).value, LetterIndex(last).value;
      assert Index(code).value == v * 26 + p + 1;
      assert (v * 26 + p) / 26 == v && (v * 26 + p) % 26 == p;
      assert code == init + [last];
    }
  }

  /** The examples of the documentation and of the column names. */
  lemma IndexExamples()
    ensures Index("A") == Success(1) && Index("Z") == Success(26)
    ensures Index("AA") == Success(27) && Index("ABC") == Success(731)
  {
    assert "ABC"[..2] == "AB" && "AB"[..1] == "A" && "AA"[..1] == "A";
  }

  // ---------------------------------------------------------------------
  // block_from_code

  /** `[a-z]` under `IGNORECASE`, on ASCII. */
  predicate IsLetter(c: char)
  {
    IsUpper(c) || IsLower(c)
  }

  /** The character class of a run: letters, or else digits. */
  predicate InClass(c: char, letters: bool)
  {
    if letters then IsLetter(c) else IsDigit(c)
  }

  /** The end of the longest run of characters of a class in `s` from `i`
      on. */
  function RunEnd(s: string, i: nat, letters: bool): (j: nat)
    requires i <= |s|
    ensures i <= j <= |s| && (forall k :: i <= k < j ==> InClass(s[k], letters)) && (j < |s| ==> !InClass(s[j], letters))
    decreases |s| - i
  {
    if i < |s| && InClass(s[i], letters) then RunEnd(s, i + 1, letters) else i
  }

  /** The groups of a match of `_RANGE`. */
  datatype RangeMatch = RangeMatch(startCol: string, startRow: string, end: Option<(string, string)>)

  /** `_RANGE(code)`: letters then digits at the start of the code,
      optionally followed by `:`, letters and digits; anything may follow.
      The runs are maximal because each is followed by a character of
      another class, so backtracking never shortens them. */
  function MatchRange(code: string): Option<RangeMatch>
  {
    var a := RunEnd(code, 0, true);
    var b := RunEnd(code, a, false);
    if a == 0 || b == a then None
    else
      var end :=
        if b < |code| && code[b] == ':' then
          var c := RunEnd(code, b + 1, true);
          var d := RunEnd(code, c, false);
          if c == b + 1 || d == c then None else Some((code[b + 1..c], code[c..d]))
        else None;
      Some(RangeMatch(code[..a], code[a..b], end))
  }

  /** All of `s[i..j]` belongs to the class. */
  ghost predicate All(s: string, i: int, j: int, letters: bool)
    requires 0 <= i <= j <= |s|
  {
    forall k :: i <= k < j ==> InClass(s[k], letters)
  }

  /** The pattern matches exactly when the code starts with at least one
      letter followed by at least one digit. */
  lemma MatchRangeFails(code: string)
    ensures MatchRange(code).None? <==>
      !exists a, b :: 0 < a < b <= |code| && All(code, 0, a, true) && All(code, a, b, false)
  {
    var a := RunEnd(code, 0, true);
    var b := RunEnd(code, a, false);
    if MatchRange(code).Some? {
      assert All(code, 0, a, true) && All(code, a, b, false);
    } else {
      forall a', b' | 0 < a' < b' <= |code| && All(code, 0, a', true)
        ensures !All(code, a', b', false)
      {
        if a' < a {
          assert IsLetter(code[a']) && !IsDigit(code[a']);
        } else if a' > a {
          assert false;
        } else {
          assert !IsDigit(code[a]);
        }
      }
    }
  }

  /** `int(s)` for a string of ASCII digits. */
  function Decimal(s: string): nat
  {
    if s == [] then 0 else Decimal(s[..|s| - 1]) * 10 + (s[|s| - 1] as int - '0' as int) % 10
  }

  /** `block_from_code(code)`; the four parts are evaluated in the order
      of the tuple, so a bad start column is reported before a missing
      end. */
  function BlockFromCode(code: string): Result<(int, int, int, int), ExcelError>
  {
    match MatchRange(code)
    case None => Failure(InvalidRange)
    case Some(m) => BlockFromGroups(m)
  }

  /** The conversion of the groups of a match into the block tuple. */
  function BlockFromGroups(m: RangeMatch): Result<(int, int, int, int), ExcelError>
  {
    var start := Index(m.startCol);
    if start.Failure? then Failure(start.error)
    else if m.end.None? then Failure(MissingEnd)
    else
      var end := Index(m.end.value.0);
      if end.Failure? then Failure(end.error)
      else Success((Decimal(m.startRow) - 1, start.value - 1, Decimal(m.end.value.1), end.value))
  }

  /** The example of the documentation. */
  lemma BlockExample()
    ensures BlockFromCode("A4:B5") == Success((3, 0, 5, 2))
  {
    var code := "A4:B5";
    assert RunEnd(code, 0, true) == 1;
    assert RunEnd(code, 1, false) == 2;
    assert RunEnd(code, 3, true) == 4;
    assert RunEnd(code, 4, false) == 5;
    assert code[..1] == "A" && code[1..2] == "4" && code[3..4] == "B" && code[4..5] == "5";
    MatchFromRuns(code, 1, 2, 4, 5, "A", "4", "B", "5");
    SingleLetter('A');
    SingleLetter('B');
    BlockFromMatch(code, "A", "4", "B", "5", 1, 2);
    SingleDigit('4');
    SingleDigit('5');
  }

  lemma SingleLetter(c: char)
    requires IsUpper(c)
    ensures Index([c]) == Success(c as int - 'A' as int + 1)
  {
    assert [c][..0] == [];
  }

  lemma SingleDigit(c: char)
    requires '0' <= c <= '9'
    ensures Decimal([c]) == c as int - '0' as int
  {
    assert [c][..0] == [];
  }

  /** The decimal digits of `n`, as `str(n)` writes them. */
  function Digits(n: nat): (s: string)
    ensures s != [] && forall i :: 0 <= i < |s| ==> IsDigit(s[i])
  {
    if n < 10 then [('0' as int + n) as char] else Digits(n / 10) + [('0' as int + n % 10) as char]
  }

  lemma {:induction false} DecimalOfDigits(n: nat)
    ensures Decimal(Digits(n)) == n
  {
    var s := Digits(n);
    if n >= 10 {
      DecimalOfDigits(n / 10);
      assert s[..|s| - 1] == Digits(n / 10);
    } else {
      assert s[..0] == [];
    }
  }

  /** The longest run of a class ends where the class does. */
  lemma RunOver(s: string, i: nat, j: nat, letters: bool)
    requires i <= j <= |s| && (forall k :: i <= k < j ==> InClass(s[k], letters)) && (j < |s| ==> !InClass(s[j], letters))
    ensures RunEnd(s, i, letters) == j
    decreases j - i
  {
    if i < j {
      RunOver(s, i + 1, j, letters);
    }
  }

  /** The text a code written from its parts: its class runs. */
  ghost predicate Parts(x1: string, y1: string, x2: string, y2: string, rest: string)
  {
    x1 != [] && (forall k :: 0 <= k < |x1| ==> IsUpper(x1[k]))
    && y1 != [] && (forall k :: 0 <= k < |y1| ==> IsDigit(y1[k]))
    && x2 != [] && (forall k :: 0 <= k < |x2| ==> IsUpper(x2[k]))
    && y2 != [] && (forall k :: 0 <= k < |y2| ==> IsDigit(y2[k]))
    && (rest != [] ==> !IsDigit(rest[0]))
  }

  /** A run that reaches the end of `s` stops there when `s` is followed by
      a character of another class. */
  lemma RunAppend(s: string, t: string, i: nat, letters: bool)
    requires i <= |s| && forall k :: i <= k < |s| ==> InClass(s[k], letters)
    requires t != [] ==> !InClass(t[0], letters)
    ensures RunEnd(s + t, i, letters) == |s|
  {
    forall k | i <= k < |s|
      ensures InClass((s + t)[k], letters)
    {
      assert (s + t)[k] == s[k];
    }
    if t != [] {
      assert (s + t)[|s|] == t[0];
    }
    RunOver(s + t, i, |s|, letters);
  }

  /** A run that stops inside `s` stops at the same place whatever follows
      `s`. */
  lemma RunPrefix(s: string, t: string, i: nat, letters: bool)
    requires i <= |s| && RunEnd(s, i, letters) < |s|
    ensures RunEnd(s + t, i, letters) == RunEnd(s, i, letters)
  {
    var j := RunEnd(s, i, letters);
    forall k | i <= k < j
      ensures InClass((s + t)[k], letters)
    {
      assert (s + t)[k] == s[k];
    }
    assert (s + t)[j] == s[j];
    RunOver(s + t, i, j, letters);
  }

  lemma StartRuns(x1: string, y1: string, x2: string, y2: string, rest: string, code: string)
    requires Parts(x1, y1, x2, y2, rest) && code == x1 + y1 + ":" + x2 + y2 + rest
    ensures RunEnd(code, 0, true) == |x1| && RunEnd(code, |x1|, false) == |x1| + |y1|
  {
    var p1 := x1 + y1;
    var p2 := p1 + ":";
    var p3 := p2 + x2;
    var p4 := p3 + y2;
    RunAppend(x1, y1, 0, true);
    RunPrefix(p1, ":", 0, true);
    RunPrefix(p2, x2, 0, true);
    RunPrefix(p3, y2, 0, true);
    RunPrefix(p4, rest, 0, true);
    forall k | |x1| <= k < |p1|
      ensures InClass(p1[k], false)
    {
      assert p1[k] == y1[k - |x1|];
    }
    RunAppend(p1, ":", |x1|, false);
    RunPrefix(p2, x2, |x1|, false);
    RunPrefix(p3, y2, |x1|, false);
    RunPrefix(p4, rest, |x1|, false);
  }

  /** Appending a stretch of one class keeps that class over the new
      positions. */
  lemma ClassTail(s: string, t: string, letters: bool)
    requires forall k :: 0 <= k < |t| ==> InClass(t[k], letters)
    ensures forall k :: |s| <= k < |s + t| ==> InClass((s + t)[k], letters)
  {
    forall k | |s| <= k < |s + t|
      ensures InClass((s + t)[k], letters)
    {
      assert (s + t)[k] == t[k - |s|];
    }
  }

  /** The runs of the end part, whatever comes before it. */
  lemma TailRuns(p: string, x2: string, y2: string, rest: string)
    requires x2 != [] && forall k :: 0 <= k < |x2| ==> InClass(x2[k], true)
    requires y2 != [] && forall k :: 0 <= k < |y2| ==> InClass(y2[k], false)
    requires rest != [] ==> !IsDigit(rest[0])
    ensures RunEnd(p + x2 + y2 + rest, |p|, true) == |p| + |x2|
    ensures RunEnd(p + x2 + y2 + rest, |p| + |x2|, false) == |p| + |x2| + |y2|
  {
    var p3 := p + x2;
    var p4 := p3 + y2;
    ClassTail(p, x2, true);
    RunAppend(p3, y2, |p|, true);
    RunPrefix(p4, rest, |p|, true);
    ClassTail(p3, y2, false);
    RunAppend(p4, rest, |p3|, false);
  }

  lemma EndRuns(x1: string, y1: string, x2: string, y2: string, rest: string, code: string, b: nat)
    requires Parts(x1, y1, x2, y2, rest) && code == x1 + y1 + ":" + x2 + y2 + rest && b == |x1| + |y1|
    ensures RunEnd(code, b + 1, true) == b + 1 + |x2| && RunEnd(code, b + 1 + |x2|, false) == b + 1 + |x2| + |y2|
  {
    assert forall k :: 0 <= k < |x2| ==> InClass(x2[k], true);
    assert forall k :: 0 <= k < |y2| ==> InClass(y2[k], false);
    TailRuns(x1 + y1 + ":", x2, y2, rest);
  }

  /** Where the four parts sit in the code written from them. */
  lemma PartSlices(x1: string, y1: string, x2: string, y2: string, rest: string, code: string, a: nat, b: nat, c: nat, d: nat)
    requires code == x1 + y1 + ":" + x2 + y2 + rest
    requires a == |x1| && b == a + |y1| && c == b + 1 + |x2| && d == c + |y2|
    ensures d <= |code| && code[b] == ':'
      && code[..a] == x1 && code[a..b] == y1 && code[b + 1..c] == x2 && code[c..d] == y2
  {
  }

  /** A code written from its four parts matches with those parts as its
      groups. */
  lemma MatchParts(x1: string, y1: string, x2: string, y2: string, rest: string)
    requires Parts(x1, y1, x2, y2, rest)
    ensures MatchRange(x1 + y1 + ":" + x2 + y2 + rest) == Some(RangeMatch(x1, y1, Some((x2, y2))))
  {
    var code := x1 + y1 + ":" + x2 + y2 + rest;
    var a, b := |x1|, |x1| + |y1|;
    var c, d := b + 1 + |x2|, b + 1 + |x2| + |y2|;
    StartRuns(x1, y1, x2, y2, rest, code);
    EndRuns(x1, y1, x2, y2, rest, code, b);
    PartSlices(x1, y1, x2, y2, rest, code, a, b, c, d);
    MatchFromRuns(code, a, b, c, d, x1, y1, x2, y2);
  }

  /** The groups of a match, from the ends of its four runs. */
  lemma MatchFromRuns(code: string, a: nat, b: nat, c: nat, d: nat, x1: string, y1: string, x2: string, y2: string)
    requires 0 < a < b < c < d <= |code| && code[b] == ':' && b + 1 < c
    requires RunEnd(code, 0, true) == a && RunEnd(code, a, false) == b
    requires RunEnd(code, b + 1, true) == c && RunEnd(code, c, false) == d
    requires code[..a] == x1 && code[a..b] == y1 && code[b + 1..c] == x2 && code[c..d] == y2
    ensures MatchRange(code) == Some(RangeMatch(x1, y1, Some((x2, y2))))
  {
    assert a != 0 && b != a && b < |code| && code[b] == ':';
    assert c != b + 1 && d != c;
  }

  /** What `block_from_code` makes of a match whose groups all convert. */
  lemma BlockFromMatch(code: string, x1: string, y1: string, x2: string, y2: string, c1: nat, c2: nat)
    requires MatchRange(code) == Some(RangeMatch(x1, y1, Some((x2, y2))))
    requires Index(x1) == Success(c1) && Index(x2) == Success(c2)
    ensures BlockFromCode(code) == Success((Decimal(y1) - 1, c1 - 1, Decimal(y2), c2))
  {
    GroupsConvert(x1, y1, x2, y2, c1, c2);
  }

  lemma GroupsConvert(x1: string, y1: string, x2: string, y2: string, c1: nat, c2: nat)
    requires Index(x1) == Success(c1) && Index(x2) == Success(c2)
    ensures BlockFromGroups(RangeMatch(x1, y1, Some((x2, y2)))) == Success((Decimal(y1) - 1, c1 - 1, Decimal(y2), c2))
  {
  }

  /** Writing a block as a range code and reading it back gives the block:
      columns `c1`, `c2` from 1 and rows `r1`, `r2` as written, followed by
      anything that does not start with a digit. */
  lemma BlockRoundTrip(c1: nat, r1: nat, c2: nat, r2: nat, rest: string)
    requires c1 >= 1 && c2 >= 1
    requires rest != [] ==> !IsDigit(rest[0])
    ensures BlockFromCode(Code(c1) + Digits(r1) + ":" + Code(c2) + Digits(r2) + rest)
      == Success((r1 - 1, c1 - 1, r2, c2))
  {
    var x1, y1, x2, y2 := Code(c1), Digits(r1), Code(c2), Digits(r2);
    IndexOfCode(c1);
    IndexOfCode(c2);
    assert x1 != [] && x2 != [];
    assert Parts(x1, y1, x2, y2, rest);
    MatchParts(x1, y1, x2, y2, rest);
    DecimalOfDigits(r1);
    DecimalOfDigits(r2);
    BlockFromMatch(x1 + y1 + ":" + x2 + y2 + rest, x1, y1, x2, y2, c1, c2);
  }

  /** A range without an end part, such as `A4`, matches but fails when
      the missing end row is converted. */
  lemma BlockWithoutEnd()
    ensures BlockFromCode("A4") == Failure(MissingEnd)
  {
    assert RunEnd("A4", 0, true) == 1;
    assert RunEnd("A4", 1, false) == 2;
  }

  /** The pattern ignores case but the letter lookup does not: a lower-case
      column matches and then fails. */
  lemma BlockLowerCase()
    ensures BlockFromCode("a4:b5") == Failure(NotALetter)
  {
    assert RunEnd("a4:b5", 0, true) == 1;
    assert RunEnd("a4:b5", 1, false) == 2;
    assert "a4:b5"[..1] == "a";
  }
}
