/** The `str` methods the modelled code calls, over `seq<char>` (and, where
    the shape is the same, over any sequence): `strip`, `split`, `join`,
    `startswith`, `endswith` and `lower`.  Character classes are those of
    ASCII; the non-ASCII whitespace and letters Python also knows are not
    modelled. */
module Strings {

  /** `c.isspace()` on ASCII: tab, line feed, vertical tab, form feed,
      carriage return, the four separators `\x1c`-`\x1f` and space. */
  predicate IsSpace(c: char)
  {
    9 <= c as int <= 13 || 28 <= c as int <= 32
  }

  predicate IsUpper(c: char)
  {
    'A' <= c <= 'Z'
  }

  predicate IsLower(c: char)
  {
    'a' <= c <= 'z'
  }

  predicate IsDigit(c: char)
  {
    '0' <= c <= '9'
  }

  /** `c.lower()` on ASCII. */
  function LowerChar(c: char): (r: char)
    ensures IsUpper(c) ==> IsLower(r)
    ensures !IsUpper(c) ==> r == c
  {
    if IsUpper(c) then (c as int - 'A' as int + 'a' as int) as char else c
  }

  /** `s.lower()` on ASCII. */
  function Lower(s: string): (r: string)
    ensures |r| == |s| && forall i :: 0 <= i < |s| ==> r[i] == LowerChar(s[i])
  {
    seq(|s|, i requires 0 <= i < |s| => LowerChar(s[i]))
  }

  /** `s.lstrip(...)`: drop the leading elements `drop` accepts. */
  function LStrip<T>(s: seq<T>, drop: T -> bool): (r: seq<T>)
    ensures |r| <= |s| && r == s[|s| - |r|..]
    ensures forall k :: 0 <= k < |s| - |r| ==> drop(s[k])
    ensures r != [] ==> !drop(r[0])
  {
    if s != [] && drop(s[0]) then LStrip(s[1..], drop) else s
  }

  /** `s.rstrip(...)`: drop the trailing elements `drop` accepts. */
  function RStrip<T>(s: seq<T>, drop: T -> bool): (r: seq<T>)
    ensures |r| <= |s| && r == s[..|r|]
    ensures forall k :: |r| <= k < |s| ==> drop(s[k])
    ensures r != [] ==> !drop(r[|r| - 1])
  {
    if s != [] && drop(s[|s| - 1]) then RStrip(s[..|s| - 1], drop) else s
  }

  /** `s.strip(...)`. */
  function Strip<T>(s: seq<T>, drop: T -> bool): seq<T>
  {
    RStrip(LStrip(s, drop), drop)
  }

  /** What `strip` leaves: a stretch `s[i..j]` of `s` with only dropped
      elements before and after it, and kept elements at both of its ends. */
  lemma StripSlice<T>(s: seq<T>, drop: T -> bool) returns (i: nat, j: nat)
    ensures i <= j <= |s| && Strip(s, drop) == s[i..j]
    ensures forall k :: 0 <= k < i ==> drop(s[k])
    ensures forall k :: j <= k < |s| ==> drop(s[k])
    ensures i < j ==> !drop(s[i]) && !drop(s[j - 1])
  {
    var l := LStrip(s, drop);
    i := |s| - |l|;
    var n := |RStrip(l, drop)|;
    j := i + n;
    assert l == s[i..];
    RStripSlice(s, drop, i, n);
    assert Strip(s, drop) == RStrip(l, drop);
    if i < j {
      assert s[i] == l[0];
    }
  }

  /** The right-hand half of `StripSlice`, for `l == s[i..]`. */
  lemma RStripSlice<T>(s: seq<T>, drop: T -> bool, i: nat, n: nat)
    requires i <= |s| && n == |RStrip(s[i..], drop)|
    ensures i + n <= |s| && RStrip(s[i..], drop) == s[i..i + n]
    ensures forall k :: i + n <= k < |s| ==> drop(s[k])
    ensures 0 < n ==> !drop(s[i + n - 1])
  {
    var l := s[i..];
    var r := RStrip(l, drop);
    assert r == l[..n];
    forall k | i + n <= k < |s|
      ensures drop(s[k])
    {
      assert s[k] == l[k - i];
    }
    if 0 < n {
      assert s[i + n - 1] == r[n - 1];
    }
  }

  /** Stripping removes nothing more the second time. */
  lemma StripIdempotent<T>(s: seq<T>, drop: T -> bool)
    ensures Strip(Strip(s, drop), drop) == Strip(s, drop)
  {
    var t := Strip(s, drop);
    if t != [] {
      assert LStrip(t, drop) == t;
    }
  }

  /** `s.strip()`: surrounding whitespace removed. */
  function Trim(s: string): string
  {
    Strip(s, IsSpace)
  }

  /** `s.strip(chars)`: the characters of `chars` removed from both ends,
      whatever their order. */
  function StripChars(s: string, chars: set<char>): string
  {
    Strip(s, (c: char) => c in chars)
  }

  /** `sep.join(pieces)`. */
  function Join(pieces: seq<string>, sep: string): string
  {
    if pieces == [] then []
    else if |pieces| == 1 then pieces[0]
    else pieces[0] + sep + Join(pieces[1..], sep)
  }

  /** `''.join(pieces)`. */
  function Concat(pieces: seq<string>): (r: string)
    ensures r == Join(pieces, [])
  {
    if pieces == [] then [] else pieces[0] + Concat(pieces[1..])
  }

  /** `s.split(sep)` for a one-character separator. */
  function Split(s: string, sep: char): (r: seq<string>)
    ensures |r| >= 1
  {
    if s == [] then [[]]
    else
      var rest := Split(s[1..], sep);
      if s[0] == sep then [[]] + rest else [[s[0]] + rest[0]] + rest[1..]
  }

  /** `split` cuts exactly at the separators: no piece holds one, and
      joining the pieces with it gives the string back. */
  lemma {:induction false} SplitJoin(s: string, sep: char)
    ensures Join(Split(s, sep), [sep]) == s
    ensures forall k :: 0 <= k < |Split(s, sep)| ==> sep !in Split(s, sep)[k]
  {
    if s != [] {
      var rest := Split(s[1..], sep);
      SplitJoin(s[1..], sep);
      if s[0] == sep {
        assert Split(s, sep) == [[]] + rest;
        assert Split(s, sep)[1..] == rest;
      } else {
        var r := Split(s, sep);
        assert r == [[s[0]] + rest[0]] + rest[1..];
        if |rest| == 1 {
          assert s == [s[0]] + s[1..];
        } else {
          assert r[1..] == rest[1..];
          assert Join(rest, [sep]) == rest[0] + [sep] + Join(rest[1..], [sep]);
        }
        forall k | 0 <= k < |r|
          ensures sep !in r[k]
        {
          if k > 0 {
            assert r[k] == rest[k];
          }
        }
      }
    }
  }

  /** A string without the separator is a single piece. */
  lemma {:induction false} SplitNone(s: string, sep: char)
    requires sep !in s
    ensures Split(s, sep) == [s]
  {
    if s != [] {
      SplitNone(s[1..], sep);
      assert [s[0]] + s[1..] == s;
    }
  }

  /** `s.startswith(prefix)`. */
  predicate StartsWith(s: string, prefix: string)
  {
    |prefix| <= |s| && s[..|prefix|] == prefix
  }

  /** `s.endswith(suffix)`. */
  predicate EndsWith(s: string, suffix: string)
  {
    |suffix| <= |s| && s[|s| - |suffix|..] == suffix
  }

  /** `s.count(c)` for a single character. */
  function Count(s: string, c: char): nat
  {
    if s == [] then 0 else (if s[0] == c then 1 else 0) + Count(s[1..], c)
  }

  lemma {:induction false} CountConcat(a: string, b: string, c: char)
    ensures Count(a + b, c) == Count(a, c) + Count(b, c)
  {
    if a == [] {
      assert a + b == b;
    } else {
      assert (a + b)[1..] == a[1..] + b;
      CountConcat(a[1..], b, c);
    }
  }

  lemma {:induction false} CountNone(s: string, c: char)
    requires c !in s
    ensures Count(s, c) == 0
  {
    if s != [] {
      CountNone(s[1..], c);
    }
  }

  /** Joining with a separator that does not hold `c` adds no `c`: the
      count is the sum over the pieces. */
  lemma {:induction false} CountJoin(pieces: seq<string>, sep: string, c: char, each: nat)
    requires c !in sep
    requires forall i :: 0 <= i < |pieces| ==> Count(pieces[i], c) == each
    ensures Count(Join(pieces, sep), c) == |pieces| * each
  {
    if |pieces| == 1 {
    } else if |pieces| > 1 {
      var rest := Join(pieces[1..], sep);
      CountJoin(pieces[1..], sep, c, each);
      CountNone(sep, c);
      assert Join(pieces, sep) == pieces[0] + sep + rest;
      CountConcat(pieces[0] + sep, rest, c);
      CountConcat(pieces[0], sep, c);
      MulSucc(|pieces| - 1, each);
    }
  }

  lemma MulSucc(n: nat, each: nat)
    ensures (n + 1) * each == each + n * each
  {
  }
}
