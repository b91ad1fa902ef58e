/** Model of the integer and sequence helpers of simpler/math.py.

    Python integers are unbounded, as Dafny's `int` is; Python's `//` and
    `divmod` floor, which agrees with Dafny's `/` and `%` wherever the divisor
    is positive, the only case used below. */
module Math {

  import opened Wrappers
  import opened Builtins

  // ---------------------------------------------------------------------
  // Divisibility

  /** `d` divides `n`: `n` is an integer multiple of `d` (so only 0 is
      divisible by 0). */
  ghost predicate Divides(d: int, n: int)
  {
    exists k :: n == d * k
  }

  lemma Cofactor(d: int, n: int) returns (k: int)
    requires Divides(d, n)
    ensures n == d * k
  {
    k :| n == d * k;
  }

  function Abs(x: int): nat
  {
    if x < 0 then -x else x
  }

  lemma DividesAbs(d: int, n: int)
    ensures Divides(d, n) <==> Divides(d, Abs(n))
  {
    if Divides(d, n) {
      var k :| n == d * k;
      assert Abs(n) == d * (if n < 0 then -k else k);
    }
    if Divides(d, Abs(n)) {
      var k :| Abs(n) == d * k;
      assert n == d * (if n < 0 then -k else k);
    }
  }

  /** A common divisor of `a` and `b > 0` divides `a % b`, and conversely. */
  lemma DividesRemainder(d: int, a: int, b: int)
    requires b > 0
    ensures Divides(d, a) && Divides(d, b) <==> Divides(d, b) && Divides(d, a % b)
  {
    var q, r := a / b, a % b;
    assert a == b * q + r;
    if Divides(d, a) && Divides(d, b) {
      var k1 :| a == d * k1;
      var k2 :| b == d * k2;
      RemainderMultiple(a, b, q, r, d, k1, k2);
    }
    if Divides(d, b) && Divides(d, r) {
      var k2 :| b == d * k2;
      var k3 :| r == d * k3;
      DividendMultiple(a, b, q, r, d, k2, k3);
    }
  }

  lemma RemainderMultiple(a: int, b: int, q: int, r: int, d: int, k1: int, k2: int)
    requires a == b * q + r && a == d * k1 && b == d * k2
    ensures r == d * (k1 - k2 * q)
  {
    assert b * q == d * (k2 * q);
  }

  lemma DividendMultiple(a: int, b: int, q: int, r: int, d: int, k2: int, k3: int)
    requires a == b * q + r && b == d * k2 && r == d * k3
    ensures a == d * (k2 * q + k3)
  {
    assert b * q == d * (k2 * q);
  }

  lemma MulSign(d: int, k: int)
    requires d > 0
    ensures k <= 0 ==> d * k <= 0
    ensures k >= 1 ==> d * k >= d
  {
    if k >= 1 {
      assert d * k == d + d * (k - 1);
    }
  }

  /** A positive multiple of `d > 0` is at least `d`. */
  lemma DividesBound(d: int, n: int)
    requires d > 0 && n > 0 && Divides(d, n)
    ensures d <= n
  {
    var k :| n == d * k;
    MulSign(d, k);
  }

  // ---------------------------------------------------------------------
  // clamp

  /** `clamp(value, minimum, maximum)`: `max(minimum, min(value, maximum))`. */
  function Clamp(value: real, minimum: real, maximum: real): (r: real)
    ensures minimum <= r
    ensures minimum <= maximum ==> r <= maximum
    ensures minimum <= value <= maximum ==> r == value
    ensures value < minimum || maximum < minimum ==> r == minimum
    ensures minimum <= maximum < value ==> r == maximum
  {
    var low := if value <= maximum then value else maximum;
    if minimum >= low then minimum else low
  }

  // ---------------------------------------------------------------------
  // gcd and lcm

  /** The value Euclid's algorithm computes for non-negative arguments: the
      greatest common divisor, in the sense that it divides both arguments and
      every common divisor divides it. */
  function GcdOf(a: nat, b: nat): (g: nat)
    ensures Divides(g, a) && Divides(g, b)
    ensures forall d :: Divides(d, a) && Divides(d, b) ==> Divides(d, g)
    ensures g == 0 <==> a == 0 && b == 0
    decreases b
  {
    if b == 0 then
      assert a == a * 1 && 0 == a * 0;
      a
    else
      var g := GcdOf(b, a % b);
      forall d | Divides(d, b) && Divides(d, a % b)
        ensures Divides(d, a)
      {
        DividesRemainder(d, a, b);
      }
      DividesRemainder(g, a, b);
      forall d | Divides(d, a) && Divides(d, b)
        ensures Divides(d, g)
      {
        DividesRemainder(d, a, b);
      }
      g
  }

  /** `gcd`: both arguments are made non-negative, then Euclid's loop runs. */
  method Gcd(a0: int, b0: int) returns (g: int)
    ensures g >= 0 && Divides(g, a0) && Divides(g, b0)
    ensures forall d :: Divides(d, a0) && Divides(d, b0) ==> Divides(d, g)
    ensures a0 == 0 ==> g == Abs(b0)
    ensures g == 0 <==> a0 == 0 && b0 == 0
    ensures g == GcdOf(Abs(a0), Abs(b0))
  {
    var a, b := a0, b0;
    if a < 0 {
      a := -a;
    }
    if b < 0 {
      b := -b;
    }
    assert a == Abs(a0) && b == Abs(b0);
    if a == 0 {
      GcdZero(b);
      g := b;
    } else {
      while b != 0
        invariant a >= 0 && b >= 0
        invariant GcdOf(a, b) == GcdOf(Abs(a0), Abs(b0))
        decreases b
      {
        a, b := b, a % b;
      }
      g := a;
    }
    GcdOfSigned(a0, b0);
  }

  /** `gcd(0, b) = b` for the reference definition. */
  lemma GcdZero(b: nat)
    ensures GcdOf(0, b) == b
  {
    if b != 0 {
      assert 0 % b == 0;
      assert GcdOf(0, b) == GcdOf(b, 0);
    }
  }

  /** What the reference definition on absolute values says about the
      signed arguments. */
  lemma GcdOfSigned(a0: int, b0: int)
    ensures var g := GcdOf(Abs(a0), Abs(b0));
      && Divides(g, a0) && Divides(g, b0)
      && (forall d :: Divides(d, a0) && Divides(d, b0) ==> Divides(d, g))
      && (a0 == 0 ==> g == Abs(b0))
      && (g == 0 <==> a0 == 0 && b0 == 0)
  {
    var g := GcdOf(Abs(a0), Abs(b0));
    DividesAbs(g, a0);
    DividesAbs(g, b0);
    forall d | Divides(d, a0) && Divides(d, b0)
      ensures Divides(d, g)
    {
      DividesAbs(d, a0);
      DividesAbs(d, b0);
    }
    if a0 == 0 {
      GcdZero(Abs(b0));
    }
  }

  /** `lcm(a, b) = a * b // gcd(a, b)`, which divides by zero when both are 0. */
  function Lcm(a: int, b: int): (r: Option<int>)
    ensures r.None? <==> a == 0 && b == 0
  {
    var g := GcdOf(Abs(a), Abs(b));
    if g == 0 then None else Some(a * b / g)
  }

  /** For non-zero arguments the result is a common multiple, and its product
      with the gcd is `a * b`. */
  lemma LcmProperties(a: int, b: int)
    requires a != 0 && b != 0
    ensures Lcm(a, b).Some?
    ensures Lcm(a, b).value * GcdOf(Abs(a), Abs(b)) == a * b
    ensures Divides(a, Lcm(a, b).value) && Divides(b, Lcm(a, b).value)
  {
    var g := GcdOf(Abs(a), Abs(b));
    DividesAbs(g, a);
    DividesAbs(g, b);
    var ka := Cofactor(g, a);
    var kb := Cofactor(g, b);
    LcmQuotient(a, b, g, ka, kb);
    var l := a * b / g;
    assert Lcm(a, b) == Some(l);
    assert l == a * kb && l == b * ka;
  }

  lemma LcmQuotient(a: int, b: int, g: int, ka: int, kb: int)
    requires g > 0 && a == g * ka && b == g * kb
    ensures a * b / g == ka * b == a * kb
    ensures a * b / g * g == a * b
  {
    assert a * b == g * (ka * b) by {
      assert a * b == (g * ka) * b;
    }
    ExactDivision(a * b, g, ka * b);
    assert ka * b == a * kb by {
      assert ka * b == ka * (g * kb) == (g * ka) * kb;
    }
  }

  lemma ExactDivision(n: int, d: int, k: int)
    requires d > 0 && n == d * k
    ensures n / d == k
  {
    var q, r := n / d, n % d;
    assert n == d * q + r && 0 <= r < d;
    assert d * (k - q) == r;
    MulSign(d, k - q);
    MulSign(d, q - k);
  }

  // ---------------------------------------------------------------------
  // base_change

  function Pow(b: int, e: nat): int
  {
    if e == 0 then 1 else b * Pow(b, e - 1)
  }

  /** The number a digit list stands for in base `b`, most significant digit
      first: the sum of `b ** (len - i - 1) * digits[i]`. */
  function Value(digits: seq<int>, b: int): int
  {
    if digits == [] then 0 else digits[0] * Pow(b, |digits| - 1) + Value(digits[1..], b)
  }

  /** Digits in `[0, b)` with no leading zero: the form `base_change` emits. */
  ghost predicate Canonical(digits: seq<int>, b: int)
  {
    (forall i :: 0 <= i < |digits| ==> 0 <= digits[i] < b) && (digits == [] || digits[0] != 0)
  }

  /** `base_change(n, base_from, base_to)` for a non-negative value and a
      target base of at least 2.  Python's `divmod` floors: a negative value
      reaches -1 and stays there, and `base_to` 1 or -1 never reaches 0, so
      those loops run forever; `base_to` 0 raises ZeroDivisionError; a
      `base_to` of -2 or less stops with digits in `(base_to, 0]`, a signed
      form this model does not cover.  A value of 0 gives `[]` in every base. */
  method BaseChange(n: seq<int>, baseFrom: int, baseTo: int) returns (res: seq<int>)
    requires baseTo >= 2 && Value(n, baseFrom) >= 0
    ensures Value(res, baseTo) == Value(n, baseFrom)
    ensures Canonical(res, baseTo)
    ensures res == [] <==> Value(n, baseFrom) == 0
  {
    res := [];
    var m := Value(n, baseFrom);
    while m != 0
      invariant m >= 0
      invariant m * Pow(baseTo, |res|) + Value(res, baseTo) == Value(n, baseFrom)
      invariant forall i :: 0 <= i < |res| ==> 0 <= res[i] < baseTo
      invariant m == 0 ==> res == [] || res[0] != 0
      invariant res != [] ==> Value(n, baseFrom) != 0
      decreases m
    {
      DigitStep(m, baseTo, res);
      m, res := m / baseTo, [m % baseTo] + res;
    }
  }

  /** One `divmod` step of `base_change` keeps the represented value. */
  lemma DigitStep(m: int, b: int, res: seq<int>)
    requires b >= 2 && m > 0
    ensures m / b * Pow(b, |res| + 1) + Value([m % b] + res, b) == m * Pow(b, |res|) + Value(res, b)
    ensures 0 <= m / b < m && 0 <= m % b < b
    ensures m / b == 0 ==> m % b != 0
  {
    DivStep(m, b);
    var p := Pow(b, |res|);
    assert Pow(b, |res| + 1) == b * p;
    assert ([m % b] + res)[1..] == res;
    assert Value([m % b] + res, b) == m % b * p + Value(res, b);
    RegroupDigit(m / b, m % b, b, p);
  }

  lemma DivStep(m: int, b: int)
    requires b >= 2 && m > 0
    ensures m == b * (m / b) + m % b
    ensures 0 <= m / b < m && 0 <= m % b < b
    ensures m / b == 0 ==> m % b == m
  {
    var q := m / b;
    if q > 0 {
      MulSign(q, b - 1);
      assert b * q == q * (b - 1) + q;
    }
  }

  lemma RegroupDigit(q: int, d: int, b: int, p: int)
    ensures (b * q + d) * p == q * (b * p) + d * p
  {
  }

  lemma ValueSnoc(digits: seq<int>, d: int, b: int)
    ensures Value(digits + [d], b) == Value(digits, b) * b + d
  {
    if digits != [] {
      assert (digits + [d])[1..] == digits[1..] + [d];
      ValueSnoc(digits[1..], d, b);
      var p := Pow(b, |digits| - 1);
      assert Pow(b, |digits|) == b * p;
      ShiftDigit(digits[0], p, b, Value(digits[1..], b), d);
    }
  }

  lemma ShiftDigit(x: int, p: int, b: int, v: int, d: int)
    ensures x * (b * p) + (v * b + d) == (x * p + v) * b + d
  {
    assert x * (b * p) == (x * p) * b;
  }

  lemma {:induction false} ValueNonNegative(digits: seq<int>, b: int)
    requires b >= 2 && forall i :: 0 <= i < |digits| ==> 0 <= digits[i] < b
    ensures Value(digits, b) >= 0
    ensures digits != [] && digits[0] != 0 ==> Value(digits, b) > 0
  {
    if digits != [] {
      ValueNonNegative(digits[1..], b);
      PowPositive(b, |digits| - 1);
      MulSign(Pow(b, |digits| - 1), digits[0]);
    }
  }

  lemma PowPositive(b: int, e: nat)
    requires b >= 1
    ensures Pow(b, e) >= 1
  {
    if e > 0 {
      PowPositive(b, e - 1);
      MulSign(Pow(b, e - 1), b);
    }
  }

  /** `q * b + r` with `0 <= r < b` has quotient `q` and remainder `r`. */
  lemma DivModUnique(q: int, r: int, b: int)
    requires b > 0 && 0 <= r < b
    ensures (q * b + r) / b == q && (q * b + r) % b == r
  {
    var n := q * b + r;
    assert n == b * (n / b) + n % b;
    assert b * (q - n / b) == n % b - r;
    MulSign(b, q - n / b);
    MulSign(b, n / b - q);
  }

  /** A number has only one canonical digit list in a base `b >= 2`, so the
      output of `base_change` is determined by the value alone. */
  lemma {:induction false} CanonicalUnique(x: seq<int>, y: seq<int>, b: int)
    requires b >= 2 && Canonical(x, b) && Canonical(y, b) && Value(x, b) == Value(y, b)
    ensures x == y
    decreases |x|
  {
    ValueNonNegative(x, b);
    ValueNonNegative(y, b);
    if x != [] && y != [] {
      var x', y' := x[..|x| - 1], y[..|y| - 1];
      CanonicalPrefix(x, b);
      CanonicalPrefix(y, b);
      SameQuotient(Value(x', b), x[|x| - 1], Value(y', b), y[|y| - 1], b);
      CanonicalUnique(x', y', b);
      assert x == x' + [x[|x| - 1]] && y == y' + [y[|y| - 1]];
    }
  }

  /** Dropping the last digit of a canonical list leaves a canonical list
      whose value is the quotient by the base. */
  lemma CanonicalPrefix(x: seq<int>, b: int)
    requires Canonical(x, b) && x != []
    ensures Canonical(x[..|x| - 1], b) && 0 <= x[|x| - 1] < b
    ensures Value(x, b) == Value(x[..|x| - 1], b) * b + x[|x| - 1]
  {
    assert x == x[..|x| - 1] + [x[|x| - 1]];
    ValueSnoc(x[..|x| - 1], x[|x| - 1], b);
  }

  lemma SameQuotient(q1: int, r1: int, q2: int, r2: int, b: int)
    requires b > 0 && 0 <= r1 < b && 0 <= r2 < b && q1 * b + r1 == q2 * b + r2
    ensures q1 == q2 && r1 == r2
  {
    DivModUnique(q1, r1, b);
    DivModUnique(q2, r2, b);
  }

  /** The example of the doc comment: 1101 in base 2 is [1, 3] in base 10. */
  lemma BaseChangeDocExample(digits: seq<int>)
    requires Canonical(digits, 10) && Value(digits, 10) == Value([1, 1, 0, 1], 2)
    ensures digits == [1, 3]
  {
    assert Value([1, 1, 0, 1], 2) == 13 == Value([1, 3], 10);
    CanonicalUnique(digits, [1, 3], 10);
  }

  // ---------------------------------------------------------------------
  // fibonacci

  /** The reference definition: F(0) = 0, F(1) = 1, F(n+2) = F(n+1) + F(n). */
  function Fib(n: nat): nat
  {
    if n < 2 then n else Fib(n - 1) + Fib(n - 2)
  }

  /** The addition law F(m+n+1) = F(m+1)F(n+1) + F(m)F(n), with the index
      of the left-hand side named. */
  lemma {:induction false} FibSum(m: nat, n: nat, sum: nat)
    requires sum == m + n + 1
    ensures Fib(sum) == Fib(m + 1) * Fib(n + 1) + Fib(m) * Fib(n)
    decreases n
  {
    if n == 0 {
      assert Fib(1) == 1 && Fib(0) == 0;
    } else if n == 1 {
      assert Fib(2) == 1 && Fib(1) == 1;
    } else {
      FibSum(m, n - 1, sum - 1);
      FibSum(m, n - 2, sum - 2);
      FibSumStep(m, n, sum);
    }
  }

  /** The inductive step of `FibSum`, from the laws for `n - 1` and `n - 2`. */
  lemma FibSumStep(m: nat, n: nat, sum: nat)
    requires n >= 2 && sum == m + n + 1
    requires Fib(sum - 1) == Fib(m + 1) * Fib(n) + Fib(m) * Fib(n - 1)
    requires Fib(sum - 2) == Fib(m + 1) * Fib(n - 1) + Fib(m) * Fib(n - 2)
    ensures Fib(sum) == Fib(m + 1) * Fib(n + 1) + Fib(m) * Fib(n)
  {
    assert Fib(sum) == Fib(sum - 1) + Fib(sum - 2);
    assert Fib(n + 1) == Fib(n) + Fib(n - 1) && Fib(n) == Fib(n - 1) + Fib(n - 2);
    Combine(Fib(m + 1), Fib(m), Fib(n + 1), Fib(n), Fib(n - 1), Fib(n - 2),
            Fib(sum - 1), Fib(sum - 2), Fib(sum));
  }

  /** The step of the addition law, on plain integers. */
  lemma Combine(a: int, b: int, w: int, x: int, y: int, z: int, p: int, q: int, r: int)
    requires p == a * x + b * y && q == a * y + b * z
    requires w == x + y && x == y + z && r == p + q
    ensures r == a * w + b * x
  {
  }

  /** The doubling identities `_fib` relies on. */
  lemma FibDoubling(k: nat)
    ensures Fib(2 * k) == Fib(k) * (2 * Fib(k + 1) - Fib(k))
    ensures Fib(2 * k + 1) == Fib(k + 1) * Fib(k + 1) + Fib(k) * Fib(k)
    ensures Fib(2 * k + 2) == Fib(2 * k + 1) + Fib(2 * k)
  {
    FibSum(k, k, 2 * k + 1);
    if k == 0 {
      assert Fib(0) == 0;
    } else {
      var a, b, c := Fib(k + 1), Fib(k), Fib(k - 1);
      FibSum(k, k - 1, 2 * k);
      assert a == b + c;
      DoublingAlgebra(a, b, c);
    }
    assert Fib(2 * k + 2) == Fib(2 * k + 1) + Fib(2 * k);
  }

  lemma DoublingAlgebra(a: int, b: int, c: int)
    requires a == b + c
    ensures a * b + b * c == b * (2 * a - b)
  {
  }

  /** The inner `_fib` of `fibonacci`, by fast doubling: the pair of the n-th
      and the (n+1)-th Fibonacci numbers. */
  function FastFib(n: nat): (r: (int, int))
    ensures r == (Fib(n), Fib(n + 1))
  {
    if n == 0 then (0, 1)
    else
      var (a, b) := FastFib(n / 2);
      var c := a * (2 * b - a);
      var d := b * b + a * a;
      DoublingStep(n, a, b);
      if n % 2 == 0 then (c, d) else (d, c + d)
  }

  /** One step of `_fib`: from the pair at `n // 2` to the pair at `n`. */
  lemma DoublingStep(n: nat, a: int, b: int)
    requires n > 0 && a == Fib(n / 2) && b == Fib(n / 2 + 1)
    ensures n % 2 == 0 ==> (a * (2 * b - a), b * b + a * a) == (Fib(n), Fib(n + 1))
    ensures n % 2 == 1 ==> (b * b + a * a, a * (2 * b - a) + (b * b + a * a)) == (Fib(n), Fib(n + 1))
  {
    var k := n / 2;
    FibDoubling(k);
    var even, odd := a * (2 * b - a), b * b + a * a;
    assert even == Fib(2 * k) && odd == Fib(2 * k + 1);
    Halves(n, k);
    if n % 2 == 1 {
      assert Fib(n + 1) == even + odd;
    }
  }

  lemma Halves(n: nat, k: nat)
    requires k == n / 2
    ensures n % 2 == 0 ==> n == 2 * k
    ensures n % 2 == 1 ==> n == 2 * k + 1
  {
  }

  /** `fibonacci(n)`: the first component of `_fib(n)`. */
  function Fibonacci(n: nat): (r: int)
    ensures r == Fib(n)
  {
    FastFib(n).0
  }

  // ---------------------------------------------------------------------
  // unique and all_equal

  /** Element `i` is the first of `s` with its key. */
  ghost predicate IsFirst<T, K>(s: seq<T>, key: T -> K, i: int)
    requires 0 <= i < |s|
  {
    forall j :: 0 <= j < i ==> key(s[j]) != key(s[i])
  }

  /** The elements of `s[..n]` that are the first with their key, in order. */
  ghost function Firsts<T, K>(s: seq<T>, key: T -> K, n: nat): seq<T>
    requires n <= |s|
  {
    if n == 0 then [] else Firsts(s, key, n - 1) + (if IsFirst(s, key, n - 1) then [s[n - 1]] else [])
  }

  function Keys<T, K>(s: seq<T>, key: T -> K): seq<K>
  {
    seq(|s|, i requires 0 <= i < |s| => key(s[i]))
  }

  /** `unique(seq, uniqueness_function)`. */
  method Unique<T, K(==)>(s: seq<T>, key: T -> K) returns (values: seq<T>)
    ensures values == Firsts(s, key, |s|)
  {
    values := [];
    var keys: seq<K> := [];
    for i := 0 to |s|
      invariant values == Firsts(s, key, i)
      invariant keys == Keys(values, key)
    {
      var k := key(s[i]);
      FirstsKeys(s, key, i);
      assert k in keys <==> !IsFirst(s, key, i);
      if k !in keys {
        assert Keys(values + [s[i]], key) == keys + [k];
        keys := keys + [k];
        values := values + [s[i]];
      }
    }
  }

  /** The keys kept so far are exactly the keys seen so far. */
  lemma {:induction false} FirstsKeys<T, K>(s: seq<T>, key: T -> K, n: nat)
    requires n <= |s|
    ensures forall k :: k in Keys(Firsts(s, key, n), key) ==> exists j :: 0 <= j < n && key(s[j]) == k
    ensures forall j :: 0 <= j < n ==> key(s[j]) in Keys(Firsts(s, key, n), key)
  {
    if n > 0 {
      FirstsKeys(s, key, n - 1);
      var f := Firsts(s, key, n - 1);
      var r := Firsts(s, key, n);
      assert r == f + (if IsFirst(s, key, n - 1) then [s[n - 1]] else []);
      forall k | k in Keys(r, key)
        ensures exists j :: 0 <= j < n && key(s[j]) == k
      {
        var i :| 0 <= i < |r| && Keys(r, key)[i] == k;
        if i < |f| {
          assert r[i] == f[i] && Keys(f, key)[i] == k;
          assert k in Keys(f, key);
        } else {
          assert key(s[n - 1]) == k;
        }
      }
      forall j | 0 <= j < n
        ensures key(s[j]) in Keys(r, key)
      {
        if j < n - 1 || !IsFirst(s, key, n - 1) {
          var j0 := j;
          if j == n - 1 {
            j0 :| 0 <= j0 < n - 1 && key(s[j0]) == key(s[n - 1]);
          }
          assert key(s[j0]) in Keys(f, key);
          var i :| 0 <= i < |f| && Keys(f, key)[i] == key(s[j0]);
          assert Keys(r, key)[i] == key(s[j]);
        } else {
          assert Keys(r, key)[|f|] == key(s[j]);
        }
      }
    }
  }

  /** The kept elements have pairwise distinct keys, and every key of the
      input is among them. */
  lemma {:induction false} UniqueKeys<T, K>(s: seq<T>, key: T -> K, n: nat)
    requires n <= |s|
    ensures forall i, j :: 0 <= i < j < |Firsts(s, key, n)| ==> key(Firsts(s, key, n)[i]) != key(Firsts(s, key, n)[j])
    ensures forall j :: 0 <= j < n ==> key(s[j]) in Keys(Firsts(s, key, n), key)
  {
    FirstsKeys(s, key, n);
    if n > 0 {
      UniqueKeys(s, key, n - 1);
      FirstsKeys(s, key, n - 1);
      var f := Firsts(s, key, n - 1);
      if IsFirst(s, key, n - 1) {
        var x := s[n - 1];
        assert Firsts(s, key, n) == f + [x];
        AppendFreshKey(f, x, key);
      } else {
        assert Firsts(s, key, n) == f;
      }
    }
  }

  /** An element whose key is new keeps the keys pairwise distinct. */
  lemma AppendFreshKey<T, K>(f: seq<T>, x: T, key: T -> K)
    requires forall i, j :: 0 <= i < j < |f| ==> key(f[i]) != key(f[j])
    requires key(x) !in Keys(f, key)
    ensures forall i, j :: 0 <= i < j < |f + [x]| ==> key((f + [x])[i]) != key((f + [x])[j])
  {
    var r := f + [x];
    forall i, j | 0 <= i < j < |r|
      ensures key(r[i]) != key(r[j])
    {
      assert r[i] == f[i];
      if j == |f| {
        assert Keys(f, key)[i] == key(f[i]);
      } else {
        assert r[j] == f[j];
      }
    }
  }

  /** Every kept element is an element of the input, in input order. */
  lemma {:induction false} UniqueSubsequence<T, K>(s: seq<T>, key: T -> K, n: nat)
    requires n <= |s|
    ensures |Firsts(s, key, n)| <= n
    ensures forall x :: x in Firsts(s, key, n) ==> x in s[..n]
  {
    if n > 0 {
      UniqueSubsequence(s, key, n - 1);
      assert s[..n] == s[..n - 1] + [s[n - 1]];
    }
  }

  /** The example of the doc comment. */
  lemma UniqueDocExample()
    ensures Firsts([1, 5, 7, 9], (x: int) => x % 3, 4) == [1, 5, 9]
  {
    var s, key := [1, 5, 7, 9], (x: int) => x % 3;
    assert IsFirst(s, key, 0) && IsFirst(s, key, 1);
    assert !IsFirst(s, key, 2) by {
      assert key(s[0]) == key(s[2]);
    }
    assert IsFirst(s, key, 3);
  }

  /** `all_equal(seq)`: fewer than two elements, or every later element
      equals the first. */
  function AllEqual<T(==)>(s: seq<T>): (r: bool)
    ensures r <==> forall i, j :: 0 <= i < |s| && 0 <= j < |s| ==> s[i] == s[j]
  {
    |s| < 2 || forall i :: 1 <= i < |s| ==> s[0] == s[i]
  }

  // ---------------------------------------------------------------------
  // Primality

  ghost predicate Prime(p: int)
  {
    p >= 2 && forall d :: 2 <= d < p ==> p % d != 0
  }

  /** `n` has no divisor in `[2, b)`. */
  ghost predicate NoDivisorBelow(n: int, b: int)
  {
    forall d :: 2 <= d < b ==> n % d != 0
  }

  /** Divisibility is transitive. */
  lemma ModTrans(n: int, d: int, c: int)
    requires d > 0 && c > 0 && n % d == 0 && d % c == 0
    ensures n % c == 0
  {
    var a, b := n / d, d / c;
    assert n == d * a && d == c * b;
    assert n == (b * a) * c by {
      assert n == (c * b) * a;
    }
    DivModUnique(b * a, 0, c);
  }

  lemma MulMono(a: int, b: int, c: int, d: int)
    requires a >= c >= 0 && b >= d >= 0
    ensures a * b >= c * d
  {
    assert a * b - c * d == a * (b - d) + d * (a - c);
    MulSign(1, 0);
    if b > d && a > 0 {
      MulSign(a, b - d);
    }
    if a > c && d > 0 {
      MulSign(d, a - c);
    }
  }

  /** A number below `b * b` without a divisor in `[2, b)` is prime. */
  lemma NoSmallDivisorPrime(n: int, b: int)
    requires n >= 2 && b >= 0 && n < b * b && NoDivisorBelow(n, b)
    ensures Prime(n)
  {
    forall d | 2 <= d < n
      ensures n % d != 0
    {
      if n % d == 0 {
        var e := n / d;
        assert n == d * e;
        if e <= 1 {
          MulMono(d, 1, d, e);
        }
        assert e >= 2;
        DivModUnique(d, 0, e);
        assert n % e == 0 by {
          assert n == d * e + 0;
        }
        if d >= b && e >= b {
          MulMono(d, e, b, b);
        }
      }
    }
  }

  /** The exact integer square root, standing for `int(sqrt(n))`.  Python's
      float `sqrt` rounds, so for large `n` the truncated float can differ
      from it, and beyond the float range `sqrt` raises OverflowError; the
      model has neither. */
  function Isqrt(n: nat): (r: nat)
    ensures r * r <= n < (r + 1) * (r + 1)
  {
    if n < 4 then (if n == 0 then 0 else 1)
    else
      var t := Isqrt(n / 4);
      var s := 2 * t;
      IsqrtStep(n, t);
      if (s + 1) * (s + 1) <= n then s + 1 else s
  }

  lemma IsqrtStep(n: nat, t: nat)
    requires n >= 4 && t * t <= n / 4 < (t + 1) * (t + 1)
    ensures (2 * t) * (2 * t) <= n < (2 * t + 2) * (2 * t + 2)
  {
    assert n == 4 * (n / 4) + n % 4;
    assert (2 * t) * (2 * t) == 4 * (t * t);
    assert (2 * t + 2) * (2 * t + 2) == 4 * ((t + 1) * (t + 1));
  }

  /** How the loop of `is_prime` stops short of an answer: `sqrt` of a
      negative number raises, and a run that has not finished within its
      budget of iterations reports `OutOfFuel`. */
  datatype Halt = MathDomainError | OutOfFuel

  /** The straight-line prefix of `is_prime`: the value `res` holds when the
      loop starts. */
  function InitialVerdict(n: int): bool
  {
    if n == 2 || n == 3 then true
    else if n < 2 || n % 2 == 0 then false
    else if n < 9 then true
    else n % 3 != 0
  }

  lemma InitialVerdictSound(n: int)
    ensures !InitialVerdict(n) ==> !Prime(n)
    ensures InitialVerdict(n) && n < 25 ==> Prime(n)
    ensures InitialVerdict(n) ==> n == 2 || (n >= 3 && n % 2 != 0)
    ensures InitialVerdict(n) && n >= 9 ==> n % 2 != 0 && n % 3 != 0
  {
    if InitialVerdict(n) && n < 25 {
      if n < 5 {
        NoSmallDivisorPrime(n, 2);
      } else {
        forall d | 2 <= d < 5
          ensures n % d != 0
        {
          if d == 4 {
            NotMultipleOf(n, 4, 2);
          }
        }
        NoSmallDivisorPrime(n, 5);
      }
    }
  }

  /** The test of one pass of `is_prime`'s loop: `f` or `f + 2` divides `n`. */
  predicate WheelHit(n: int, f: int)
    requires f > 0
  {
    n % f == 0 || n % (f + 2) == 0
  }

  /** The `while f <= r` loop of `is_prime` as written, with at most `fuel`
      more iterations: `f` only advances when neither `f` nor `f + 2` divides
      `n`. */
  function TrialLoop(n: int, r: int, f: int, res: bool, fuel: nat): Result<bool, Halt>
    requires f > 0
    decreases fuel
  {
    if f > r then Success(res)
    else if fuel == 0 then Failure(OutOfFuel)
    else if WheelHit(n, f) then TrialLoop(n, r, f, false, fuel - 1)
    else TrialLoop(n, r, f + 6, res, fuel - 1)
  }

  /** `is_prime(n)` as written, run with a budget of `fuel` iterations. */
  function IsPrimeRun(n: int, fuel: nat): Result<bool, Halt>
  {
    if n < 0 then Failure(MathDomainError) else TrialLoop(n, Isqrt(n), 5, InitialVerdict(n), fuel)
  }

  /** `is_prime` as written.  Whenever it returns, the answer is right. */
  method IsPrimeAsWritten(n: int, fuel: nat) returns (r: Result<bool, Halt>)
    ensures r == IsPrimeRun(n, fuel)
    ensures r.Success? ==> r.value == Prime(n)
    ensures r.Failure? ==> r.error == if n < 0 then MathDomainError else OutOfFuel
  {
    IsPrimeRunSound(n, fuel);
    var res := InitialVerdict(n);
    if n < 0 {
      return Failure(MathDomainError);
    }
    var root := Isqrt(n);
    var f: int := 5;
    var left := fuel;
    while f <= root
      invariant f > 0
      invariant TrialLoop(n, root, f, res, left) == IsPrimeRun(n, fuel)
      decreases left
    {
      if left == 0 {
        return Failure(OutOfFuel);
      }
      if WheelHit(n, f) {
        res := false;
      } else {
        f := f + 6;
      }
      left := left - 1;
    }
    return Success(res);
  }

  /** What `is_prime` as written answers, whenever it answers, is the
      primality of `n`; it fails only on a negative `n` or an exhausted
      budget. */
  lemma IsPrimeRunSound(n: int, fuel: nat)
    ensures IsPrimeRun(n, fuel).Success? ==> IsPrimeRun(n, fuel).value == Prime(n)
    ensures IsPrimeRun(n, fuel).Failure? ==>
      IsPrimeRun(n, fuel).error == if n < 0 then MathDomainError else OutOfFuel
  {
    if n >= 0 {
      InitialVerdictSound(n);
      if InitialVerdict(n) && n >= 9 {
        NotMultipleOf(n, 4, 2);
      }
      TrialLoopSound(n, Isqrt(n), 5, InitialVerdict(n), fuel);
    }
  }

  /** The as-written loop, from any state that meets its invariant, answers
      with the primality of `n` or runs out of budget. */
  lemma {:induction false} TrialLoopSound(n: int, root: int, f: int, res: bool, fuel: nat)
    requires n >= 0 && root * root <= n < (root + 1) * (root + 1) && f >= 5 && f % 6 == 5
    requires res ==> InitialVerdict(n)
    requires !res ==> !Prime(n)
    requires res && n >= 9 ==> NoDivisorBelow(n, f)
    ensures TrialLoop(n, root, f, res, fuel).Success? ==> TrialLoop(n, root, f, res, fuel).value == Prime(n)
    ensures TrialLoop(n, root, f, res, fuel).Failure? ==> TrialLoop(n, root, f, res, fuel).error == OutOfFuel
    decreases fuel
  {
    if f > root {
      TrialVerdict(n, root, f, res);
    } else if fuel > 0 {
      var hit := WheelHit(n, f);
      var f', res' := if hit then f else f + 6, if hit then false else res;
      TrialStep(n, root, f, res, f', res');
      TrialLoopSound(n, root, f', res', fuel - 1);
    }
  }

  /** One pass of the trial-division loop keeps its invariant: a divisor
      found leaves `f` where it is and clears `res`, none found moves `f` on
      by six. */
  lemma TrialStep(n: int, root: int, f: int, res: bool, f': int, res': bool)
    requires n >= 0 && root * root <= n && 5 <= f <= root && f % 6 == 5
    requires res ==> InitialVerdict(n)
    requires !res ==> !Prime(n)
    requires res && n >= 9 ==> NoDivisorBelow(n, f)
    requires (f', res') == if WheelHit(n, f) then (f, false) else (f + 6, res)
    ensures f' >= 5 && f' % 6 == 5
    ensures res' ==> InitialVerdict(n)
    ensures !res' ==> !Prime(n)
    ensures res' && n >= 9 ==> NoDivisorBelow(n, f')
  {
    if WheelHit(n, f) {
      StepDivisor(n, root, f);
    } else {
      TrialMiss(n, f, res);
    }
  }

  /** A pass that finds no divisor moves on to the next six candidates. */
  lemma TrialMiss(n: int, f: int, res: bool)
    requires f >= 5 && f % 6 == 5 && !WheelHit(n, f)
    requires res ==> InitialVerdict(n)
    requires res && n >= 9 ==> NoDivisorBelow(n, f)
    ensures (f + 6) % 6 == 5
    ensures res && n >= 9 ==> NoDivisorBelow(n, f + 6)
  {
    if res && n >= 9 {
      InitialVerdictSound(n);
      WheelSix(n, f);
    }
    ModAddMultiple(1, f, 6);
  }

  /** When the loop stops, `res` is the primality of `n`: either a divisor
      was found, or every candidate up to `isqrt(n)` was tried. */
  lemma TrialVerdict(n: int, root: int, f: int, res: bool)
    requires n >= 0 && root * root <= n < (root + 1) * (root + 1) && (res ==> f > root)
    requires res ==> InitialVerdict(n)
    requires !res ==> !Prime(n)
    requires res && n >= 9 ==> NoDivisorBelow(n, f)
    ensures res == Prime(n)
  {
    InitialVerdictSound(n);
    if res && n >= 25 {
      NoSmallDivisorPrime(n, root + 1);
    }
  }

  /** A divisor `f` or `f + 2` found with `5 <= f <= isqrt(n)` shows `n`
      composite. */
  lemma StepDivisor(n: int, root: int, f: int)
    requires n >= 0 && root * root <= n && 5 <= f <= root
    requires WheelHit(n, f)
    ensures !Prime(n)
  {
    MulMono(root, root, 5, 5);
    MulMono(root, root, root, 5);
    assert f + 2 < n;
  }

  /** Six more candidates: `n` odd and not a multiple of 3 has no divisor in
      `[f, f + 6)` when `f` and `f + 2` do not divide it and `f % 6 == 5`. */
  lemma WheelSix(n: int, f: int)
    requires n % 2 != 0 && n % 3 != 0 && f >= 5 && f % 6 == 5
    requires NoDivisorBelow(n, f) && n % f != 0 && n % (f + 2) != 0
    ensures NoDivisorBelow(n, f + 6)
  {
    forall d | 2 <= d < f + 6
      ensures n % d != 0
    {
      if f < d && d != f + 2 {
        WheelCase(f, d);
        if d % 2 == 0 {
          NotMultipleOf(n, d, 2);
        } else {
          NotMultipleOf(n, d, 3);
        }
      }
    }
  }

  /** Of the six numbers from `f` on, with `f % 6 == 5`, the ones the wheel
      does not try are multiples of 2 or 3. */
  lemma WheelCase(f: int, d: int)
    requires f % 6 == 5 && f < d < f + 6 && d != f + 2
    ensures d % 2 == 0 || d % 3 == 0
  {
    var k := f / 6;
    SixthsOf(f);
    if d == f + 4 {
      MultipleMod(d, 3, 2 * k + 3);
    } else {
      MultipleMod(d, 2, 3 * k + (d - f + 5) / 2);
    }
  }

  lemma SixthsOf(f: int)
    requires f % 6 == 5
    ensures f == 6 * (f / 6) + 5
  {
  }

  lemma MultipleMod(d: int, c: int, m: int)
    requires (c == 2 || c == 3) && d == c * m
    ensures d % c == 0
  {
    if c == 2 {
      assert d == 2 * m;
    } else {
      assert d == 3 * m;
    }
  }

  lemma NotMultipleOf(n: int, d: int, c: int)
    requires c > 0 && d > 0 && d % c == 0 && n % c != 0
    ensures n % d != 0
  {
    if n % d == 0 {
      ModTrans(n, d, c);
    }
  }

  /** The evidently intended `is_prime`: the loop stops at the first divisor
      found.  It always returns, with the primality of `n`. */
  method IsPrime(n: int) returns (r: Result<bool, Halt>)
    ensures n < 0 ==> r == Failure(MathDomainError)
    ensures n >= 0 ==> r == Success(Prime(n))
  {
    var res := InitialVerdict(n);
    InitialVerdictSound(n);
    if n < 0 {
      return Failure(MathDomainError);
    }
    var root := Isqrt(n);
    var f: int := 5;
    while f <= root
      invariant f >= 5 && f % 6 == 5
      invariant res ==> InitialVerdict(n)
      invariant !res ==> !Prime(n)
      invariant res && n >= 9 ==> NoDivisorBelow(n, f)
      decreases root - f
    {
      if WheelHit(n, f) {
        TrialStep(n, root, f, res, f, false);
        res := false;
        break;
      }
      TrialStep(n, root, f, res, f + 6, res);
      f := f + 6;
    }
    TrialVerdict(n, root, f, res);
    return Success(res);
  }

  /** Once `res` is false and a divisor sits at `f`, the as-written loop
      never advances `f` again. */
  lemma {:induction false} TrialLoopStuck(n: int, r: int, f: int, fuel: nat)
    requires 0 < f <= r && n % f == 0
    ensures TrialLoop(n, r, f, false, fuel) == Failure(OutOfFuel)
    decreases fuel
  {
    if fuel > 0 {
      TrialLoopStuck(n, r, f, fuel - 1);
    }
  }

  /** `is_prime(25)` and `is_prime(35)` never return, whatever the budget. */
  lemma IsPrimeAsWrittenHangs(fuel: nat)
    ensures IsPrimeRun(25, fuel) == Failure(OutOfFuel)
    ensures IsPrimeRun(35, fuel) == Failure(OutOfFuel)
  {
    assert Isqrt(25) == 5 by {
      IsqrtUnique(25, 5);
    }
    assert Isqrt(35) == 5 by {
      IsqrtUnique(35, 5);
    }
    TrialLoopStuck(25, 5, 5, fuel);
    TrialLoopStuck(35, 5, 5, fuel);
  }

  lemma IsqrtUnique(n: nat, r: nat)
    requires r * r <= n < (r + 1) * (r + 1)
    ensures Isqrt(n) == r
  {
    var q := Isqrt(n);
    if q < r {
      MulMono(r, r, q + 1, q + 1);
    } else if q > r {
      MulMono(q, q, r + 1, r + 1);
    }
  }

  // ---------------------------------------------------------------------
  // factor

  /** The product of `p ** e` over a list of `(p, e)` pairs. */
  function Product(factors: seq<(int, int)>): int
  {
    if factors == [] then 1
    else
      var last := factors[|factors| - 1];
      Product(factors[..|factors| - 1]) * Pow(last.0, if last.1 < 0 then 0 else last.1)
  }

  /** A prime factorization of `n`: strictly increasing prime bases with
      positive exponents whose product is `n`. */
  ghost predicate IsFactorization(factors: seq<(int, int)>, n: int)
  {
    (forall i :: 0 <= i < |factors| ==> Prime(factors[i].0) && factors[i].1 >= 1)
    && (forall i, j :: 0 <= i < j < |factors| ==> factors[i].0 < factors[j].0)
    && Product(factors) == n
  }

  /** The distances from the first candidate of a round of `factor` to each
      later one: the round `[1, 1, 2, 2, 4]` from 1, and the wheel
      `[2, 4, 2, 4, 6, 2, 6, 4]` from a number that is 11 modulo 30. */
  function Offsets(start: int): seq<int>
  {
    if start == 1 then [0, 1, 2, 4, 6, 10] else [0, 2, 6, 8, 12, 18, 20, 26, 30]
  }

  lemma GapsOffsets(start: int, gaps: seq<int>)
    requires gaps == if start < 11 then [1, 1, 2, 2, 4] else [2, 4, 2, 4, 6, 2, 6, 4]
    requires start == 1 || start >= 11
    ensures |gaps| == |Offsets(start)| - 1 && Offsets(start)[|gaps|] == if start == 1 then 10 else 30
    ensures forall j :: 0 <= j < |gaps| ==> gaps[j] == Offsets(start)[j + 1] - Offsets(start)[j]
  {
  }

  /** Every number a round skips has a factor 2, 3 or 5 no larger than the
      candidate before it. */
  lemma Skipped(start: int, j: int, g: int)
    requires start == 1 || (start >= 11 && start % 30 == 11)
    requires 0 <= j < |Offsets(start)| - 1
    requires start + Offsets(start)[j] < g < start + Offsets(start)[j + 1]
    ensures var f := start + Offsets(start)[j];
      (g % 2 == 0 && 2 <= f) || (g % 3 == 0 && 3 <= f) || (g % 5 == 0 && 5 <= f)
  {
    if start != 1 {
      var q, c := start / 30, g - start + 11;
      assert g == 30 * q + c && 11 < c < 41;
      ModAddMultiple(15 * q, c, 2);
      ModAddMultiple(10 * q, c, 3);
      ModAddMultiple(6 * q, c, 5);
      WheelResidue(j, c);
    }
  }

  /** The residues modulo 30 the wheel skips. */
  lemma WheelResidue(j: int, c: int)
    requires 0 <= j < 8 && 11 + Offsets(11)[j] < c < 11 + Offsets(11)[j + 1]
    ensures c % 2 == 0 || c % 3 == 0 || c % 5 == 0
  {
    assert Offsets(11) == [0, 2, 6, 8, 12, 18, 20, 26, 30];
  }

  lemma ModAddMultiple(k: int, c: int, m: int)
    requires m > 0
    ensures (m * k + c) % m == c % m
  {
    assert c == m * (c / m) + c % m;
    DivModUnique(k + c / m, c % m, m);
    assert (k + c / m) * m + c % m == m * k + c;
  }

  /** What holds of `factor`'s state after the candidate `f`: the factors
      found so far are increasing primes up to `f`, they and the remaining
      cofactor `n` multiply to `n0`, and `n` has no divisor in `[2, f]`. */
  ghost predicate Progress(n0: int, n: int, f: int, factors: seq<(int, int)>)
  {
    1 <= f <= n0 && 1 <= n <= n0
    && Product(factors) * n == n0
    && (forall i :: 0 <= i < |factors| ==> Prime(factors[i].0) && factors[i].1 >= 1 && factors[i].0 <= f)
    && (forall i, j :: 0 <= i < j < |factors| ==> factors[i].0 < factors[j].0)
    && NoDivisorBelow(n, f + 1)
  }

  /** Moving on to the next candidate of a round. */
  lemma Advance(n0: int, n: int, start: int, j: int, factors: seq<(int, int)>)
    requires start == 1 || (start >= 11 && start % 30 == 11)
    requires 0 <= j < |Offsets(start)| - 1
    requires Progress(n0, n, start + Offsets(start)[j], factors)
    ensures NoDivisorBelow(n, start + Offsets(start)[j + 1])
  {
    var previous := start + Offsets(start)[j];
    forall d | 2 <= d < start + Offsets(start)[j + 1]
      ensures n % d != 0
    {
      if previous < d {
        Skipped(start, j, d);
        if d % 2 == 0 && 2 <= previous {
          NotMultipleOf(n, d, 2);
        } else if d % 3 == 0 && 3 <= previous {
          NotMultipleOf(n, d, 3);
        } else {
          NotMultipleOf(n, d, 5);
        }
      }
    }
  }

  /** The candidate's square exceeds the cofactor: the cofactor is 1 or the
      last prime factor. */
  lemma Finish(n0: int, n: int, previous: int, f: int, factors: seq<(int, int)>)
    requires Progress(n0, n, previous, factors) && previous < f && f * f > n && NoDivisorBelow(n, f)
    ensures n == 1 ==> IsFactorization(factors, n0)
    ensures n != 1 ==> IsFactorization(factors + [(n, 1)], n0)
  {
    if n != 1 {
      NoSmallDivisorPrime(n, f);
      assert f <= n by {
        assert n % n == 0;
      }
      LastFactor(n0, n, factors);
    }
  }

  /** A prime cofactor above every factor found completes the
      factorization. */
  lemma LastFactor(n0: int, n: int, factors: seq<(int, int)>)
    requires Product(factors) * n == n0 && Prime(n)
    requires forall i :: 0 <= i < |factors| ==> Prime(factors[i].0) && factors[i].1 >= 1 && factors[i].0 < n
    requires forall i, j :: 0 <= i < j < |factors| ==> factors[i].0 < factors[j].0
    ensures IsFactorization(factors + [(n, 1)], n0)
  {
    ProductSnoc(factors, n, 1);
    assert Pow(n, 1) == n;
    SnocPrimes(factors, n);
    SnocSorted(factors, n);
  }

  lemma SnocPrimes(factors: seq<(int, int)>, n: int)
    requires Prime(n) && forall i :: 0 <= i < |factors| ==> Prime(factors[i].0) && factors[i].1 >= 1
    ensures forall i :: 0 <= i < |factors + [(n, 1)]| ==> Prime((factors + [(n, 1)])[i].0) && (factors + [(n, 1)])[i].1 >= 1
  {
    var r := factors + [(n, 1)];
    forall i | 0 <= i < |r|
      ensures Prime(r[i].0) && r[i].1 >= 1
    {
      if i < |factors| {
        assert r[i] == factors[i];
      }
    }
  }

  lemma SnocSorted(factors: seq<(int, int)>, n: int)
    requires forall i :: 0 <= i < |factors| ==> factors[i].0 < n
    requires forall i, j :: 0 <= i < j < |factors| ==> factors[i].0 < factors[j].0
    ensures forall i, j :: 0 <= i < j < |factors + [(n, 1)]| ==> (factors + [(n, 1)])[i].0 < (factors + [(n, 1)])[j].0
  {
    var r := factors + [(n, 1)];
    forall i, j | 0 <= i < j < |r|
      ensures r[i].0 < r[j].0
    {
      assert r[i] == factors[i];
      if j < |factors| {
        assert r[j] == factors[j];
      }
    }
  }

  /** The candidate does not divide the cofactor. */
  lemma Pass(n0: int, n: int, previous: int, f: int, factors: seq<(int, int)>)
    requires Progress(n0, n, previous, factors) && previous < f && f * f <= n
    requires NoDivisorBelow(n, f) && n % f != 0
    ensures Progress(n0, n, f, factors)
  {
    MulMono(f, f, f, 1);
  }

  /** The candidate divides the cofactor and is divided out `e` times. */
  lemma Divide(n0: int, n: int, previous: int, f: int, factors: seq<(int, int)>, e: int, m: int)
    requires Progress(n0, n, previous, factors) && previous < f && f * f <= n
    requires NoDivisorBelow(n, f) && n % f == 0 && f >= 2
    requires e >= 1 && m >= 1 && m % f != 0 && Pow(f, e) * m == n && n % m == 0
    ensures Progress(n0, m, f, factors + [(f, e)])
  {
    MulMono(f, f, f, 1);
    FoundFactorPrime(n, f);
    CofactorDivisors(n, m, f);
    DivideProduct(factors, f, e, n, m);
    DividesBoundMod(m, n);
    var r := factors + [(f, e)];
    assert forall i :: 0 <= i < |factors| ==> r[i] == factors[i];
  }

  lemma CofactorDivisors(n: int, m: int, f: int)
    requires m >= 1 && f >= 2 && n % m == 0 && NoDivisorBelow(n, f) && m % f != 0
    ensures NoDivisorBelow(m, f + 1)
  {
    forall d | 2 <= d < f + 1
      ensures m % d != 0
    {
      if d < f && m % d == 0 {
        ModTrans(n, m, d);
      }
    }
  }

  lemma DivideProduct(factors: seq<(int, int)>, f: int, e: int, n: int, m: int)
    requires e >= 1 && Pow(f, e) * m == n
    ensures Product(factors) * n == Product(factors + [(f, e)]) * m
  {
    ProductSnoc(factors, f, e);
    MulAssoc(Product(factors), Pow(f, e), m);
  }

  lemma DividesBoundMod(m: int, n: int)
    requires m >= 1 && n >= 1 && n % m == 0
    ensures m <= n
  {
    DivModUnique(n / m, 0, m);
    assert n == m * (n / m);
    MulSign(m, n / m);
  }

  /** Dividing out every factor `f` of `n`: the exponent and the cofactor. */
  method DivideOut(n0: int, f: int) returns (e: int, n: int)
    requires n0 >= 1 && f >= 2 && n0 % f == 0
    ensures e >= 1 && n >= 1 && n % f != 0
    ensures Pow(f, e) * n == n0
    ensures n0 % n == 0
  {
    DivideOutStep(f, 0, n0, n0);
    e, n := 1, n0 / f;
    while n % f == 0
      invariant e >= 1 && n >= 1
      invariant Pow(f, e) * n == n0
      decreases n
    {
      DivideOutStep(f, e, n, n0);
      e, n := e + 1, n / f;
    }
    DivModUnique(Pow(f, e), 0, n);
  }

  /** One more factor `f` moves from the cofactor into the power. */
  lemma DivideOutStep(f: int, e: nat, n: int, n0: int)
    requires f >= 2 && n >= 1 && n % f == 0 && Pow(f, e) * n == n0
    ensures 1 <= n / f < n && Pow(f, e + 1) * (n / f) == n0
  {
    DivStep(n, f);
    var m, p := n / f, Pow(f, e);
    assert n == f * m;
    MulAssoc(f, p, m);
    MulSwap(f, p, m);
  }

  /** `factor(n)`: trial division by 2, 3, 5, 7 and then by the numbers a
      2-3-5 wheel leaves, dividing each factor out as it is found. */
  method Factor(n0: int) returns (factors: seq<(int, int)>)
    ensures n0 < 1 ==> factors == []
    ensures n0 >= 1 ==> IsFactorization(factors, n0)
  {
    factors := [];
    if n0 < 1 {
      return;
    }
    var n, f := n0, 1;
    while true
      invariant f == 1 || (f >= 11 && f % 30 == 11)
      invariant Progress(n0, n, f, factors)
      decreases n0 - f
    {
      var done;
      done, n, f, factors := Round(n0, n, f, factors);
      if done {
        return;
      }
    }
  }

  /** One pass of `factor`'s `for gap in ...` loop from the candidate `f0`:
      either the answer, or the state after the last candidate of the pass. */
  method Round(n0: int, n1: int, f0: int, factors0: seq<(int, int)>)
    returns (done: bool, n: int, f: int, factors: seq<(int, int)>)
    requires f0 == 1 || (f0 >= 11 && f0 % 30 == 11)
    requires Progress(n0, n1, f0, factors0)
    ensures done ==> IsFactorization(factors, n0)
    ensures !done ==> Progress(n0, n, f, factors)
    ensures !done ==> f0 < f <= n0 && f >= 11 && f % 30 == 11
  {
    n, f, factors := n1, f0, factors0;
    var gaps := if f < 11 then [1, 1, 2, 2, 4] else [2, 4, 2, 4, 6, 2, 6, 4];
    GapsOffsets(f0, gaps);
    for j := 0 to |gaps|
      invariant f == f0 + Offsets(f0)[j]
      invariant Progress(n0, n, f, factors)
    {
      var previous := f;
      f := f + gaps[j];
      Advance(n0, n, f0, j, factors);
      done, n, factors := Candidate(n0, n, previous, f, factors);
      if done {
        return;
      }
    }
    NextRound(f0, f);
    done := false;
  }

  /** The body of the `for` loop for the candidate `f`: stop when `f * f`
      exceeds the cofactor, otherwise divide `f` out if it is a factor. */
  method Candidate(n0: int, n0': int, previous: int, f: int, factors0: seq<(int, int)>)
    returns (done: bool, n: int, factors: seq<(int, int)>)
    requires Progress(n0, n0', previous, factors0) && previous < f && NoDivisorBelow(n0', f)
    ensures done ==> IsFactorization(factors, n0)
    ensures !done ==> Progress(n0, n, f, factors)
  {
    n, factors := n0', factors0;
    if f * f > n {
      Finish(n0, n, previous, f, factors);
      if n != 1 {
        factors := factors + [(n, 1)];
      }
      return true, n, factors;
    }
    if n % f == 0 {
      var e, m := DivideOut(n, f);
      Divide(n0, n, previous, f, factors, e, m);
      return false, m, factors + [(f, e)];
    }
    Pass(n0, n, previous, f, factors);
    done := false;
  }

  /** After a full round the candidate is the next number that is 11
      modulo 30. */
  lemma NextRound(f0: int, f: int)
    requires f0 == 1 || (f0 >= 11 && f0 % 30 == 11)
    requires f == f0 + Offsets(f0)[|Offsets(f0)| - 1]
    ensures f0 < f && f >= 11 && f % 30 == 11
  {
  }

  lemma ProductSnoc(factors: seq<(int, int)>, p: int, e: int)
    requires e >= 0
    ensures Product(factors + [(p, e)]) == Product(factors) * Pow(p, e)
  {
    assert (factors + [(p, e)])[..|factors|] == factors;
  }

  /** A divisor `f` of `n` found when no smaller number divides `n` is prime. */
  lemma FoundFactorPrime(n: int, f: int)
    requires n >= 1 && f >= 2 && n % f == 0 && NoDivisorBelow(n, f)
    ensures Prime(f)
  {
    forall d | 2 <= d < f
      ensures f % d != 0
    {
      if f % d == 0 {
        ModTrans(n, f, d);
      }
    }
  }

  // ---------------------------------------------------------------------
  // prime_list

  /** No `d` in `[3, i)` with `d * d <= x` divides `x`: what the sieve
      entry of the odd number `x` says once every odd `i' < i` has been
      processed. */
  ghost predicate Survives(x: int, i: int)
  {
    forall d :: 3 <= d < i && d * d <= x ==> x % d != 0
  }

  /** For odd `x >= 3`, primality only needs odd trial divisors up to the
      square root. */
  lemma OddPrime(x: int)
    requires x >= 3 && x % 2 == 1
    ensures Prime(x) <==> forall d :: 3 <= d && d * d <= x ==> x % d != 0
  {
    if forall d :: 3 <= d && d * d <= x ==> x % d != 0 {
      var b := Isqrt(x) + 1;
      forall d | 2 <= d < b
        ensures x % d != 0
      {
        if d == 2 {
        } else {
          MulMono(Isqrt(x), Isqrt(x), d, d);
        }
      }
      NoSmallDivisorPrime(x, b);
    }
    if Prime(x) {
      forall d | 3 <= d && d * d <= x
        ensures x % d != 0
      {
        MulMono(d, d, d, 3);
      }
    }
  }

  lemma OddTimes(i: int, m: int)
    requires i % 2 == 1 && (i * m) % 2 == 0
    ensures m % 2 == 0
  {
    var p := i / 2;
    assert i == 2 * p + 1;
    assert i * m == 2 * (p * m) + m by {
      assert i * m == (2 * p + 1) * m;
    }
    ModAddMultiple(p * m, m, 2);
  }

  /** The sieve index `t` stands for `x = 2t + 1`; the slice from
      `(i * i) // 2` with step `i` holds exactly the odd multiples of `i`
      from `i * i` on. */
  lemma MarkedIff(t: int, i: int)
    requires t >= 1 && i >= 3 && i % 2 == 1
    ensures var a := (i * i) / 2; var x := 2 * t + 1;
      (a <= t && (t - a) % i == 0) <==> (i * i <= x && x % i == 0)
  {
    OddSquare(i);
    var a, x := (i * i) / 2, 2 * t + 1;
    if a <= t && (t - a) % i == 0 {
      MarkedIsMultiple(t, i);
    }
    if i * i <= x && x % i == 0 {
      MultipleIsMarked(t, i);
    }
  }

  lemma MarkedIsMultiple(t: int, i: int)
    requires t >= 1 && i >= 3 && i % 2 == 1 && i * i == 2 * ((i * i) / 2) + 1
    requires (i * i) / 2 <= t && (t - (i * i) / 2) % i == 0
    ensures i * i <= 2 * t + 1 && (2 * t + 1) % i == 0
  {
    var a := (i * i) / 2;
    var k := (t - a) / i;
    assert t - a == i * k && k >= 0;
    MarkedArith(i, i * i, a, k, t);
    DivModUnique(i + 2 * k, 0, i);
  }

  lemma MarkedArith(i: int, sq: int, a: int, k: int, t: int)
    requires i >= 3 && k >= 0 && sq == i * i && sq == 2 * a + 1 && t - a == i * k
    ensures sq <= 2 * t + 1 && 2 * t + 1 == (i + 2 * k) * i + 0
  {
    assert (i + 2 * k) * i == i * i + 2 * (i * k);
  }

  lemma MultipleIsMarked(t: int, i: int)
    requires t >= 1 && i >= 3 && i % 2 == 1 && i * i == 2 * ((i * i) / 2) + 1
    requires i * i <= 2 * t + 1 && (2 * t + 1) % i == 0
    ensures (i * i) / 2 <= t && (t - (i * i) / 2) % i == 0
  {
    var a, x := (i * i) / 2, 2 * t + 1;
    var c := x / i;
    assert x == i * c;
    UnmarkedArith(i, i * i, a, c, t);
    MultipleMod(i * (c - i), 2, t - a);
    OddTimes(i, c - i);
    var h := (c - i) / 2;
    HalfArith(i, c, h, t, a);
    DivModUnique(h, 0, i);
  }

  lemma UnmarkedArith(i: int, sq: int, a: int, c: int, t: int)
    requires sq == i * i && sq == 2 * a + 1 && 2 * t + 1 == i * c
    ensures i * (c - i) == 2 * (t - a)
  {
    assert i * (c - i) == i * c - i * i;
  }

  lemma HalfArith(i: int, c: int, h: int, t: int, a: int)
    requires c - i == 2 * h && i * (c - i) == 2 * (t - a)
    ensures t - a == h * i + 0
  {
    assert i * (c - i) == 2 * (h * i);
  }

  lemma OddSquare(i: int)
    requires i % 2 == 1
    ensures (i * i) % 2 == 1 && i * i == 2 * ((i * i) / 2) + 1
  {
    var p := i / 2;
    assert i * i == 2 * (2 * p * p + 2 * p) + 1 by {
      assert i == 2 * p + 1;
    }
    ModAddMultiple(2 * p * p + 2 * p, 1, 2);
  }

  /** `(x // a) // b == x // (a * b)` for positive `a`, `b`. */
  lemma NestedDiv(x: int, a: int, b: int)
    requires x >= 0 && a > 0 && b > 0
    ensures x / a / b == x / (a * b)
  {
    var q1, r1 := x / a, x % a;
    var q2, r2 := q1 / b, q1 % b;
    assert x == a * q1 + r1 && q1 == b * q2 + r2;
    assert x == (a * b) * q2 + (a * r2 + r1) by {
      assert a * q1 == a * (b * q2) + a * r2;
    }
    MulMono(a, b - 1, a, r2);
    assert a * (b - 1) == a * b - a;
    DivModUnique(q2, a * r2 + r1, a * b);
    assert (a * b) * q2 == q2 * (a * b);
  }

  /** The slice `sieve[i * i // 2::i]` of a list of length `n // 2` is as
      long as the list `[False] * ((n - i * i - 1) // (2 * i) + 1)` assigned
      to it, so the assignment never fails. */
  lemma SliceLengthsAgree(n: int, i: int)
    requires i >= 3 && i % 2 == 1 && i * i < n
    ensures var a, len := (i * i) / 2, n / 2;
      a < len && (len - 1 - a) / i + 1 == (n - i * i - 1) / (2 * i) + 1
  {
    var a, len := (i * i) / 2, n / 2;
    OddSquare(i);
    var m := n - i * i - 1;
    assert len - 1 - a == m / 2 by {
      assert n == 2 * len + n % 2;
    }
    NestedDiv(m, 2, i);
  }

  /** `prime_list(n)` over a sieve of the odd numbers: entry `t` stands for
      `2t + 1`.  The source's `sqrt` fails for negative `n`; its
      `range(3, ceil(sqrt(n)), 2)` is the odd `i >= 3` with `i * i < n`. */
  method PrimeList(n: int) returns (r: Result<seq<int>, Halt>)
    ensures n < 0 <==> r == Failure(MathDomainError)
    ensures 0 <= n <= 2 ==> r == Success([2])
    ensures n >= 3 ==> r.Success? && (forall p :: p in r.value <==> Prime(p) && p < n)
    ensures n >= 3 ==> r.Success? && forall a, b :: 0 <= a < b < |r.value| ==> r.value[a] < r.value[b]
  {
    if n < 0 {
      return Failure(MathDomainError);
    }
    var len := n / 2;
    var sieve := new bool[len](_ => true);
    var i := 3;
    while i * i < n
      invariant i >= 3 && i % 2 == 1
      invariant forall t :: 1 <= t < len ==> sieve[t] == Survives(2 * t + 1, i)
      decreases n - i
    {
      SliceLengthsAgree(n, i);
      MulMono(i, i, i, 1);
      if sieve[i / 2] {
        ghost var before := sieve[..];
        MarkMultiples(sieve, (i * i) / 2, i);
        MarkingStep(before, sieve[..], i, len);
      } else {
        SkipStep(sieve[..], i);
      }
      ModAddMultiple(1, i, 2);
      i := i + 2;
    }
    var primes := CollectPrimes(sieve, i, n);
    return Success(primes);
  }

  /** `[2] + [2 * t + 1 for t in range(1, n // 2) if sieve[t]]`. */
  method CollectPrimes(sieve: array<bool>, i: int, n: int) returns (primes: seq<int>)
    requires n >= 0 && sieve.Length == n / 2 && i >= 3 && i * i >= n
    requires forall t :: 1 <= t < sieve.Length ==> sieve[t] == Survives(2 * t + 1, i)
    ensures n <= 2 ==> primes == [2]
    ensures n >= 3 ==> forall p :: p in primes <==> Prime(p) && p < n
    ensures forall a, b :: 0 <= a < b < |primes| ==> primes[a] < primes[b]
  {
    primes := [2];
    var t := 1;
    while t < sieve.Length
      invariant 1 <= t && (sieve.Length >= 1 ==> t <= sieve.Length) && |primes| >= 1
      invariant sieve.Length <= 1 ==> primes == [2]
      invariant forall p :: p in primes <==> p == 2 || (3 <= p < 2 * t + 1 && p % 2 == 1 && Prime(p))
      invariant forall a, b :: 0 <= a < b < |primes| ==> primes[a] < primes[b]
      invariant primes[|primes| - 1] < 2 * t + 1 && primes[0] == 2
    {
      ModAddMultiple(t, 1, 2);
      SievedPrime(2 * t + 1, i, n);
      assert sieve[t] == Survives(2 * t + 1, i);
      var next := if sieve[t] then primes + [2 * t + 1] else primes;
      CollectStep(primes, next, t);
      primes := next;
      t := t + 1;
    }
    forall p | Prime(p) && p < n && p != 2
      ensures 3 <= p < 2 * t + 1 && p % 2 == 1
    {
    }
  }

  /** `sieve[a::i] = [False] * ...`: clears every `i`-th entry from `a`
      on, and nothing else. */
  method MarkMultiples(sieve: array<bool>, a: int, i: int)
    requires 0 <= a && i > 0
    modifies sieve
    ensures forall t :: 0 <= t < sieve.Length ==>
      sieve[t] == (old(sieve[t]) && !Marked(t, a, sieve.Length, i))
  {
    var j := a;
    while j < sieve.Length
      invariant a <= j && (j - a) % i == 0
      invariant forall t :: 0 <= t < sieve.Length ==> sieve[t] == (old(sieve[t]) && !Marked(t, a, j, i))
      decreases sieve.Length - j
    {
      sieve[j] := false;
      forall t | 0 <= t < sieve.Length
        ensures Marked(t, a, j + i, i) <==> Marked(t, a, j, i) || t == j
      {
        StepResidue(t, j, a, i);
      }
      ModAddMultiple(1, j - a, i);
      j := j + i;
    }
  }

  /** Appending the entry `2t + 1` when it is prime keeps `primes` equal to
      the primes below the next entry. */
  lemma CollectStep(primes: seq<int>, next: seq<int>, t: int)
    requires t >= 1
    requires forall p :: p in primes <==> p == 2 || (3 <= p < 2 * t + 1 && p % 2 == 1 && Prime(p))
    requires next == if Prime(2 * t + 1) then primes + [2 * t + 1] else primes
    ensures forall p :: p in next <==> p == 2 || (3 <= p < 2 * t + 3 && p % 2 == 1 && Prime(p))
  {
    ModAddMultiple(t, 1, 2);
    ModAddMultiple(t + 1, 0, 2);
    assert (2 * t + 2) % 2 == 0;
  }

  /** Index `t` of the slice `[a:j:i]`. */
  ghost predicate Marked(t: int, a: int, j: int, i: int)
    requires i > 0
  {
    a <= t < j && (t - a) % i == 0
  }

  /** Marking the slice of a surviving `i` moves the sieve from `i` to
      `i + 2`. */
  lemma MarkingStep(before: seq<bool>, after: seq<bool>, i: int, j: int)
    requires |before| == |after| <= j && i >= 3 && i % 2 == 1 && |before| > i / 2
    requires forall t :: 1 <= t < |before| ==> before[t] == Survives(2 * t + 1, i)
    requires before[i / 2]
    requires forall t :: 0 <= t < |after| ==> after[t] == (before[t] && !Marked(t, (i * i) / 2, j, i))
    ensures forall t :: 1 <= t < |after| ==> after[t] == Survives(2 * t + 1, i + 2)
  {
    assert 2 * (i / 2) + 1 == i;
    assert Survives(i, i);
    forall t | 1 <= t < |after|
      ensures after[t] == Survives(2 * t + 1, i + 2)
    {
      MarkedEntry(before[t], after[t], t, i, j);
    }
  }

  lemma MarkedEntry(b: bool, c: bool, t: int, i: int, j: int)
    requires t >= 1 && t < j && i >= 3 && i % 2 == 1 && Survives(i, i)
    requires b == Survives(2 * t + 1, i)
    requires c == (b && !Marked(t, (i * i) / 2, j, i))
    ensures c == Survives(2 * t + 1, i + 2)
  {
    MarkedIff(t, i);
    ModAddMultiple(t, 1, 2);
    SurvivesStep(2 * t + 1, i, true);
  }

  /** A composite `i` marks nothing and still moves the sieve to `i + 2`. */
  lemma SkipStep(sieve: seq<bool>, i: int)
    requires i >= 3 && i % 2 == 1 && |sieve| > i / 2
    requires forall t :: 1 <= t < |sieve| ==> sieve[t] == Survives(2 * t + 1, i)
    requires !sieve[i / 2]
    ensures forall t :: 1 <= t < |sieve| ==> sieve[t] == Survives(2 * t + 1, i + 2)
  {
    assert 2 * (i / 2) + 1 == i;
    assert !Survives(i, i);
    forall t | 1 <= t < |sieve|
      ensures sieve[t] == Survives(2 * t + 1, i + 2)
    {
      ModAddMultiple(t, 1, 2);
      SurvivesStep(2 * t + 1, i, false);
    }
  }

  lemma StepResidue(t: int, j: int, a: int, i: int)
    requires i > 0 && a <= j && (j - a) % i == 0
    ensures Marked(t, a, j + i, i) <==> Marked(t, a, j, i) || t == j
  {
    if a <= t < j + i && (t - a) % i == 0 && !(t < j) {
      var k := (j - a) / i;
      assert j - a == i * k;
      DivModUnique(k, t - j, i);
      assert t - a == k * i + (t - j);
    }
    if t == j {
    }
  }

  /** Processing the odd number `i`: marking its odd multiples from `i * i`
      on when its entry survives, and nothing otherwise, moves every entry
      from `Survives(x, i)` to `Survives(x, i + 2)`. */
  lemma SurvivesStep(x: int, i: int, marked: bool)
    requires x >= 3 && x % 2 == 1 && i >= 3 && i % 2 == 1
    requires marked ==> Survives(i, i)
    requires !marked ==> !Survives(i, i)
    ensures Survives(x, i + 2) == (Survives(x, i) && !(i * i <= x && x % i == 0))
    ensures !marked ==> Survives(x, i + 2) == Survives(x, i)
  {
    SurvivesEven(x, i);
    assert Survives(x, i + 1) == (Survives(x, i) && !(i * i <= x && x % i == 0));
    if !marked && i * i <= x && x % i == 0 {
      CompositeMultiples(x, i);
    }
  }

  lemma SurvivesEven(x: int, i: int)
    requires x % 2 == 1 && i % 2 == 1 && i >= 3
    ensures Survives(x, i + 2) == Survives(x, i + 1)
  {
    NotMultipleOf(x, i + 1, 2);
  }

  lemma CompositeMultiples(x: int, i: int)
    requires i >= 3 && !Survives(i, i) && i * i <= x && x % i == 0
    ensures !Survives(x, i)
  {
    var d :| 3 <= d < i && d * d <= i && i % d == 0;
    ModTrans(x, i, d);
    MulMono(i, i, i, 1);
  }

  /** After the sieve, an entry `x < n` survives exactly when `x` is prime. */
  lemma SievedPrime(x: int, i: int, n: int)
    requires x >= 3 && x % 2 == 1 && x < n && i >= 3 && i * i >= n
    ensures Survives(x, i) <==> Prime(x)
  {
    OddPrime(x);
    forall d | 3 <= d && d * d <= x && d >= i
      ensures false
    {
      MulMono(d, d, i, i);
    }
  }

  // ---------------------------------------------------------------------
  // palindrome_list

  ghost predicate IsDigits(ds: seq<int>)
  {
    forall i :: 0 <= i < |ds| ==> 0 <= ds[i] < 10
  }

  /** `[d] + t` for each list `t` of `ts`. */
  function Prepended(d: int, ts: seq<seq<int>>): (r: seq<seq<int>>)
    ensures |r| == |ts| && forall i :: 0 <= i < |ts| ==> r[i] == [d] + ts[i]
  {
    seq(|ts|, i requires 0 <= i < |ts| => [d] + ts[i])
  }

  function PrependedTo(ts: seq<seq<int>>): int -> seq<seq<int>>
  {
    (d: int) => Prepended(d, ts)
  }

  /** `product(range(10), repeat=m)`, each tuple as a list; the first
      position varies slowest. */
  function Tuples(m: nat): seq<seq<int>>
  {
    if m == 0 then [[]] else FlatMap(Range(0, 10), PrependedTo(Tuples(m - 1)))
  }

  lemma PrependedIn(d: int, ts: seq<seq<int>>, t: seq<int>)
    ensures t in Prepended(d, ts) <==> |t| >= 1 && t[0] == d && t[1..] in ts
  {
    if |t| >= 1 && t[0] == d && t[1..] in ts {
      var k :| 0 <= k < |ts| && ts[k] == t[1..];
      assert Prepended(d, ts)[k] == t;
    }
  }

  lemma {:induction false} TuplesAll(m: nat)
    ensures |Tuples(m)| == Pow(10, m)
    ensures forall t :: t in Tuples(m) <==> |t| == m && IsDigits(t)
  {
    if m > 0 {
      TuplesAll(m - 1);
      var rest := Tuples(m - 1);
      var f := PrependedTo(rest);
      forall d | d in Range(0, 10)
        ensures |f(d)| == |rest|
      {
      }
      FlatMapLength(Range(0, 10), f, |rest|);
      forall t
        ensures t in Tuples(m) <==> |t| == m && IsDigits(t)
      {
        TupleIn(m, t);
      }
    }
  }

  lemma TupleIn(m: nat, t: seq<int>)
    requires m > 0
    requires forall u :: u in Tuples(m - 1) <==> |u| == m - 1 && IsDigits(u)
    ensures t in Tuples(m) <==> |t| == m && IsDigits(t)
  {
    var rest := Tuples(m - 1);
    var f := PrependedTo(rest);
    assert Tuples(m) == FlatMap(Range(0, 10), f);
    FlatMapIn(Range(0, 10), f, t);
    if t in Tuples(m) {
      TupleInForward(m, t, f);
    }
    if |t| == m && IsDigits(t) {
      assert IsDigits(t[1..]);
      PrependedIn(t[0], rest, t);
      assert t in f(t[0]);
      assert t[0] in Range(0, 10);
    }
  }

  lemma TupleInForward(m: nat, t: seq<int>, f: int -> seq<seq<int>>)
    requires m > 0 && f == PrependedTo(Tuples(m - 1))
    requires forall u :: u in Tuples(m - 1) <==> |u| == m - 1 && IsDigits(u)
    requires exists d :: d in Range(0, 10) && t in f(d)
    ensures |t| == m && IsDigits(t)
  {
    var d :| d in Range(0, 10) && t in f(d);
    var rest := Tuples(m - 1);
    assert t in Prepended(d, rest);
    PrependedIn(d, rest, t);
    assert IsDigits(t[1..]);
    forall i | 0 <= i < |t|
      ensures 0 <= t[i] < 10
    {
      if i > 0 {
        assert t[i] == t[1..][i - 1];
      }
    }
  }

  /** The middle digit of a palindrome with an odd number of digits. */
  function Middle(z: Option<int>): seq<int>
  {
    if z.Some? then [z.value] else []
  }

  /** `[x] + ys + [z] + ys[::-1] + [x]`, without `[z]` when `k` is even. */
  function Mirror(x: int, ys: seq<int>, z: Option<int>): seq<int>
  {
    [x] + ys + Middle(z) + Reverse(ys) + [x]
  }

  /** `sum(n * 10 ** i for i, n in enumerate(ds))`: the first digit is the
      least significant. */
  function Weighted(ds: seq<int>): int
  {
    if ds == [] then 0 else ds[0] + 10 * Weighted(ds[1..])
  }

  /** `range(10) if k % 2 else (None,)`. */
  function Middles(k: int): seq<Option<int>>
  {
    if k % 2 == 1 then seq(10, d requires 0 <= d < 10 => Some(d)) else [None]
  }

  lemma MiddlesShape(k: int)
    ensures |Middles(k)| == if k % 2 == 1 then 10 else 1
    ensures forall j :: 0 <= j < |Middles(k)| ==>
      Middles(k)[j] == if k % 2 == 1 then Some(j) else None
  {
  }

  lemma MiddleDigit(k: int, i: int)
    requires 0 <= i < |Middles(k)|
    ensures Middles(k)[i].Some? <==> k % 2 == 1
    ensures Middles(k)[i].Some? ==> 0 <= Middles(k)[i].value < 10
  {
    MiddlesShape(k);
  }

  /** The digit lists for one leading digit `x` and one tuple `ys`. */
  function Cells(x: int, zs: seq<Option<int>>): seq<int> -> seq<seq<int>>
  {
    (ys: seq<int>) => seq(|zs|, i requires 0 <= i < |zs| => Mirror(x, ys, zs[i]))
  }

  /** The digit lists for one leading digit `x`. */
  function Rows(tuples: seq<seq<int>>, zs: seq<Option<int>>): int -> seq<seq<int>>
  {
    (x: int) => FlatMap(tuples, Cells(x, zs))
  }

  /** The digit lists the comprehension of `palindrome_list(k)` walks
      through, in its order. */
  function MirrorLists(k: int): seq<seq<int>>
    requires k >= 2
  {
    Listed(k / 2 - 1, Middles(k))
  }

  /** The digit lists for `h` free digits after the leading one and the
      middles `zs`. */
  function Listed(h: nat, zs: seq<Option<int>>): seq<seq<int>>
  {
    FlatMap(Range(1, 10), Rows(Tuples(h), zs))
  }

  /** `[sum(...) for ...]`: the comprehension's element is the weighted sum
      of each digit list. */
  function Sums(lists: seq<seq<int>>): (r: seq<int>)
    ensures |r| == |lists|
  {
    seq(|lists|, i requires 0 <= i < |lists| => Weighted(lists[i]))
  }

  /** `palindrome_list(k)`.  Apart from `k == 1`, which is answered
      directly, the repeat count `k // 2 - 1` handed to `product` is negative
      exactly when `k <= 0`, and `product` then raises `ValueError`: `None`. */
  function PalindromeList(k: int): Option<seq<int>>
  {
    if k <= 0 then None
    else if k == 1 then Some([1, 2, 3, 4, 5, 6, 7, 8, 9])
    else Some(Sums(MirrorLists(k)))
  }

  /** `ds` reads the same from both ends: `ds == ds[::-1]`, entry by
      entry (see `PalindromeWeighted`). */
  ghost predicate IsPalindrome(ds: seq<int>)
  {
    forall i :: 0 <= i < |ds| ==> Mirrored(ds, i)
  }

  ghost predicate Mirrored(ds: seq<int>, i: int)
    requires 0 <= i < |ds|
  {
    ds[i] == ds[|ds| - 1 - i]
  }

  /** The decimal digits of a palindromic number with `k` digits, most
      significant first. */
  ghost predicate PalindromeDigits(ds: seq<int>, k: int)
  {
    |ds| == k && k >= 1 && IsDigits(ds) && ds[0] != 0 && IsPalindrome(ds)
  }

  ghost predicate Palindromic(r: int, k: int)
  {
    exists ds :: PalindromeDigits(ds, k) && Value(ds, 10) == r
  }

  lemma {:induction false} WeightedValue(ds: seq<int>)
    ensures Weighted(ds) == Value(Reverse(ds), 10)
  {
    if ds != [] {
      WeightedValue(ds[1..]);
      assert Reverse(ds) == Reverse(ds[1..]) + [ds[0]];
      ValueSnoc(Reverse(ds[1..]), ds[0], 10);
    }
  }

  /** The source's little-endian sum reads a palindrome as its decimal
      value. */
  lemma PalindromeWeighted(ds: seq<int>)
    requires IsPalindrome(ds)
    ensures Weighted(ds) == Value(ds, 10)
  {
    WeightedValue(ds);
    forall i | 0 <= i < |ds|
      ensures Reverse(ds)[i] == ds[i]
    {
      ReverseAt(ds, i);
      assert Mirrored(ds, i);
    }
    assert Reverse(ds) == ds;
  }

  /** The mirror list is its first half, the middle digit and the first
      half reversed. */
  lemma MirrorHalves(x: int, ys: seq<int>, z: Option<int>)
    ensures Mirror(x, ys, z) == ([x] + ys) + Middle(z) + Reverse([x] + ys)
  {
    ReverseConcat([x], ys);
  }

  lemma MirrorShape(x: int, ys: seq<int>, z: Option<int>)
    ensures IsPalindrome(Mirror(x, ys, z))
    ensures |Mirror(x, ys, z)| == 2 * |ys| + 2 + |Middle(z)|
    ensures Mirror(x, ys, z)[0] == x
  {
    var half, mid := [x] + ys, Middle(z);
    var m := Mirror(x, ys, z);
    MirrorHalves(x, ys, z);
    forall i | 0 <= i < |m|
      ensures Mirrored(m, i)
    {
      var j := |m| - 1 - i;
      if i < |half| {
        ReverseAt(half, |half| - 1 - i);
        assert m[j] == Reverse(half)[|half| - 1 - i];
      } else if i >= |half| + |mid| {
        var q := i - |half| - |mid|;
        ReverseAt(half, q);
        assert m[i] == Reverse(half)[q];
      }
    }
  }

  /** A palindrome is the mirror image of its first half. */
  lemma MirrorOf(ds: seq<int>, k: int, h: int, z: Option<int>)
    requires |ds| == k && k >= 2 && IsPalindrome(ds) && h == k / 2 - 1
    requires z == if k % 2 == 1 then Some(ds[h + 1]) else None
    ensures Mirror(ds[0], ds[1..h + 1], z) == ds
  {
    var tail := k - h - 1;
    assert [ds[0]] + ds[1..h + 1] == ds[..h + 1];
    MirrorHalves(ds[0], ds[1..h + 1], z);
    assert Middle(z) == ds[h + 1..tail];
    PalindromeTail(ds, h + 1);
    SplitThree(ds, h + 1, tail);
  }

  /** The last `n` entries of a palindrome are its first `n` reversed. */
  lemma PalindromeTail(ds: seq<int>, n: int)
    requires IsPalindrome(ds) && 0 <= n <= |ds|
    ensures ds[|ds| - n..] == Reverse(ds[..n])
  {
    forall i | 0 <= i < n
      ensures ds[|ds| - n..][i] == Reverse(ds[..n])[i]
    {
      ReverseAt(ds[..n], i);
      assert Mirrored(ds, n - 1 - i);
    }
  }

  lemma SplitThree(ds: seq<int>, i: int, j: int)
    requires 0 <= i <= j <= |ds|
    ensures ds == ds[..i] + ds[i..j] + ds[j..]
  {
  }

  lemma MirrorDigits(x: int, ys: seq<int>, z: Option<int>)
    requires 1 <= x < 10 && IsDigits(ys) && (z.Some? ==> 0 <= z.value < 10)
    ensures IsDigits(Mirror(x, ys, z))
  {
    forall i | 0 <= i < |ys|
      ensures 0 <= Reverse(ys)[i] < 10
    {
      ReverseAt(ys, i);
    }
  }

  lemma MirrorListsLength(k: int)
    requires k >= 2
    ensures |MirrorLists(k)| == 9 * Pow(10, (k - 1) / 2)
  {
    var h := k / 2 - 1;
    RowsLength(Range(1, 10), h, Tuples(h), Middles(k));
    CountExponent(k);
  }

  lemma RowsLength(xs: seq<int>, h: nat, tuples: seq<seq<int>>, zs: seq<Option<int>>)
    requires tuples == Tuples(h)
    ensures |FlatMap(xs, Rows(tuples, zs))| == |xs| * (Pow(10, h) * |zs|)
  {
    var rows := Rows(tuples, zs);
    var c := Pow(10, h) * |zs|;
    PowPositive(10, h);
    MulSign(Pow(10, h), |zs|);
    TuplesAll(h);
    forall x | x in xs
      ensures |rows(x)| == c
    {
      assert rows(x) == FlatMap(tuples, Cells(x, zs));
      FlatMapLength(tuples, Cells(x, zs), |zs|);
    }
    FlatMapLength(xs, rows, c);
  }

  lemma CountExponent(k: int)
    requires k >= 2
    ensures Pow(10, k / 2 - 1) * |Middles(k)| == Pow(10, (k - 1) / 2)
  {
    var h := k / 2 - 1;
    if k % 2 == 1 {
      assert (k - 1) / 2 == h + 1;
      assert Pow(10, h + 1) == 10 * Pow(10, h);
    } else {
      assert (k - 1) / 2 == h;
    }
  }

  /** Every digit list the comprehension builds is that of a palindrome
      with `k` digits. */
  lemma {:induction false} MirrorListsSound(k: int, ds: seq<int>)
    requires k >= 2 && ds in MirrorLists(k)
    ensures PalindromeDigits(ds, k)
  {
    ListedSound(k, k / 2 - 1, ds);
  }

  lemma ListedSound(k: int, h: nat, ds: seq<int>)
    requires k >= 2 && h == k / 2 - 1
    requires ds in MirrorLists(k)
    ensures PalindromeDigits(ds, k)
  {
    assert ds in Listed(h, Middles(k));
    var zs := Middles(k);
    var x, ys, i := ListedParts(Tuples(h), zs, ds);
    TuplesAll(h);
    assert |ys| == h && IsDigits(ys);
    MiddleDigit(k, i);
    CellPalindromic(k, h, x, ys, zs[i]);
  }

  /** A listed digit list comes from one leading digit, one tuple and one
      middle. */
  lemma ListedParts(tuples: seq<seq<int>>, zs: seq<Option<int>>, ds: seq<int>)
    returns (x: int, ys: seq<int>, i: int)
    requires ds in FlatMap(Range(1, 10), Rows(tuples, zs))
    ensures 1 <= x < 10 && ys in tuples && 0 <= i < |zs| && Mirror(x, ys, zs[i]) == ds
  {
    FlatMapIn(Range(1, 10), Rows(tuples, zs), ds);
    x :| x in Range(1, 10) && ds in Rows(tuples, zs)(x);
    FlatMapIn(tuples, Cells(x, zs), ds);
    ys :| ys in tuples && ds in Cells(x, zs)(ys);
    i := CellIndex(x, zs, ys, ds);
  }

  lemma CellIndex(x: int, zs: seq<Option<int>>, ys: seq<int>, ds: seq<int>) returns (i: int)
    requires ds in Cells(x, zs)(ys)
    ensures 0 <= i < |zs| && Mirror(x, ys, zs[i]) == ds
  {
    var cells := Cells(x, zs)(ys);
    i :| 0 <= i < |cells| && cells[i] == ds;
  }

  lemma CellPalindromic(k: int, h: nat, x: int, ys: seq<int>, z: Option<int>)
    requires k >= 2 && h == k / 2 - 1 && 1 <= x < 10 && |ys| == h && IsDigits(ys)
    requires (z.Some? <==> k % 2 == 1) && (z.Some? ==> 0 <= z.value < 10)
    ensures PalindromeDigits(Mirror(x, ys, z), k)
  {
    MirrorShape(x, ys, z);
    MirrorDigits(x, ys, z);
  }

  /** The digit list of every palindrome with `k` digits is built. */
  lemma MirrorListsComplete(k: int, ds: seq<int>)
    requires PalindromeDigits(ds, k) && k >= 2
    ensures ds in MirrorLists(k)
  {
    var h := k / 2 - 1;
    var z := if k % 2 == 1 then Some(ds[h + 1]) else None;
    assert z.Some? ==> 0 <= z.value < 10;
    MirrorOf(ds, k, h, z);
    SliceIsTuple(ds, h);
    CellListed(k, h, ds[0], ds[1..h + 1], z);
  }

  /** The digit list built from a leading digit, a tuple and a middle digit
      of the right kind is listed. */
  lemma CellListed(k: int, h: nat, x: int, ys: seq<int>, z: Option<int>)
    requires k >= 2 && h == k / 2 - 1 && 1 <= x < 10 && ys in Tuples(h)
    requires (z.Some? <==> k % 2 == 1) && (z.Some? ==> 0 <= z.value < 10)
    ensures Mirror(x, ys, z) in MirrorLists(k)
  {
    var tuples, zs := Tuples(h), Middles(k);
    var ds := Mirror(x, ys, z);
    var i := if z.Some? then z.value else 0;
    MiddlesShape(k);
    assert Cells(x, zs)(ys)[i] == ds;
    FlatMapIn(tuples, Cells(x, zs), ds);
    assert ds in Rows(tuples, zs)(x);
    LeadingDigit(x);
    FlatMapIn(Range(1, 10), Rows(tuples, zs), ds);
  }

  lemma SliceIsTuple(ds: seq<int>, h: nat)
    requires IsDigits(ds) && h + 1 <= |ds|
    ensures ds[1..h + 1] in Tuples(h)
  {
    var t := ds[1..h + 1];
    forall i | 0 <= i < |t|
      ensures 0 <= t[i] < 10
    {
      assert t[i] == ds[i + 1];
    }
    assert |t| == h && IsDigits(t);
    InTuples(t, h);
  }

  lemma InTuples(t: seq<int>, h: nat)
    requires |t| == h && IsDigits(t)
    ensures t in Tuples(h)
  {
    TuplesAll(h);
  }

  lemma LeadingDigit(x: int)
    requires 1 <= x < 10
    ensures x in Range(1, 10)
  {
  }

  /** `palindrome_list(k)` raises exactly when `k <= 0`. */
  lemma PalindromeListError(k: int)
    ensures PalindromeList(k).None? <==> k <= 0
  {
  }

  /** `palindrome_list(k)` lists `9 * 10 ** ((k - 1) // 2)` numbers: a
      leading digit and then free digits up to the middle. */
  lemma PalindromeListLength(k: int)
    requires k >= 1
    ensures PalindromeList(k).Some? && |PalindromeList(k).value| == 9 * Pow(10, (k - 1) / 2)
  {
    if k >= 2 {
      MirrorListsLength(k);
    }
  }

  /** Every number `palindrome_list(k)` lists is a palindrome with `k`
      digits. */
  lemma PalindromeListSound(k: int, r: int)
    requires k >= 1 && PalindromeList(k).Some? && r in PalindromeList(k).value
    ensures Palindromic(r, k)
  {
    if k == 1 {
      assert PalindromeDigits([r], 1) && Value([r], 10) == r;
    } else {
      var lists := MirrorLists(k);
      var i :| 0 <= i < |lists| && Sums(lists)[i] == r;
      MirrorListsSound(k, lists[i]);
      PalindromeWeighted(lists[i]);
    }
  }

  /** Every palindrome with `k` digits is listed by `palindrome_list(k)`. */
  lemma PalindromeListComplete(k: int, ds: seq<int>)
    requires PalindromeDigits(ds, k)
    ensures PalindromeList(k).Some? && Value(ds, 10) in PalindromeList(k).value
  {
    if k == 1 {
      assert Value(ds, 10) == ds[0];
    } else {
      var lists := MirrorLists(k);
      MirrorListsComplete(k, ds);
      var i :| 0 <= i < |lists| && lists[i] == ds;
      PalindromeWeighted(ds);
      assert Sums(lists)[i] == Value(ds, 10);
    }
  }

  // ---------------------------------------------------------------------
  // phi

  /** `itertools.combinations(s, r)`, each tuple as a list: the
      `r`-element subsequences of `s`, ordered by their positions in `s`, so
      that those holding `s[0]` come first. */
  function Combinations(s: seq<int>, r: nat): seq<seq<int>>
  {
    if r == 0 then [[]]
    else if s == [] then []
    else Prepended(s[0], Combinations(s[1..], r - 1)) + Combinations(s[1..], r)
  }

  /** `reduce(lambda x, y: x * y, primes)` for a non-empty `primes`; the
      empty product is 1. */
  function Prod(s: seq<int>): int
  {
    if s == [] then 1 else s[0] * Prod(s[1..])
  }

  /** The sum of `m // Prod(c)` over the lists `cs`, added up in their
      order. */
  function QuotientSum(cs: seq<seq<int>>, m: int): int
  {
    if cs == [] then 0 else QuotientSum(cs[..|cs| - 1], m) + Quotient(m, Prod(cs[|cs| - 1]))
  }

  /** `m // d`.  The quotient by zero, never needed here since the products
      are of primes, is taken as 0. */
  function Quotient(m: int, d: int): int
  {
    if d == 0 then 0 else m / d
  }

  /** `(-1) ** r * x`. */
  function Signed(r: int, x: int): int
  {
    if r % 2 == 0 then x else -x
  }

  /** The inclusion-exclusion sum over the combinations of at most `r`
      elements of `s`: `m // Prod(c)` with sign `(-1) ** len(c)`.  The
      empty combination contributes `m` itself, which is where `phi` starts
      `res`. */
  function SignedSum(s: seq<int>, m: int, r: int): int
    decreases r + 1
  {
    if r < 0 then 0 else SignedSum(s, m, r - 1) + Signed(r, QuotientSum(Combinations(s, r), m))
  }

  function InclusionExclusion(s: seq<int>, m: int): int
  {
    SignedSum(s, m, |s|)
  }

  /** The product of `p - 1` over `s`. */
  function Totients(s: seq<int>): int
  {
    if s == [] then 1 else (s[0] - 1) * Totients(s[1..])
  }

  /** `[f[0] for f in factors]`. */
  function Bases(factors: seq<(int, int)>): (ps: seq<int>)
    ensures |ps| == |factors| && forall i :: 0 <= i < |factors| ==> ps[i] == factors[i].0
  {
    seq(|factors|, i requires 0 <= i < |factors| => factors[i].0)
  }

  /** The product of `p ** (e - 1)` over a factorization. */
  function Excess(factors: seq<(int, int)>): int
  {
    if factors == [] then 1
    else
      var last := factors[|factors| - 1];
      Excess(factors[..|factors| - 1]) * Pow(last.0, if last.1 < 1 then 0 else last.1 - 1)
  }

  /** Euler's product formula: the product of `p ** (e - 1) * (p - 1)` over
      the prime factorization of `n`. */
  function EulerProduct(factors: seq<(int, int)>): int
  {
    if factors == [] then 1
    else
      var last := factors[|factors| - 1];
      EulerProduct(factors[..|factors| - 1])
        * (Pow(last.0, if last.1 < 1 then 0 else last.1 - 1) * (last.0 - 1))
  }

  /** `phi(n)`: start from `n` and, for each non-empty combination of the
      distinct prime factors of `n`, add or subtract `n // val` where `val`
      is their product, by the parity of the combination's size.  For
      `n >= 1` this is Euler's product formula; `factor` returns nothing for
      `n < 1`, so there `n` comes back unchanged. */
  method Phi(n: int) returns (res: int)
    ensures n < 1 ==> res == n
    ensures n >= 1 ==> exists factors :: IsFactorization(factors, n) && res == EulerProduct(factors)
  {
    res := n;
    var found := Factor(n);
    var bases := Bases(found);
    SignedZero(bases, n);
    var multiplier := 1;
    for fs := 1 to |bases| + 1
      invariant multiplier == Signed(fs - 1, 1)
      invariant res == SignedSum(bases, n, fs - 1)
    {
      SignedSplit(fs, 1, 0);
      multiplier := -multiplier;
      res := AddCombinations(found, n, fs, multiplier, res);
    }
    if n >= 1 {
      PhiClosedForm(found, n);
    }
  }

  /** The inner loop of `phi`: over the combinations of `fs` prime factors,
      add `n // val` times `multiplier`, the sign of size `fs`. */
  method AddCombinations(found: seq<(int, int)>, n: int, fs: nat, multiplier: int, res0: int)
    returns (res: int)
    requires fs >= 1 && multiplier == Signed(fs, 1)
    requires n < 1 ==> found == []
    requires n >= 1 ==> IsFactorization(found, n)
    ensures res == res0 + Signed(fs, QuotientSum(Combinations(Bases(found), fs), n))
  {
    res := res0;
    var combos := Combinations(Bases(found), fs);
    for j := 0 to |combos|
      invariant res == res0 + Signed(fs, QuotientSum(combos[..j], n))
    {
      var primes := combos[j];
      var val := Prod(primes);
      CombinationDividesInput(found, n, fs, primes);
      QuotientStep(combos, j, n, fs);
      if val <= n && n % val == 0 {
        res := res + (n / val) * multiplier;
      }
    }
    assert combos[..|combos|] == combos;
  }

  /** One more combination adds its signed quotient. */
  lemma QuotientStep(combos: seq<seq<int>>, j: nat, n: int, fs: nat)
    requires j < |combos| && Prod(combos[j]) >= 1
    ensures Signed(fs, QuotientSum(combos[..j + 1], n))
      == Signed(fs, QuotientSum(combos[..j], n)) + (n / Prod(combos[j])) * Signed(fs, 1)
  {
    assert combos[..j + 1][..j] == combos[..j];
    SignedUnit(fs, n / Prod(combos[j]));
  }

  /** Every combination of the prime factors of `n >= 1` passes the guard
      `val <= n and n % val == 0` of `phi`. */
  lemma CombinationDividesInput(found: seq<(int, int)>, n: int, r: nat, c: seq<int>)
    requires n >= 1 && IsFactorization(found, n) && c in Combinations(Bases(found), r)
    ensures 1 <= Prod(c) <= n && n % Prod(c) == 0
  {
    var bases := Bases(found);
    BasesPositive(found);
    var k := CombinationDivides(bases, r, c);
    CombinationPositive(bases, r, c);
    BasesProduct(found);
    var q := k * Excess(found);
    MulAssoc(Prod(c), k, Excess(found));
    assert Divides(Prod(c), n);
    DividesBound(Prod(c), n);
    DivModUnique(q, 0, Prod(c));
  }

  lemma BasesPositive(found: seq<(int, int)>)
    requires forall i :: 0 <= i < |found| ==> Prime(found[i].0)
    ensures forall i :: 0 <= i < |Bases(found)| ==> Bases(found)[i] >= 1
  {
  }

  /** The product of a combination divides the product of the whole list. */
  lemma {:induction false} CombinationDivides(s: seq<int>, r: nat, c: seq<int>) returns (k: int)
    requires c in Combinations(s, r)
    ensures Prod(s) == Prod(c) * k
  {
    if r == 0 {
      assert c == [];
      k := Prod(s);
    } else {
      var rest := s[1..];
      if c in Combinations(rest, r) {
        var k' := CombinationDivides(rest, r, c);
        k := s[0] * k';
        SkipDivides(s, c, k');
      } else {
        PrependedIn(s[0], Combinations(rest, r - 1), c);
        var k' := CombinationDivides(rest, r - 1, c[1..]);
        k := k';
        TakeDivides(s, c, k');
      }
    }
  }

  /** A combination without the first element divides the whole list. */
  lemma SkipDivides(s: seq<int>, c: seq<int>, k': int)
    requires s != [] && Prod(s[1..]) == Prod(c) * k'
    ensures Prod(s) == Prod(c) * (s[0] * k')
  {
    MulSwap(s[0], Prod(c), k');
  }

  /** A combination that takes the first element divides the whole list. */
  lemma TakeDivides(s: seq<int>, c: seq<int>, k': int)
    requires s != [] && c != [] && c[0] == s[0] && Prod(s[1..]) == Prod(c[1..]) * k'
    ensures Prod(s) == Prod(c) * k'
  {
    MulAssoc(s[0], Prod(c[1..]), k');
  }

  /** A combination of positive numbers has a positive product. */
  lemma {:induction false} CombinationPositive(s: seq<int>, r: nat, c: seq<int>)
    requires forall i :: 0 <= i < |s| ==> s[i] >= 1
    requires c in Combinations(s, r)
    ensures Prod(c) >= 1
  {
    if r != 0 {
      var rest := s[1..];
      if c in Combinations(rest, r) {
        CombinationPositive(rest, r, c);
      } else {
        PrependedIn(s[0], Combinations(rest, r - 1), c);
        CombinationPositive(rest, r - 1, c[1..]);
        assert c == [s[0]] + c[1..];
        MulSign(Prod(c[1..]), s[0]);
      }
    }
  }

  lemma {:induction false} ProdSnoc(s: seq<int>, x: int)
    ensures Prod(s + [x]) == Prod(s) * x
  {
    if s != [] {
      assert (s + [x])[1..] == s[1..] + [x];
      ProdSnoc(s[1..], x);
    }
  }

  lemma {:induction false} TotientsSnoc(s: seq<int>, x: int)
    ensures Totients(s + [x]) == Totients(s) * (x - 1)
  {
    if s != [] {
      assert (s + [x])[1..] == s[1..] + [x];
      TotientsSnoc(s[1..], x);
    }
  }

  /** Splitting each `p ** e` of a factorization into `p * p ** (e - 1)`. */
  lemma {:induction false} BasesProduct(factors: seq<(int, int)>)
    requires forall i :: 0 <= i < |factors| ==> factors[i].0 >= 1 && factors[i].1 >= 1
    ensures Product(factors) == Prod(Bases(factors)) * Excess(factors)
    ensures EulerProduct(factors) == Totients(Bases(factors)) * Excess(factors)
    ensures Excess(factors) >= 1
  {
    if factors != [] {
      var init, last := factors[..|factors| - 1], factors[|factors| - 1];
      var p, e := last.0, last.1;
      BasesProduct(init);
      assert Bases(factors) == Bases(init) + [p];
      ProdSnoc(Bases(init), p);
      TotientsSnoc(Bases(init), p);
      var a, b, t, x := Prod(Bases(init)), Excess(init), Totients(Bases(init)), Pow(p, e - 1);
      PowPositive(p, e - 1);
      MulSign(b, x);
      assert Pow(p, e) == p * x;
      assert Product(factors) == (a * b) * (p * x);
      assert EulerProduct(factors) == (t * b) * (x * (p - 1));
      MulInterchange(a, b, p, x);
      MulInterchange(t, b, p - 1, x);
    }
  }

  lemma {:induction false} QuotientSumConcat(a: seq<seq<int>>, b: seq<seq<int>>, m: int)
    ensures QuotientSum(a + b, m) == QuotientSum(a, m) + QuotientSum(b, m)
  {
    if b != [] {
      assert (a + b)[..|a + b| - 1] == a + b[..|b| - 1];
      QuotientSumConcat(a, b[..|b| - 1], m);
    } else {
      assert a + b == a;
    }
  }

  /** Putting a factor `p` in front of every combination divides each
      quotient by `p` once more. */
  lemma {:induction false} QuotientSumPrepended(p: int, cs: seq<seq<int>>, m: int)
    requires p >= 1 && m >= 0
    requires forall c :: c in cs ==> Prod(c) >= 1
    ensures QuotientSum(Prepended(p, cs), m) == QuotientSum(cs, m / p)
  {
    if cs != [] {
      var init, last := cs[..|cs| - 1], cs[|cs| - 1];
      assert Prepended(p, cs)[..|cs| - 1] == Prepended(p, init);
      assert Prepended(p, cs)[|cs| - 1] == [p] + last;
      assert ([p] + last)[1..] == last;
      assert last in cs;
      QuotientSumPrepended(p, init, m);
      NestedDiv(m, p, Prod(last));
    }
  }

  lemma CombinationsPositive(s: seq<int>, r: nat)
    requires forall i :: 0 <= i < |s| ==> s[i] >= 1
    ensures forall c :: c in Combinations(s, r) ==> Prod(c) >= 1
  {
    forall c | c in Combinations(s, r)
      ensures Prod(c) >= 1
    {
      CombinationPositive(s, r, c);
    }
  }

  /** Splitting the combinations of `[p] + rest` into those with and those
      without `p`. */
  lemma {:induction false} SignedStep(s: seq<int>, m: int, r: int)
    requires s != [] && m >= 0 && r >= 0
    requires forall i :: 0 <= i < |s| ==> s[i] >= 1
    ensures SignedSum(s, m, r) == SignedSum(s[1..], m, r) - SignedSum(s[1..], m / s[0], r - 1)
    decreases r
  {
    var p, rest := s[0], s[1..];
    if r == 0 {
      SignedZero(s, m);
      SignedZero(rest, m);
    } else {
      SignedStep(s, m, r - 1);
      var a, b := LevelSplit(s, m, r);
      assert SignedSum(s, m, r) == SignedSum(s, m, r - 1) + Signed(r, a + b);
      assert SignedSum(rest, m, r) == SignedSum(rest, m, r - 1) + Signed(r, b);
      assert SignedSum(rest, m / p, r - 1) == SignedSum(rest, m / p, r - 2) + Signed(r - 1, a);
      SignedSplit(r, a, b);
    }
  }

  /** The combinations of size `r > 0` of `[p] + rest`: those holding `p`,
      whose quotients are those of `m / p` by the smaller combinations of
      `rest`, then those of `rest`. */
  lemma LevelSplit(s: seq<int>, m: int, r: int) returns (a: int, b: int)
    requires s != [] && m >= 0 && r > 0
    requires forall i :: 0 <= i < |s| ==> s[i] >= 1
    ensures a == QuotientSum(Combinations(s[1..], r - 1), m / s[0])
    ensures b == QuotientSum(Combinations(s[1..], r), m)
    ensures QuotientSum(Combinations(s, r), m) == a + b
  {
    var p, rest := s[0], s[1..];
    var with, without := Combinations(rest, r - 1), Combinations(rest, r);
    assert Combinations(s, r) == Prepended(p, with) + without;
    QuotientSumConcat(Prepended(p, with), without, m);
    CombinationsPositive(rest, r - 1);
    QuotientSumPrepended(p, with, m);
    a, b := QuotientSum(with, m / p), QuotientSum(without, m);
  }

  /** The empty combination alone contributes `m`. */
  lemma SignedZero(s: seq<int>, m: int)
    ensures SignedSum(s, m, 0) == m
  {
    assert Combinations(s, 0) == [[]];
    var empty: seq<seq<int>> := [[]];
    assert empty[..0] == [];
    assert QuotientSum(empty, m) == Quotient(m, Prod([]));
  }

  lemma SignedSplit(r: int, a: int, b: int)
    ensures Signed(r, a + b) == Signed(r, a) + Signed(r, b)
    ensures Signed(r - 1, a) == -Signed(r, a)
  {
  }

  lemma SignedUnit(r: int, x: int)
    ensures x * Signed(r, 1) == Signed(r, x)
  {
  }

  lemma MulAssoc(a: int, b: int, c: int)
    ensures (a * b) * c == a * (b * c)
  {
  }

  lemma MulSwap(a: int, b: int, c: int)
    ensures a * (b * c) == b * (a * c)
  {
  }

  lemma MulInterchange(a: int, b: int, c: int, d: int)
    ensures (a * b) * (d * c) == (a * c) * (b * d)
  {
  }

  lemma {:induction false} CombinationsTooMany(s: seq<int>, r: nat)
    requires r > |s|
    ensures Combinations(s, r) == []
  {
    if s != [] {
      CombinationsTooMany(s[1..], r - 1);
      CombinationsTooMany(s[1..], r);
    }
  }

  /** Combinations longer than the list add nothing. */
  lemma {:induction false} SignedBeyond(s: seq<int>, m: int, r: int)
    requires r >= |s|
    ensures SignedSum(s, m, r) == InclusionExclusion(s, m)
    decreases r
  {
    if r > |s| {
      SignedBeyond(s, m, r - 1);
      CombinationsTooMany(s, r);
      SignedSumNone(s, m, r);
    }
  }

  /** A size with no combinations adds nothing to the signed sum. */
  lemma SignedSumNone(s: seq<int>, m: int, r: nat)
    requires Combinations(s, r) == []
    ensures SignedSum(s, m, r) == SignedSum(s, m, r - 1)
  {
    assert QuotientSum(Combinations(s, r), m) == 0;
  }

  /** Inclusion-exclusion over the distinct primes `s` of a multiple
      `Prod(s) * c` of their product leaves `c` times the product of the
      `p - 1`. */
  lemma {:induction false} ClosedForm(s: seq<int>, c: int)
    requires c >= 0 && forall i :: 0 <= i < |s| ==> s[i] >= 1
    ensures InclusionExclusion(s, Prod(s) * c) == Totients(s) * c
  {
    if s == [] {
      SignedZero(s, c);
    } else {
      var p, rest := s[0], s[1..];
      var a, t := Prod(rest), Totients(rest);
      ProdPositive(rest);
      var m := Prod(s) * c;
      Regroup(p, a, c);
      DivModUnique(a * c, 0, p);
      assert m / p == a * c;
      SignedStep(s, m, |s|);
      SignedBeyond(rest, m, |s|);
      ClosedForm(rest, p * c);
      ClosedForm(rest, c);
      TotientStep(p, c, t);
    }
  }

  lemma Regroup(p: int, a: int, c: int)
    requires p >= 1 && a >= 1 && c >= 0
    ensures (p * a) * c == a * (p * c) == (a * c) * p + 0 && (p * a) * c >= 0
  {
    MulAssoc(p, a, c);
    MulSwap(a, p, c);
    MulSign(a, c);
    MulSign(p, a * c);
  }

  lemma TotientStep(p: int, c: int, t: int)
    ensures t * (p * c) - t * c == ((p - 1) * t) * c
  {
  }

  lemma {:induction false} ProdPositive(s: seq<int>)
    requires forall i :: 0 <= i < |s| ==> s[i] >= 1
    ensures Prod(s) >= 1
  {
    if s != [] {
      ProdPositive(s[1..]);
      MulSign(Prod(s[1..]), s[0]);
    }
  }

  /** What `phi` computes for `n >= 1` is Euler's product formula over the
      prime factorization of `n`. */
  lemma PhiClosedForm(found: seq<(int, int)>, n: int)
    requires n >= 1 && IsFactorization(found, n)
    ensures InclusionExclusion(Bases(found), n) == EulerProduct(found)
  {
    BasesProduct(found);
    BasesPositive(found);
    assert n == Prod(Bases(found)) * Excess(found);
    ClosedForm(Bases(found), Excess(found));
  }
}
