/**
 The arithmetic the arena relies on: masks and the power-of-two test, Euclid's
 algorithm, and the least common multiple.
 */
module ArenaMath {

  // ---------------------------------------------------------------------------
  // Bit masks
  // ---------------------------------------------------------------------------

  /** Bitwise conjunction of two unsigned numbers. */
  function BitAnd(x: nat, y: nat): (r: nat)
    ensures r <= x && r <= y
    decreases x
  {
    if x == 0 || y == 0 then 0
    else 2 * BitAnd(x / 2, y / 2) + (if x % 2 == 1 && y % 2 == 1 then 1 else 0)
  }

  predicate IsPow2(a: nat) {
    a == 1 || (a > 1 && a % 2 == 0 && IsPow2(a / 2))
  }

  /** Masking with a power of two minus one takes the remainder. */
  lemma {:induction false} MaskIsRemainder(x: nat, a: nat)
    requires IsPow2(a)
    ensures BitAnd(x, a - 1) == x % a
    decreases a
  {
    if x == 0 {
      RemainderUnique(0, a, 0, 0);
    } else if a > 1 {
      var b := a / 2;
      MaskIsRemainder(x / 2, b);
      RemainderOfDouble(x, b);
      assert BitAnd(x, a - 1) == 2 * BitAnd(x / 2, b - 1) + x % 2 by {
        assert (a - 1) / 2 == b - 1 && (a - 1) % 2 == 1;
      }
    }
  }

  lemma RemainderOfDouble(x: nat, b: nat)
    requires b > 0
    ensures x % (2 * b) == 2 * ((x / 2) % b) + x % 2
  {
    var q, r := (x / 2) / b, (x / 2) % b;
    assert x == 2 * (q * b + r) + x % 2;
    assert x == (2 * b) * q + (2 * r + x % 2);
    RemainderUnique(x, 2 * b, q, 2 * r + x % 2);
  }

  lemma RemainderUnique(x: int, n: int, q: int, r: int)
    requires n > 0 && 0 <= r < n && x == n * q + r
    ensures x % n == r
  {
    var q', r' := x / n, x % n;
    assert x == n * q' + r';
    assert n * (q - q') == n * q - n * q' == r' - r;
    MulAtLeast(n, q - q');
    assert q == q';
  }

  lemma MulAtLeast(n: int, k: int)
    requires n > 0
    ensures k >= 1 ==> n * k >= n
    ensures k <= -1 ==> n * k <= -n
  {
    if k >= 1 {
      assert n * k == n + n * (k - 1);
    } else if k <= -1 {
      assert n * k == -n + n * (k + 1);
    }
  }

  lemma {:induction false} AndSelf(b: nat)
    ensures BitAnd(b, b) == b
  {
    if b > 0 { AndSelf(b / 2); }
  }

  /** The CHECK on alignments accepts exactly the powers of two. */
  lemma {:induction false} PowerOfTwoTest(a: nat)
    requires a > 0
    ensures BitAnd(a, a - 1) == 0 <==> IsPow2(a)
  {
    if a > 1 {
      var b := a / 2;
      if a % 2 == 0 {
        assert (a - 1) / 2 == b - 1;
        PowerOfTwoTest(b);
      } else {
        assert (a - 1) / 2 == b && (a - 1) % 2 == 0;
        AndSelf(b);
      }
    }
  }

  // ---------------------------------------------------------------------------
  // Divisibility
  // ---------------------------------------------------------------------------

  ghost predicate Divides(d: nat, n: nat) {
    exists k: nat :: n == d * k
  }

  lemma DividesMeansNoRemainder(d: nat, n: nat)
    requires d > 0
    ensures Divides(d, n) <==> n % d == 0
  {
    if Divides(d, n) {
      var k: nat :| n == d * k;
      RemainderUnique(n, d, k, 0);
    }
    if n % d == 0 {
      assert n == d * (n / d);
    }
  }

  lemma DividesTransitive(a: nat, b: nat, c: nat)
    requires Divides(a, b) && Divides(b, c)
    ensures Divides(a, c)
  {
    var i: nat :| b == a * i;
    var j: nat :| c == b * j;
    assert c == a * (i * j);
  }

  lemma DividesBoundsAndAntisym(a: nat, b: nat)
    requires Divides(a, b) && Divides(b, a)
    ensures a == b
  {
    var i: nat :| b == a * i;
    var j: nat :| a == b * j;
    if a > 0 && b > 0 {
      assert i >= 1 && j >= 1;
      MulAtLeast(a, i);
      MulAtLeast(b, j);
    }
  }

  // ---------------------------------------------------------------------------
  // Greatest common divisor
  // ---------------------------------------------------------------------------

  function Gcd(x: nat, y: nat): nat
    decreases y
  {
    if y == 0 then x else Gcd(y, x % y)
  }

  method GCD(x0: nat, y0: nat) returns (g: nat)
    ensures g == Gcd(x0, y0)
    ensures Divides(g, x0) && Divides(g, y0)
    ensures forall d: nat :: Divides(d, x0) && Divides(d, y0) ==> Divides(d, g)
  {
    var x, y := x0, y0;
    while y != 0
      invariant Gcd(x, y) == Gcd(x0, y0)
      decreases y
    {
      var r := x % y;
      x := y;
      y := r;
    }
    g := x;
    GcdDivides(x0, y0);
    forall d: nat | Divides(d, x0) && Divides(d, y0) ensures Divides(d, g) {
      GcdGreatest(x0, y0, d);
    }
  }

  lemma {:induction false} GcdDivides(x: nat, y: nat)
    ensures Divides(Gcd(x, y), x) && Divides(Gcd(x, y), y)
    decreases y
  {
    if y == 0 {
      assert x == x * 1 && 0 == x * 0;
    } else {
      GcdDivides(y, x % y);
      DividesQuotientStep(Gcd(x, y), x, y);
    }
  }

  lemma DividesQuotientStep(g: nat, x: nat, y: nat)
    requires y > 0 && Divides(g, y) && Divides(g, x % y)
    ensures Divides(g, x)
  {
    var i: nat :| y == g * i;
    var j: nat :| x % y == g * j;
    MultipleOf(g, x, y, i, x / y, x % y, j);
  }

  lemma MultipleOf(g: nat, x: nat, y: nat, i: nat, q: nat, r: nat, j: nat)
    requires x == y * q + r && y == g * i && r == g * j
    ensures Divides(g, x)
  {
    Recombine(g, i, q, j);
    NonNegative(i, q);
    var k: nat := i * q + j;
    assert x == g * k;
  }

  lemma NonNegative(i: nat, q: nat)
    ensures i * q >= 0
  {
  }

  lemma Recombine(g: int, i: int, q: int, j: int)
    ensures (g * i) * q + g * j == g * (i * q + j)
    ensures (g * i) * q - g * j == g * (i * q - j)
  {
  }

  lemma {:induction false} GcdGreatest(x: nat, y: nat, d: nat)
    requires Divides(d, x) && Divides(d, y)
    ensures Divides(d, Gcd(x, y))
    decreases y
  {
    if y != 0 {
      var i: nat :| x == d * i;
      var j: nat :| y == d * j;
      DividesRest(d, i, j, x / y, x % y);
      GcdGreatest(y, x % y, d);
    }
  }

  lemma DividesRest(d: nat, i: nat, j: nat, q: nat, r: nat)
    requires d * i == (d * j) * q + r
    ensures Divides(d, r)
  {
    var k := i - j * q;
    Recombine(d, j, q, i);
    assert r == d * k;
    if d == 0 {
      assert r == d * 0;
    } else {
      MulAtLeast(d, k);
    }
  }

  lemma GcdPositive(x: nat, y: nat)
    requires x > 0 || y > 0
    ensures Gcd(x, y) > 0
    decreases y
  {
    if y != 0 { GcdPositive(y, x % y); }
  }

  /** Bezout: the greatest common divisor is an integer combination of the two. */
  lemma {:induction false} Bezout(x: nat, y: nat) returns (u: int, v: int)
    ensures Gcd(x, y) == x * u + y * v
    decreases y
  {
    if y == 0 {
      u, v := 1, 0;
    } else {
      var u', v' := Bezout(y, x % y);
      u, v := v', u' - (x / y) * v';
      BezoutStep(y, x / y, x % y, u', v');
    }
  }

  lemma BezoutStep(y: int, q: int, r: int, u: int, v: int)
    ensures y * u + r * v == (y * q + r) * v + y * (u - q * v)
  {
    assert (y * q + r) * v == (y * q) * v + r * v;
    assert (y * q) * v == y * (q * v);
    assert y * (u - q * v) == y * u - y * (q * v);
  }

  // ---------------------------------------------------------------------------
  // Least common multiple
  // ---------------------------------------------------------------------------

  ghost predicate IsLeastCommonMultiple(l: nat, a: nat, b: nat) {
    && Divides(a, l) && Divides(b, l)
    && forall m: nat :: Divides(a, m) && Divides(b, m) ==> Divides(l, m)
  }

  function Times(a: nat, b: nat): nat {
    a * b
  }

  function Lcm(a: nat, b: nat): nat
    requires a > 0 && b > 0
  {
    GcdPositive(a, b);
    Times(a / Gcd(a, b), b)
  }

  lemma LcmIsLeast(a: nat, b: nat)
    requires a > 0 && b > 0
    ensures Lcm(a, b) > 0
    ensures IsLeastCommonMultiple(Lcm(a, b), a, b)
  {
    var l := Lcm(a, b);
    LcmIsCommon(a, b);
    forall m: nat | Divides(a, m) && Divides(b, m) ensures Divides(l, m) {
      CommonMultiple(a, b, m, l);
    }
  }

  lemma LcmIsCommon(a: nat, b: nat)
    requires a > 0 && b > 0
    ensures Lcm(a, b) > 0 && Lcm(a, b) * Gcd(a, b) == a * b
    ensures Divides(a, Lcm(a, b)) && Divides(b, Lcm(a, b))
  {
    var g := Gcd(a, b);
    GcdPositive(a, b);
    GcdDivides(a, b);
    var a': nat :| a == g * a';
    var b': nat :| b == g * b';
    ExactQuotient(a, g, a');
    CofactorProduct(a, b, g, a', b');
  }

  lemma ExactQuotient(a: nat, g: nat, a': nat)
    requires g > 0 && a == g * a'
    ensures a / g == a'
  {
    RemainderUnique(a, g, a', 0);
    assert a == g * (a / g);
    CancelFactor(a / g, a', g);
  }

  lemma CofactorProduct(a: nat, b: nat, g: nat, a': nat, b': nat)
    requires a > 0 && b > 0 && a == g * a' && b == g * b'
    ensures a' * b > 0 && (a' * b) * g == a * b
    ensures Divides(a, a' * b) && Divides(b, a' * b)
  {
    assert a' > 0;
    MulAtLeast(a', b);
    assert a' * b == b * a';
    assert a' * b == a * b' by { Reorder(a', 1, g, b'); }
    Reorder(a', b, g, 1);
  }

  lemma CommonMultiple(a: nat, b: nat, m: nat, l: nat)
    requires a > 0 && b > 0 && Divides(a, m) && Divides(b, m)
    requires l > 0 && l * Gcd(a, b) == a * b
    ensures Divides(l, m)
  {
    var g := Gcd(a, b);
    GcdPositive(a, b);
    var i: nat :| m == a * i;
    var j: nat :| m == b * j;
    var u, v := Bezout(a, b);
    var k := j * u + i * v;
    assert m * (a * u) == (a * b) * (j * u) by { Reorder(b, j, a, u); }
    assert m * (b * v) == (a * b) * (i * v) by { Reorder(a, i, b, v); }
    calc {
      m * g;
      { Distribute(m, a * u, b * v); }
      m * (a * u) + m * (b * v);
      { Distribute(a * b, j * u, i * v); }
      (a * b) * k;
      { Reorder(l, g, k, 1); }
      (l * k) * g;
    }
    CancelFactor(m, l * k, g);
    MulAtLeast(l, k);
    assert Divides(l, m);
  }

  lemma Distribute(m: int, x: int, y: int)
    ensures m * (x + y) == m * x + m * y
  {
  }

  lemma Reorder(p: int, q: int, r: int, t: int)
    ensures (p * q) * (r * t) == (r * p) * (q * t) == (p * r) * (q * t)
  {
    assert (p * q) * (r * t) == p * (q * (r * t));
    assert (p * r) * (q * t) == p * (r * (q * t));
    assert q * (r * t) == r * (q * t);
  }

  lemma CancelFactor(x: int, y: int, g: int)
    requires g > 0 && x * g == y * g
    ensures x == y
  {
    assert g * (x - y) == x * g - y * g;
    MulAtLeast(g, x - y);
  }

  lemma LeastCommonMultipleUnique(a: nat, b: nat, l: nat, l': nat)
    requires IsLeastCommonMultiple(l, a, b) && IsLeastCommonMultiple(l', a, b)
    ensures l == l'
  {
    DividesBoundsAndAntisym(l, l');
  }

  method LeastCommonMultiple(a: nat, b: nat) returns (l: nat)
    requires a > 0 && b > 0
    ensures l == Lcm(a, b)
    ensures IsLeastCommonMultiple(l, a, b)
  {
    LcmIsLeast(a, b);
    LcmIsLeast(b, a);
    GcdPositive(a, b);
    GcdPositive(b, a);
    if a > b {
      var g := GCD(a, b);
      l := (a / g) * b;
    } else if a < b {
      var g := GCD(b, a);
      l := (b / g) * a;
      LeastCommonMultipleUnique(a, b, l, Lcm(a, b));
    } else {
      l := a;
      assert Divides(a, a) by { assert a == a * 1; }
      LeastCommonMultipleUnique(a, b, l, Lcm(a, b));
    }
  }

  // ---------------------------------------------------------------------------
  // Powers of two
  // ---------------------------------------------------------------------------

  lemma {:induction false} Pow2Divides(a: nat, b: nat)
    requires IsPow2(a) && IsPow2(b) && a <= b
    ensures Divides(a, b)
  {
    if a == 1 {
      assert b == 1 * b;
    } else {
      Pow2Divides(a / 2, b / 2);
      var k: nat :| b / 2 == (a / 2) * k;
      assert b == a * k;
    }
  }

  /** Two powers of two have the larger one as least common multiple. */
  lemma LcmOfPowers(a: nat, b: nat)
    requires IsPow2(a) && IsPow2(b)
    ensures Lcm(a, b) == if a <= b then b else a
  {
    var m := if a <= b then b else a;
    LcmIsLeast(a, b);
    assert Divides(m, m) by { assert m == m * 1; }
    if a <= b { Pow2Divides(a, b); } else { Pow2Divides(b, a); }
    LeastCommonMultipleUnique(a, b, Lcm(a, b), m);
  }
}
