/** Arithmetic modulo a prime: congruence, inverses and cancellation. */
module ModularArithmetic {

  ghost predicate Prime(n: nat) {
    n > 1 && forall d :: 1 < d < n ==> n % d != 0
  }

  /** `a` and `b` differ by a multiple of `n`. */
  ghost predicate Cong(a: int, b: int, n: nat)
    requires n > 0
  {
    exists k: int :: Differ(a, b, k, n)
  }

  predicate Differ(a: int, b: int, k: int, n: nat) { a == b + k * n }

  lemma AtLeastOnce(d: int, n: nat)
    requires d >= 1
    ensures d * n >= n
  {
    assert (d - 1) * n >= 0;
    assert d * n == (d - 1) * n + n;
  }

  lemma QuotientBound(q: int, r: int, q': int, r': int, n: nat)
    requires q * n + r == q' * n + r' && 0 <= r && r' < n
    ensures q <= q'
  {
    assert (q - q') * n == q * n - q' * n;
    if q > q' {
      AtLeastOnce(q - q', n);
    }
  }

  lemma QuotientUnique(q: int, r: int, q': int, r': int, n: nat)
    requires q * n + r == q' * n + r' && 0 <= r < n && 0 <= r' < n
    ensures q == q' && r == r'
  {
    QuotientBound(q, r, q', r', n);
    QuotientBound(q', r', q, r, n);
  }

  /** Congruence is equality of remainders. */
  lemma CongIsMod(a: int, b: int, n: nat)
    requires n > 0
    ensures Cong(a, b, n) <==> a % n == b % n
  {
    if Cong(a, b, n) {
      var k :| Differ(a, b, k, n);
      assert a == (a / n) * n + a % n && b == (b / n) * n + b % n;
      assert (b / n + k) * n == (b / n) * n + k * n;
      QuotientUnique(a / n, a % n, b / n + k, b % n, n);
    }
    if a % n == b % n {
      assert a == (a / n) * n + a % n && b == (b / n) * n + b % n;
      assert (a / n - b / n) * n == (a / n) * n - (b / n) * n;
      assert Differ(a, b, a / n - b / n, n);
    }
  }

  lemma Reduced(a: int, n: nat)
    requires n > 0
    ensures Cong(a % n, a, n) && Cong(a, a % n, n) && Cong(a, a, n)
  {
    assert a == (a / n) * n + a % n;
    assert (-(a / n)) * n == -((a / n) * n);
    assert Differ(a % n, a, -(a / n), n) && Differ(a, a % n, a / n, n) && Differ(a, a, 0, n);
  }

  lemma CongSym(a: int, b: int, n: nat)
    requires n > 0 && Cong(a, b, n)
    ensures Cong(b, a, n)
  {
    CongIsMod(a, b, n);
    CongIsMod(b, a, n);
  }

  lemma CongTrans(a: int, b: int, c: int, n: nat)
    requires n > 0 && Cong(a, b, n) && Cong(b, c, n)
    ensures Cong(a, c, n)
  {
    CongIsMod(a, b, n);
    CongIsMod(b, c, n);
    CongIsMod(a, c, n);
  }

  lemma CongAdd(a: int, a': int, b: int, b': int, n: nat)
    requires n > 0 && Cong(a, a', n) && Cong(b, b', n)
    ensures Cong(a + b, a' + b', n) && Cong(a - b, a' - b', n)
  {
    var k :| Differ(a, a', k, n);
    var m :| Differ(b, b', m, n);
    assert (k + m) * n == k * n + m * n && (k - m) * n == k * n - m * n;
    assert Differ(a + b, a' + b', k + m, n) && Differ(a - b, a' - b', k - m, n);
  }

  lemma CongMul(a: int, a': int, b: int, b': int, n: nat)
    requires n > 0 && Cong(a, a', n) && Cong(b, b', n)
    ensures Cong(a * b, a' * b', n)
  {
    var k :| Differ(a, a', k, n);
    var m :| Differ(b, b', m, n);
    calc {
      a * b;
      (a' + k * n) * (b' + m * n);
      a' * b' + a' * (m * n) + (k * n) * b' + (k * n) * (m * n);
      a' * b' + (a' * m + k * b' + k * n * m) * n;
    }
    assert Differ(a * b, a' * b', a' * m + k * b' + k * n * m, n);
  }

  // ----- inverses

  /** The greatest common divisor with its Bezout coefficients. */
  function ExtendedGcd(a: nat, b: nat): (nat, int, int)
    decreases b
  {
    if b == 0 then (a, 1, 0)
    else
      var (d, x, y) := ExtendedGcd(b, a % b);
      (d, y, x - (a / b) * y)
  }

  lemma {:induction false} Bezout(a: nat, b: nat)
    ensures var (d, x, y) := ExtendedGcd(a, b); a * x + b * y == d
    decreases b
  {
    if b > 0 {
      var q, r := a / b, a % b;
      Bezout(b, r);
      var (d, x, y) := ExtendedGcd(b, r);
      assert ExtendedGcd(a, b) == (d, y, x - q * y);
      DivisionIdentity(a, b);
      BezoutStep(a, b, q, r, x, y);
    }
  }

  lemma DivisionIdentity(a: nat, b: nat)
    requires b > 0
    ensures a == (a / b) * b + a % b
  {
  }

  lemma BezoutStep(a: int, b: int, q: int, r: int, x: int, y: int)
    requires a == q * b + r
    ensures a * y + b * (x - q * y) == b * x + r * y
  {
    assert (q * b + r) * y == q * b * y + r * y;
    assert b * (x - q * y) == b * x - q * b * y;
  }

  ghost predicate Divides(d: nat, a: int) { exists m: int :: Multiple(m, d, a) }

  predicate Multiple(m: int, d: nat, a: int) { a == m * d }

  lemma DividesCombination(d: nat, b: int, c: int, q: int)
    requires Divides(d, b) && Divides(d, c)
    ensures Divides(d, q * b + c)
  {
    var m :| Multiple(m, d, b);
    var k :| Multiple(k, d, c);
    assert q * (m * d) == (q * m) * d;
    assert Multiple(q * m + k, d, q * b + c);
  }

  lemma {:induction false} GcdDivides(a: nat, b: nat)
    ensures Divides(ExtendedGcd(a, b).0, a) && Divides(ExtendedGcd(a, b).0, b)
    decreases b
  {
    var d := ExtendedGcd(a, b).0;
    if b == 0 {
      assert Multiple(1, d, a) && Multiple(0, d, b);
    } else {
      GcdDivides(b, a % b);
      DividesCombination(d, b, a % b, a / b);
      assert (a / b) * b + a % b == a;
    }
  }

  lemma DivisorOfPrime(d: nat, n: nat)
    requires Prime(n) && 0 < d < n && Divides(d, n)
    ensures d == 1
  {
    var m :| Multiple(m, d, n);
    assert n == m * d + 0;
    if d > 1 {
      assert n == (n / d) * d + n % d;
      QuotientUnique(m, 0, n / d, n % d, d);
    }
  }

  lemma DivisorBound(d: nat, a: nat)
    requires a > 0 && Divides(d, a)
    ensures d <= a
  {
    var m :| Multiple(m, d, a);
    assert m <= 0 ==> m * d <= 0;
    AtLeastOnce(m, d);
  }

  /** The multiplicative inverse modulo `n`. */
  function Inverse(a: int, n: nat): (w: nat)
    requires n > 1
    ensures w < n
  {
    ExtendedGcd(a % n, n).1 % n
  }

  lemma InverseCorrect(a: int, n: nat)
    requires Prime(n) && !Cong(a, 0, n)
    ensures Cong(a * Inverse(a, n), 1, n) && Cong(Inverse(a, n) * a, 1, n)
  {
    var r := a % n;
    CongIsMod(a, 0, n);
    var (d, x, y) := ExtendedGcd(r, n);
    Bezout(r, n);
    GcdDivides(r, n);
    if d == 0 {
      var m :| Multiple(m, d, r);
    }
    DivisorBound(d, r);
    DivisorOfPrime(d, n);
    assert r * x == 1 + (-y) * n by { assert n * y == y * n && (-y) * n == -(y * n); }
    assert Differ(r * x, 1, -y, n);
    Reduced(a, n);
    Reduced(x, n);
    CongMul(a, r, x % n, x, n);
    CongTrans(a * (x % n), r * x, 1, n);
    assert a * (x % n) == (x % n) * a;
  }

  /** A product vanishes modulo a prime only when a factor does. */
  lemma CancelZero(a: int, b: int, n: nat)
    requires Prime(n) && !Cong(a, 0, n)
    ensures Cong(a * b, 0, n) <==> Cong(b, 0, n)
  {
    var w := Inverse(a, n);
    InverseCorrect(a, n);
    Reduced(w, n);
    Reduced(a, n);
    Reduced(b, n);
    if Cong(a * b, 0, n) {
      CongMul(w, w, a * b, 0, n);
      CongMul(w * a, 1, b, b, n);
      assert (w * a) * b == w * (a * b);
      CongSym((w * a) * b, 1 * b, n);
      CongTrans(b, w * (a * b), w * 0, n);
    }
    if Cong(b, 0, n) {
      CongMul(a, a, b, 0, n);
    }
  }

  /** Equal products with an invertible factor have equal cofactors. */
  lemma Cancel(a: int, b: int, b': int, n: nat)
    requires Prime(n) && !Cong(a, 0, n)
    ensures Cong(a * b, a * b', n) <==> Cong(b, b', n)
  {
    CancelZero(a, b - b', n);
    assert a * (b - b') == a * b - a * b';
    DifferenceZero(a * b, a * b', n);
    DifferenceZero(b, b', n);
  }

  lemma DifferenceZero(a: int, b: int, n: nat)
    requires n > 0
    ensures Cong(a, b, n) <==> Cong(a - b, 0, n)
  {
    if Cong(a, b, n) {
      var k :| Differ(a, b, k, n);
      assert Differ(a - b, 0, k, n);
    }
    if Cong(a - b, 0, n) {
      var k :| Differ(a - b, 0, k, n);
      assert Differ(a, b, k, n);
    }
  }

  /** Residues are equal exactly when they are congruent. */
  lemma ResidueEq(a: nat, b: nat, n: nat)
    requires a < n && b < n
    ensures Cong(a, b, n) <==> a == b
  {
    CongIsMod(a, b, n);
    QuotientUnique(0, a, a / n, a % n, n);
    QuotientUnique(0, b, b / n, b % n, n);
  }
}
