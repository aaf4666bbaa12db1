// Arithmetic modulo a prime: congruences, inverses and the absence of zero divisors.
module Modular {
  import opened ConvertBits

  /** a and b differ by a multiple of p. */
  predicate Cong(p: int, a: int, b: int)
    requires p > 1
  {
    (a - b) % p == 0
  }

  predicate IsPrime(p: int) {
    p > 1 && forall d {:trigger p % d} | 1 < d < p :: p % d != 0
  }

  lemma MultipleIs(p: int, k: int)
    requires p > 1
    ensures (k * p) % p == 0
  {
    DivModUnique(k * p, p, k, 0);
  }

  lemma Witness(p: int, a: int, b: int) returns (k: int)
    requires p > 1 && Cong(p, a, b)
    ensures a == b + k * p
  {
    k := (a - b) / p;
    assert a - b == (a - b) / p * p + (a - b) % p;
  }

  lemma FromWitness(p: int, a: int, b: int, k: int)
    requires p > 1 && a == b + k * p
    ensures Cong(p, a, b)
  {
    MultipleIs(p, k);
  }

  lemma CongRefl(p: int, a: int)
    requires p > 1
    ensures Cong(p, a, a)
  {
  }

  lemma CongSym(p: int, a: int, b: int)
    requires p > 1 && Cong(p, a, b)
    ensures Cong(p, b, a)
  {
    var k := Witness(p, a, b);
    assert (-k) * p == -(k * p);
    FromWitness(p, b, a, -k);
  }

  lemma CongTrans(p: int, a: int, b: int, c: int)
    requires p > 1 && Cong(p, a, b) && Cong(p, b, c)
    ensures Cong(p, a, c)
  {
    var j := Witness(p, a, b);
    var k := Witness(p, b, c);
    MulAdd(j, k, p);
    FromWitness(p, a, c, j + k);
  }

  lemma CongAdd(p: int, a: int, b: int, c: int, d: int)
    requires p > 1 && Cong(p, a, b) && Cong(p, c, d)
    ensures Cong(p, a + c, b + d)
  {
    var j := Witness(p, a, b);
    var k := Witness(p, c, d);
    MulAdd(j, k, p);
    FromWitness(p, a + c, b + d, j + k);
  }

  lemma CongSub(p: int, a: int, b: int, c: int, d: int)
    requires p > 1 && Cong(p, a, b) && Cong(p, c, d)
    ensures Cong(p, a - c, b - d)
  {
    var j := Witness(p, a, b);
    var k := Witness(p, c, d);
    MulAdd(j - k, k, p);
    FromWitness(p, a - c, b - d, j - k);
  }

  lemma CongMul(p: int, a: int, b: int, c: int, d: int)
    requires p > 1 && Cong(p, a, b) && Cong(p, c, d)
    ensures Cong(p, a * c, b * d)
  {
    var j := Witness(p, a, b);
    var k := Witness(p, c, d);
    var m := j * c + b * k;
    ProductOfSums(p, b, d, j, k, c);
    FromWitness(p, a * c, b * d, m);
  }

  lemma ProductOfSums(p: int, b: int, d: int, j: int, k: int, c: int)
    requires c == d + k * p
    ensures (b + j * p) * c == b * d + (j * c + b * k) * p
  {
    assert (b + j * p) * c == b * c + (j * p) * c;
    assert b * c == b * d + b * (k * p);
    assert b * (k * p) == (b * k) * p;
    assert (j * p) * c == (j * c) * p;
    MulAdd(j * c, b * k, p);
  }

  lemma CongReduced(p: int, a: int)
    requires p > 1
    ensures 0 <= a % p < p && Cong(p, a % p, a)
  {
    assert a == a / p * p + a % p;
    FromWitness(p, a % p, a, -(a / p));
  }

  /** Congruent numbers in the range 0..p are equal. */
  lemma ReducedUnique(p: int, a: int, b: int)
    requires p > 1 && 0 <= a < p && 0 <= b < p && Cong(p, a, b)
    ensures a == b
  {
    var k := Witness(p, a, b);
    assert (-k) * p == -(k * p);
    if k >= 1 {
      MulAtLeast(k, p);
    } else if k <= -1 {
      MulAtLeast(-k, p);
    }
  }

  // ---------------------------------------------------------------------------------------------
  // Inverses
  // ---------------------------------------------------------------------------------------------

  /** Euclid's algorithm with the coefficients of the greatest common divisor. */
  lemma {:induction false} Bezout(a: int, b: int) returns (g: int, s: int, t: int)
    requires 0 <= a && 0 < b
    ensures g > 0 && g <= b && b % g == 0 && a % g == 0 && s * a + t * b == g
    decreases a
  {
    if a == 0 {
      g, s, t := b, 0, 1;
      DivModUnique(b, b, 1, 0);
      DivModUnique(0, b, 0, 0);
    } else {
      var q, r := b / a, b % a;
      var s', t';
      g, s', t' := Bezout(r, a);
      s, t := t' - s' * q, s';
      assert b == q * a + r;
      CombineBezout(a, b, q, r, s', t');
      DividesSum(a, r, q, g);
      if b < g {
        MultipleAtLeast(b, g);
      }
    }
  }

  lemma MultipleAtLeast(b: int, g: int)
    requires b > 0 && g > 0 && b % g == 0
    ensures b >= g
  {
    assert b == b / g * g;
  }

  lemma CombineBezout(a: int, b: int, q: int, r: int, s: int, t: int)
    requires b == q * a + r
    ensures (t - s * q) * a + s * b == s * r + t * a
  {
    assert s * b == s * (q * a) + s * r;
    assert s * (q * a) == (s * q) * a;
    MulAdd(t - s * q, s * q, a);
  }

  lemma DividesSum(a: int, r: int, q: int, g: int)
    requires g > 0 && a % g == 0 && r % g == 0
    ensures (q * a + r) % g == 0
  {
    var j, k := a / g, r / g;
    assert a == j * g && r == k * g;
    assert q * a == (q * j) * g by { MulAssoc(q, j, g); }
    MulAdd(q * j, k, g);
    DivModUnique(q * a + r, g, q * j + k, 0);
  }

  lemma Inverse(p: int, a: int) returns (inv: int)
    requires IsPrime(p) && !Cong(p, a, 0)
    ensures Cong(p, a * inv, 1) && 0 <= inv < p
  {
    var r := a % p;
    CongReduced(p, a);
    assert r != 0;
    var g, s, t := Bezout(r, p);
    assert g < p by {
      if g == p {
        MultipleAtLeast(r, g);
      }
    }
    assert g == 1;
    FromWitness(p, s * r, 1, -t);
    assert (-t) * p == -(t * p);
    inv := s % p;
    CongReduced(p, s);
    CongSym(p, r, a);
    CongMul(p, a, r, inv, s);
    assert r * s == s * r;
    CongTrans(p, a * inv, s * r, 1);
  }

  /** A product vanishes only with one of its factors. */
  lemma NoZeroDivisors(p: int, a: int, b: int)
    requires IsPrime(p) && Cong(p, a * b, 0)
    ensures Cong(p, a, 0) || Cong(p, b, 0)
  {
    if !Cong(p, a, 0) {
      var inv := Inverse(p, a);
      CongRefl(p, inv);
      CongMul(p, inv, inv, a * b, 0);
      CongRefl(p, b);
      CongMul(p, a * inv, 1, b, b);
      CongSym(p, (a * inv) * b, 1 * b);
      assert inv * (a * b) == (a * inv) * b;
      CongTrans(p, b, (a * inv) * b, 0);
    }
  }

  /** A factor that does not vanish can be cancelled. */
  lemma Cancel(p: int, a: int, b: int, c: int)
    requires IsPrime(p) && !Cong(p, c, 0) && Cong(p, a * c, b * c)
    ensures Cong(p, a, b)
  {
    assert (a - b) * c == a * c - b * c;
    assert Cong(p, (a - b) * c, 0);
    NoZeroDivisors(p, a - b, c);
  }
}
