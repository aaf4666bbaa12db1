// The group of the curve y^2 = x^3 + 7 and twinMult in internal/bip322/secp256k1.go.
// That p is prime and that the addition is associative are hypotheses; everything else is proved.
module CurveGroup {
  import opened ConvertBits
  import opened Modular
  import opened Curve

  predicate OnCurve(p: int, a: Affine)
    requires p > 1
  {
    ReducedAffine(p, a) && (a.Affine? ==> Cong(p, a.y * a.y, a.x * a.x * a.x + 7))
  }

  // ---------------------------------------------------------------------------------------------
  // The chord and tangent rule always gives exactly one point
  // ---------------------------------------------------------------------------------------------

  lemma SlopeExists(p: int, num: int, den: int) returns (slope: int)
    requires IsPrime(p) && !Cong(p, den, 0)
    ensures Cong(p, slope * den, num)
  {
    hide Cong;
    var inv := Inverse(p, den);
    slope := num * inv;
    CongRefl(p, num);
    CongMul(p, num, num, den * inv, 1);
    assert slope * den == num * (den * inv) by {
      MulAssoc(num, inv, den);
      assert inv * den == den * inv;
    }
  }

  lemma ThirdExists(p: int, slope: int, x1: int, y1: int, x2: int) returns (r: Affine)
    requires p > 1
    ensures OnLine(p, slope, x1, y1, x2, r)
  {
    hide Cong;
    var x := (slope * slope - x1 - x2) % p;
    CongReduced(p, slope * slope - x1 - x2);
    CongReduced(p, slope * (x1 - x) - y1);
    r := Affine.Affine(x, (slope * (x1 - x) - y1) % p);
  }

  lemma TangentSlope(p: int, y: int)
    requires IsPrime(p) && p > 3 && Reduced(p, y) && y != 0
    ensures !Cong(p, 2 * y, 0)
  {
    hide Cong, IsPrime;
    TwoNotZero(p);
    NotZero(p, y);
    ProductNotZero(p, 2, y);
  }

  lemma ChordRun(p: int, x1: int, x2: int)
    requires IsPrime(p) && Reduced(p, x1) && Reduced(p, x2) && x1 != x2
    ensures !Cong(p, x2 - x1, 0)
  {
    if Cong(p, x2 - x1, 0) {
      assert Cong(p, x2, x1);
      ReducedUnique(p, x2, x1);
    }
  }

  lemma SumExists(p: int, a: Affine, b: Affine) returns (r: Affine)
    requires IsPrime(p) && p > 3 && ReducedAffine(p, a) && ReducedAffine(p, b)
    ensures IsSum(p, a, b, r) && ReducedAffine(p, r)
  {
    hide Cong, IsPrime;
    if a.Infinity? {
      r := b;
    } else if b.Infinity? {
      r := a;
    } else if a.x != b.x {
      ChordRun(p, a.x, b.x);
      var slope := SlopeExists(p, b.y - a.y, b.x - a.x);
      r := ThirdExists(p, slope, a.x, a.y, b.x);
    } else if a.y != b.y || a.y == 0 {
      r := Infinity;
    } else {
      TangentSlope(p, a.y);
      var slope := SlopeExists(p, 3 * (a.x * a.x), 2 * a.y);
      r := ThirdExists(p, slope, a.x, a.y, a.x);
    }
  }

  lemma SlopeUnique(p: int, num: int, den: int, s: int, t: int)
    requires IsPrime(p) && !Cong(p, den, 0) && Cong(p, s * den, num) && Cong(p, t * den, num)
    ensures Cong(p, s, t)
  {
    hide Cong;
    CongSym(p, t * den, num);
    CongTrans(p, s * den, num, t * den);
    Cancel(p, s, t, den);
  }

  lemma ThirdUnique(p: int, s: int, t: int, x1: int, y1: int, x2: int, q: Affine, r: Affine)
    requires p > 1 && Cong(p, s, t) && OnLine(p, s, x1, y1, x2, q) && OnLine(p, t, x1, y1, x2, r)
    ensures q == r
  {
    hide Cong;
    CongMul(p, s, t, s, t);
    CongRefl(p, x1);
    CongRefl(p, x2);
    CongRefl(p, y1);
    CongSub(p, s * s, t * t, x1, x1);
    CongSub(p, s * s - x1, t * t - x1, x2, x2);
    CongTrans(p, q.x, s * s - x1 - x2, t * t - x1 - x2);
    CongSym(p, r.x, t * t - x1 - x2);
    CongTrans(p, q.x, t * t - x1 - x2, r.x);
    ReducedUnique(p, q.x, r.x);
    CongRefl(p, x1 - q.x);
    CongMul(p, s, t, x1 - q.x, x1 - q.x);
    CongSub(p, s * (x1 - q.x), t * (x1 - q.x), y1, y1);
    CongTrans(p, q.y, s * (x1 - q.x) - y1, t * (x1 - q.x) - y1);
    CongSym(p, r.y, t * (x1 - r.x) - y1);
    CongTrans(p, q.y, t * (x1 - q.x) - y1, r.y);
    ReducedUnique(p, q.y, r.y);
  }

  lemma SumUnique(p: int, a: Affine, b: Affine, q: Affine, r: Affine)
    requires IsPrime(p) && p > 3 && ReducedAffine(p, a) && ReducedAffine(p, b)
    requires IsSum(p, a, b, q) && IsSum(p, a, b, r)
    ensures q == r
  {
    hide Cong, IsPrime, OnLine;
    if a.Affine? && b.Affine? {
      if a.x != b.x {
        var s :| Cong(p, s * (b.x - a.x), b.y - a.y) && OnLine(p, s, a.x, a.y, b.x, q);
        var t :| Cong(p, t * (b.x - a.x), b.y - a.y) && OnLine(p, t, a.x, a.y, b.x, r);
        ChordRun(p, a.x, b.x);
        SlopeUnique(p, b.y - a.y, b.x - a.x, s, t);
        ThirdUnique(p, s, t, a.x, a.y, b.x, q, r);
      } else if a.y == b.y && a.y != 0 {
        var s :| Cong(p, s * (2 * a.y), 3 * (a.x * a.x)) && OnLine(p, s, a.x, a.y, a.x, q);
        var t :| Cong(p, t * (2 * a.y), 3 * (a.x * a.x)) && OnLine(p, t, a.x, a.y, a.x, r);
        TangentSlope(p, a.y);
        SlopeUnique(p, 3 * (a.x * a.x), 2 * a.y, s, t);
        ThirdUnique(p, s, t, a.x, a.y, a.x, q, r);
      }
    }
  }

  lemma SumCommutes(p: int, a: Affine, b: Affine, r: Affine)
    requires p > 1 && IsSum(p, a, b, r)
    ensures IsSum(p, b, a, r)
  {
    hide Cong, OnLine;
    if a.Affine? && b.Affine? && a.x != b.x {
      var s :| Cong(p, s * (b.x - a.x), b.y - a.y) && OnLine(p, s, a.x, a.y, b.x, r);
      ChordReversed(p, s, a.x, a.y, b.x, b.y, r);
    }
  }

  lemma ChordReversed(p: int, s: int, x1: int, y1: int, x2: int, y2: int, r: Affine)
    requires p > 1 && Cong(p, s * (x2 - x1), y2 - y1) && OnLine(p, s, x1, y1, x2, r)
    ensures Cong(p, s * (x1 - x2), y1 - y2) && OnLine(p, s, x2, y2, x1, r)
  {
    hide Cong;
    CongRefl(p, 0);
    CongSub(p, 0, 0, s * (x2 - x1), y2 - y1);
    assert 0 - s * (x2 - x1) == s * (x1 - x2);
    assert 0 - (y2 - y1) == y1 - y2;
    assert s * s - x1 - x2 == s * s - x2 - x1;
    CongRefl(p, s * (x2 - r.x) - y2);
    CongSub(p, s * (x2 - r.x) - y2, s * (x2 - r.x) - y2, s * (x2 - x1), y2 - y1);
    assert s * (x2 - r.x) - s * (x2 - x1) == s * (x1 - r.x);
    CongAdd(p, s * (x2 - r.x) - y2 - s * (x2 - x1), s * (x2 - r.x) - y2 - (y2 - y1), y2 - y1, y2 - y1)
      by { CongRefl(p, y2 - y1); }
    CongTrans(p, r.y, s * (x1 - r.x) - y1, s * (x2 - r.x) - y2);
  }

  // ---------------------------------------------------------------------------------------------
  // The third point lies on the curve
  // ---------------------------------------------------------------------------------------------

  /** (x - x1) * LineQuotient(x) is x^3 + 7 less the square of the line, for a line through a point of the curve. */
  function LineQuotient(s: int, x1: int, y1: int, x: int): int {
    x * x + x * x1 + x1 * x1 - s * s * (x - x1) - 2 * (s * y1)
  }

  lemma LineQuotientDifference(s: int, x1: int, y1: int, x2: int, x: int)
    ensures LineQuotient(s, x1, y1, x) - LineQuotient(s, x1, y1, x2) == (x - x2) * (x + x1 + x2 - s * s)
  {
  }

  lemma LineQuotientIs(s: int, x1: int, y1: int, x: int)
    ensures (x1 - x) * LineQuotient(s, x1, y1, x)
         == (s * (x1 - x) - y1) * (s * (x1 - x) - y1) - y1 * y1 - x * x * x + x1 * x1 * x1
  {
    var d := x1 - x;
    assert d * (x * x + x * x1 + x1 * x1) == x1 * x1 * x1 - x * x * x;
    assert d * (s * s * (x - x1)) == -((s * d) * (s * d));
    assert d * (2 * (s * y1)) == 2 * ((s * d) * y1);
    assert (s * d - y1) * (s * d - y1) == (s * d) * (s * d) - 2 * ((s * d) * y1) + y1 * y1;
    MulAdd(x * x + x * x1 + x1 * x1, -(s * s * (x - x1)) - 2 * (s * y1), d);
  }

  lemma ThirdOnCurve(p: int, s: int, x1: int, y1: int, x2: int, r: Affine)
    requires p > 1 && OnLine(p, s, x1, y1, x2, r)
    requires Cong(p, y1 * y1, x1 * x1 * x1 + 7) && Cong(p, LineQuotient(s, x1, y1, x2), 0)
    ensures OnCurve(p, r)
  {
    hide Cong, LineQuotient;
    var x, d := r.x, x1 - r.x;
    var line := s * d - y1;
    LineQuotientVanishes(p, s, x1, y1, x2, x);
    CongRefl(p, d);
    CongMul(p, d, d, LineQuotient(s, x1, y1, x), 0);
    LineQuotientIs(s, x1, y1, x);
    // line^2 == x^3 + 7
    CongRefl(p, x * x * x - x1 * x1 * x1);
    CongAdd(p, line * line - y1 * y1 - x * x * x + x1 * x1 * x1, d * 0, y1 * y1, x1 * x1 * x1 + 7);
    CongAdd(p, line * line - x * x * x + x1 * x1 * x1, x1 * x1 * x1 + 7, x * x * x - x1 * x1 * x1, x * x * x - x1 * x1 * x1);
    CongMul(p, r.y, line, r.y, line);
    CongTrans(p, r.y * r.y, line * line, x * x * x + 7);
  }

  /** The quotient vanishes at the third point because it vanishes at the second. */
  lemma LineQuotientVanishes(p: int, s: int, x1: int, y1: int, x2: int, x: int)
    requires p > 1 && Cong(p, x, s * s - x1 - x2) && Cong(p, LineQuotient(s, x1, y1, x2), 0)
    ensures Cong(p, LineQuotient(s, x1, y1, x), 0)
  {
    hide Cong, LineQuotient;
    var m := x1 + x2 - s * s;
    CongRefl(p, m);
    CongAdd(p, x, s * s - x1 - x2, m, m);
    assert s * s - x1 - x2 + m == 0;
    CongRefl(p, x - x2);
    CongMul(p, x - x2, x - x2, x + m, 0);
    LineQuotientDifference(s, x1, y1, x2, x);
    assert x + m == x + x1 + x2 - s * s;
    CongAdd(p, (x - x2) * (x + m), (x - x2) * 0, LineQuotient(s, x1, y1, x2), 0);
  }

  lemma TangentQuotient(p: int, s: int, x1: int, y1: int)
    requires p > 1 && Cong(p, s * (2 * y1), 3 * (x1 * x1))
    ensures Cong(p, LineQuotient(s, x1, y1, x1), 0)
  {
    hide Cong;
    CongSym(p, s * (2 * y1), 3 * (x1 * x1));
    CongRefl(p, s * (2 * y1));
    CongSub(p, 3 * (x1 * x1), s * (2 * y1), s * (2 * y1), s * (2 * y1));
    assert LineQuotient(s, x1, y1, x1) == 3 * (x1 * x1) - s * (2 * y1);
  }

  lemma ChordQuotient(p: int, s: int, x1: int, y1: int, x2: int, y2: int)
    requires IsPrime(p) && !Cong(p, x2 - x1, 0) && Cong(p, s * (x2 - x1), y2 - y1)
    requires Cong(p, y1 * y1, x1 * x1 * x1 + 7) && Cong(p, y2 * y2, x2 * x2 * x2 + 7)
    ensures Cong(p, LineQuotient(s, x1, y1, x2), 0)
  {
    hide Cong, LineQuotient;
    var m := s * (x2 - x1);
    var line := s * (x1 - x2) - y1;
    LineQuotientIs(s, x1, y1, x2);
    // line == -y2
    CongRefl(p, -y1);
    CongSub(p, -y1, -y1, m, y2 - y1);
    assert line == -y1 - m;
    CongMul(p, line, -y2, line, -y2);
    assert (-y2) * (-y2) == y2 * y2;
    CongTrans(p, line * line, y2 * y2, x2 * x2 * x2 + 7);
    CongSub(p, line * line, x2 * x2 * x2 + 7, y1 * y1, x1 * x1 * x1 + 7);
    CongRefl(p, x1 * x1 * x1 - x2 * x2 * x2);
    CongAdd(p, line * line - y1 * y1, x2 * x2 * x2 - x1 * x1 * x1,
            x1 * x1 * x1 - x2 * x2 * x2, x1 * x1 * x1 - x2 * x2 * x2);
    assert Cong(p, (x1 - x2) * LineQuotient(s, x1, y1, x2), 0);
    NoZeroDivisors(p, x1 - x2, LineQuotient(s, x1, y1, x2));
    if Cong(p, x1 - x2, 0) {
      CongRefl(p, 0);
      CongSub(p, 0, 0, x1 - x2, 0);
    }
  }

  /** The curve is closed under the chord and tangent rule. */
  lemma SumOnCurve(p: int, a: Affine, b: Affine, r: Affine)
    requires IsPrime(p) && p > 3 && OnCurve(p, a) && OnCurve(p, b) && IsSum(p, a, b, r)
    ensures OnCurve(p, r)
  {
    hide Cong, IsPrime, OnLine, LineQuotient;
    if a.Affine? && b.Affine? {
      if a.x != b.x {
        var s :| Cong(p, s * (b.x - a.x), b.y - a.y) && OnLine(p, s, a.x, a.y, b.x, r);
        ChordRun(p, a.x, b.x);
        ChordQuotient(p, s, a.x, a.y, b.x, b.y);
        ThirdOnCurve(p, s, a.x, a.y, b.x, r);
      } else if a.y == b.y && a.y != 0 {
        var s :| Cong(p, s * (2 * a.y), 3 * (a.x * a.x)) && OnLine(p, s, a.x, a.y, a.x, r);
        TangentQuotient(p, s, a.x, a.y);
        ThirdOnCurve(p, s, a.x, a.y, a.x, r);
      }
    }
  }

  // ---------------------------------------------------------------------------------------------
  // The group
  // ---------------------------------------------------------------------------------------------

  ghost predicate SumDefined(p: int, a: Affine, b: Affine)
    requires p > 1
  {
    exists r :: IsSum(p, a, b, r) && ReducedAffine(p, r)
  }

  /** a + b. */
  ghost function Sum(p: int, a: Affine, b: Affine): Affine
    requires p > 1
  {
    if SumDefined(p, a, b) then
      var r :| IsSum(p, a, b, r) && ReducedAffine(p, r);
      r
    else Infinity
  }

  lemma SumIs(p: int, a: Affine, b: Affine)
    requires IsPrime(p) && p > 3 && OnCurve(p, a) && OnCurve(p, b)
    ensures IsSum(p, a, b, Sum(p, a, b)) && OnCurve(p, Sum(p, a, b))
  {
    var r := SumExists(p, a, b);
    hide Cong, IsPrime, IsSum, OnCurve;
    assert SumDefined(p, a, b);
    SumOnCurve(p, a, b, Sum(p, a, b));
  }

  lemma Commutative(p: int, a: Affine, b: Affine)
    requires IsPrime(p) && p > 3 && OnCurve(p, a) && OnCurve(p, b)
    ensures Sum(p, a, b) == Sum(p, b, a)
  {
    SumIs(p, a, b);
    SumIs(p, b, a);
    hide Cong, IsPrime, IsSum, Sum;
    SumCommutes(p, a, b, Sum(p, a, b));
    SumUnique(p, b, a, Sum(p, a, b), Sum(p, b, a));
  }

  lemma InfinityIsNeutral(p: int, a: Affine)
    requires IsPrime(p) && p > 3 && OnCurve(p, a)
    ensures Sum(p, Infinity, a) == a && Sum(p, a, Infinity) == a
  {
    SumIs(p, Infinity, a);
    SumIs(p, a, Infinity);
  }

  /** The hypothesis about the curve: its addition is associative. */
  ghost predicate Associative(p: int)
    requires p > 1
  {
    forall a, b, c | OnCurve(p, a) && OnCurve(p, b) && OnCurve(p, c) ::
      Sum(p, Sum(p, a, b), c) == Sum(p, a, Sum(p, b, c))
  }

  /** A prime p > 3 for which the curve is a group. */
  ghost predicate Group(p: int) {
    IsPrime(p) && p > 3 && Associative(p)
  }

  lemma Modulus(p: int)
    requires Group(p)
    ensures p > 3 && IsPrime(p)
  {
  }

  lemma Assoc(p: int, a: Affine, b: Affine, c: Affine)
    requires Group(p) && OnCurve(p, a) && OnCurve(p, b) && OnCurve(p, c)
    ensures Sum(p, Sum(p, a, b), c) == Sum(p, a, Sum(p, b, c))
  {
    hide OnCurve, Sum, IsPrime;
  }

  lemma Closed(p: int, a: Affine, b: Affine)
    requires Group(p) && OnCurve(p, a) && OnCurve(p, b)
    ensures OnCurve(p, Sum(p, a, b)) && Sum(p, a, b) == Sum(p, b, a)
  {
    SumIs(p, a, b);
    Commutative(p, a, b);
  }

  /** n times a. */
  ghost function Times(p: int, n: nat, a: Affine): Affine
    requires p > 1
  {
    if n == 0 then Infinity else Sum(p, Times(p, n - 1, a), a)
  }

  lemma {:induction false} TimesOnCurve(p: int, n: nat, a: Affine)
    requires Group(p) && OnCurve(p, a)
    ensures OnCurve(p, Times(p, n, a))
  {
    if n > 0 {
      TimesOnCurve(p, n - 1, a);
      Closed(p, Times(p, n - 1, a), a);
    }
  }

  lemma {:induction false} TimesAdd(p: int, m: nat, n: nat, a: Affine)
    requires Group(p) && OnCurve(p, a)
    ensures Times(p, m + n, a) == Sum(p, Times(p, m, a), Times(p, n, a))
  {
    hide OnCurve, Sum;
    TimesOnCurve(p, m, a);
    if n == 0 {
      InfinityIsNeutral(p, Times(p, m, a));
    } else {
      TimesAdd(p, m, n - 1, a);
      TimesOnCurve(p, n - 1, a);
      Assoc(p, Times(p, m, a), Times(p, n - 1, a), a);
    }
  }

  /** (a + b) + (c + d) == (a + c) + (b + d) */
  lemma Interchange(p: int, a: Affine, b: Affine, c: Affine, d: Affine)
    requires Group(p) && OnCurve(p, a) && OnCurve(p, b) && OnCurve(p, c) && OnCurve(p, d)
    ensures Sum(p, Sum(p, a, b), Sum(p, c, d)) == Sum(p, Sum(p, a, c), Sum(p, b, d))
  {
    hide OnCurve, Sum, Group;
    Modulus(p);
    Closed(p, c, d);
    Closed(p, b, d);
    Closed(p, b, c);
    Assoc(p, a, b, Sum(p, c, d));
    Assoc(p, b, c, d);
    Assoc(p, c, b, d);
    Assoc(p, a, c, Sum(p, b, d));
  }

  /** m a + n b. */
  ghost function Chosen(p: int, m: nat, n: nat, a: Affine, b: Affine): Affine
    requires p > 1
  {
    Sum(p, Times(p, m, a), Times(p, n, b))
  }

  lemma TwinSum(p: int, m: nat, n: nat, i: nat, j: nat, a: Affine, b: Affine)
    requires Group(p) && OnCurve(p, a) && OnCurve(p, b)
    ensures Sum(p, Chosen(p, m, n, a, b), Chosen(p, i, j, a, b)) == Chosen(p, m + i, n + j, a, b)
  {
    hide OnCurve, Sum, Times, Group;
    Modulus(p);
    TimesOnCurve(p, m, a);
    TimesOnCurve(p, n, b);
    TimesOnCurve(p, i, a);
    TimesOnCurve(p, j, b);
    Interchange(p, Times(p, m, a), Times(p, n, b), Times(p, i, a), Times(p, j, b));
    TimesAdd(p, m, i, a);
    TimesAdd(p, n, j, b);
  }

  /** One step of twinMult: doubling m a + n b and adding the next bits. */
  lemma TwinStep(p: int, m: nat, n: nat, i: nat, j: nat, a: Affine, b: Affine)
    requires Group(p) && OnCurve(p, a) && OnCurve(p, b)
    ensures var r := Chosen(p, m, n, a, b);
            Sum(p, Sum(p, r, r), Chosen(p, i, j, a, b)) == Chosen(p, m + m + i, n + n + j, a, b)
  {
    hide *;
    Modulus(p);
    TwinSum(p, m, n, m, n, a, b);
    TwinSum(p, m + m, n + n, i, j, a, b);
  }

  // ---------------------------------------------------------------------------------------------
  // The Jacobian formulas in the group
  // ---------------------------------------------------------------------------------------------

  /** double computes a + a. */
  lemma DoubleRepresents(p: int, j: Point, a: Affine)
    requires IsPrime(p) && p > 3 && OnCurve(p, a) && Represents(p, j, a)
    ensures Represents(p, Double(p, j), Sum(p, a, a))
  {
    SumIs(p, a, a);
    hide Represents, Double, Sum, IsPrime, IsSum;
    DoubleIsSum(p, j, a, Sum(p, a, a));
  }

  /** add computes a + b. */
  lemma AddRepresents(p: int, j: Point, k: Point, a: Affine, b: Affine)
    requires IsPrime(p) && p > 3 && OnCurve(p, a) && OnCurve(p, b) && Represents(p, j, a) && Represents(p, k, b)
    ensures Represents(p, Add(p, j, k), Sum(p, a, b))
  {
    SumIs(p, a, b);
    hide Represents, Add, Sum, IsPrime, IsSum;
    AddIsSum(p, j, k, a, b, Sum(p, a, b));
  }

  lemma AffinePointRepresents(p: int, x: int, y: int)
    requires p > 1 && Reduced(p, x) && Reduced(p, y)
    ensures Represents(p, Point(x, y, 1), Affine.Affine(x, y))
  {
    CongRefl(p, x);
    CongRefl(p, y);
  }

  /** The affine x of a Jacobian form, computed with an inverse of its z. */
  lemma AffineXIs(p: int, j: Point, a: Affine, inv: int)
    requires p > 1 && Represents(p, j, a) && a.Affine? && Reduced(p, a.x) && Cong(p, j.z * inv, 1)
    ensures MulP(p, j.x, MulP(p, inv, inv)) == a.x
  {
    hide Cong, MulP;
    var z := j.z;
    CongRefl(p, inv);
    CongRefl(p, a.x);
    MulC(p, inv, inv, inv, inv);
    MulC(p, j.x, MulP(p, inv, inv), a.x * (z * z), inv * inv);
    CongMul(p, z * inv, 1, z * inv, 1);
    SquareOf(z, inv);
    CongMul(p, a.x, a.x, (z * inv) * (z * inv), 1);
    MulAssoc(a.x, z * z, inv * inv);
    CongTrans(p, MulP(p, j.x, MulP(p, inv, inv)), (a.x * (z * z)) * (inv * inv), a.x);
    ReducedUnique(p, MulP(p, j.x, MulP(p, inv, inv)), a.x);
  }

  // ---------------------------------------------------------------------------------------------
  // twinMult
  // ---------------------------------------------------------------------------------------------

  /** How many bits a has; 0 for 0. */
  function BitLen(a: nat): nat {
    if a == 0 then 0 else 1 + BitLen(a / 2)
  }

  function Bit(a: nat, i: nat): nat {
    Shr(a, i) % 2
  }

  function Max(a: int, b: int): int {
    if a < b then b else a
  }

  lemma {:induction false} NothingAbove(a: nat, i: nat)
    requires i >= BitLen(a)
    ensures a < Pow2(i)
  {
    if a > 0 {
      NothingAbove(a / 2, i - 1);
    }
  }

  lemma NextBit(a: nat, i: nat)
    ensures Shr(a, i) == Shr(a, i + 1) + Shr(a, i + 1) + Bit(a, i) && 0 <= Bit(a, i) < 2
  {
    assert Pow2(i + 1) == 2 * Pow2(i);
    hide Pow2;
    var q := Shr(a, i);
    var d, r := q / 2, q % 2;
    assert a == q * Pow2(i) + a % Pow2(i);
    assert (2 * d + r) * Pow2(i) == d * (2 * Pow2(i)) + r * Pow2(i);
    assert r * Pow2(i) + a % Pow2(i) < 2 * Pow2(i);
    DivModUnique(a, 2 * Pow2(i), d, r * Pow2(i) + a % Pow2(i));
  }

  lemma NoShift(a: nat)
    ensures Shr(a, 0) == a
  {
  }

  lemma AllShifted(a: nat, i: nat)
    requires i >= BitLen(a)
    ensures Shr(a, i) == 0
  {
    hide BitLen, Pow2;
    NothingAbove(a, i);
    DivModUnique(a, Pow2(i), 0, a);
  }

  lemma TimesOne(p: int, a: Affine)
    requires Group(p) && OnCurve(p, a)
    ensures Times(p, 0, a) == Infinity && Times(p, 1, a) == a && OnCurve(p, Infinity)
  {
    InfinityIsNeutral(p, a);
    hide Sum;
    assert Times(p, 1, a) == Sum(p, Times(p, 0, a), a);
  }

  lemma ChosenIs(p: int, a: Affine, b: Affine)
    requires Group(p) && OnCurve(p, a) && OnCurve(p, b)
    ensures Chosen(p, 0, 0, a, b) == Infinity && Chosen(p, 1, 0, a, b) == a
    ensures Chosen(p, 0, 1, a, b) == b && Chosen(p, 1, 1, a, b) == Sum(p, a, b)
  {
    hide OnCurve, Sum, Times, Associative, IsPrime;
    Modulus(p);
    TimesOne(p, a);
    TimesOne(p, b);
    InfinityIsNeutral(p, a);
    InfinityIsNeutral(p, b);
    InfinityIsNeutral(p, Infinity);
  }

  lemma SumRepresented(p: int, j: Point, k: Point, ja: Affine, kb: Affine)
    requires Group(p) && OnCurve(p, ja) && OnCurve(p, kb) && Represents(p, j, ja) && Represents(p, k, kb)
    ensures Represents(p, Add(p, j, k), Sum(p, ja, kb))
  {
    hide *;
    Modulus(p);
    AddRepresents(p, j, k, ja, kb);
  }

  lemma Origin(p: int)
    requires p > 1
    ensures Represents(p, INFINITY, Infinity)
  {
  }

  lemma StartOfTwinMult(p: int, a: nat, b: nat, top: nat, ja: Affine, kb: Affine)
    requires Group(p) && OnCurve(p, ja) && OnCurve(p, kb) && top >= BitLen(a) && top >= BitLen(b)
    ensures Represents(p, INFINITY, Chosen(p, Shr(a, top), Shr(b, top), ja, kb))
  {
    hide *;
    Modulus(p);
    Origin(p);
    AllShifted(a, top);
    AllShifted(b, top);
    ChosenIs(p, ja, kb);
  }

  /** What one round of the loop makes of r. */
  function Round(p: int, r: Point, x: nat, y: nat, j: Point, k: Point): Point
    requires p > 1
  {
    var d := Double(p, r);
    if x == 1 && y == 1 then Add(p, d, Add(p, j, k))
    else if x == 1 then Add(p, d, j)
    else if y == 1 then Add(p, d, k)
    else d
  }

  lemma StepRepresents(p: int, r: Point, m: nat, n: nat, x: nat, y: nat, j: Point, k: Point, ja: Affine, kb: Affine)
    requires Group(p) && OnCurve(p, ja) && OnCurve(p, kb) && Represents(p, j, ja) && Represents(p, k, kb)
    requires Represents(p, r, Chosen(p, m, n, ja, kb)) && x < 2 && y < 2
    ensures Represents(p, Round(p, r, x, y, j, k), Chosen(p, m + m + x, n + n + y, ja, kb))
  {
    hide OnCurve, Sum, Times, Group, Add, Double, Represents, Chosen, IsPrime;
    Modulus(p);
    var s := Chosen(p, m, n, ja, kb);
    var d, dd := Double(p, r), Sum(p, s, s);
    ChosenOnCurve(p, m, n, ja, kb);
    Closed(p, s, s);
    Closed(p, ja, kb);
    DoubleRepresents(p, r, s);
    SumRepresented(p, j, k, ja, kb);
    ChosenIs(p, ja, kb);
    TwinStep(p, m, n, x, y, ja, kb);
    if x == 1 && y == 1 {
      SumRepresented(p, d, Add(p, j, k), dd, Sum(p, ja, kb));
    } else if x == 1 {
      SumRepresented(p, d, j, dd, ja);
    } else if y == 1 {
      SumRepresented(p, d, k, dd, kb);
    } else {
      InfinityIsNeutral(p, dd);
    }
  }

  lemma ChosenOnCurve(p: int, m: nat, n: nat, a: Affine, b: Affine)
    requires Group(p) && OnCurve(p, a) && OnCurve(p, b)
    ensures OnCurve(p, Chosen(p, m, n, a, b))
  {
    hide OnCurve, Sum, Times, Group;
    Modulus(p);
    TimesOnCurve(p, m, a);
    TimesOnCurve(p, n, b);
    Closed(p, Times(p, m, a), Times(p, n, b));
  }

  /**
   * a P + b Q in one pass over the bits, high to low. What is computed is the sum in the group, whatever Jacobian
   * forms the two points have.
   */
  method TwinMult(p: int, a: nat, j: Point, b: nat, k: Point, ghost ja: Affine, ghost kb: Affine) returns (r: Point)
    requires Group(p) && OnCurve(p, ja) && OnCurve(p, kb) && Represents(p, j, ja) && Represents(p, k, kb)
    ensures Represents(p, r, Sum(p, Times(p, a, ja), Times(p, b, kb)))
  {
    hide OnCurve, Sum, Times, Group, Add, Double, Represents, Shr, BitLen, Bit;
    Modulus(p);
    var jk := Add(p, j, k);
    SumRepresented(p, j, k, ja, kb);
    r := INFINITY;
    var i := Max(BitLen(a), BitLen(b)) - 1;
    StartOfTwinMult(p, a, b, i + 1, ja, kb);
    while i >= 0
      invariant -1 <= i
      invariant Represents(p, r, Chosen(p, Shr(a, i + 1), Shr(b, i + 1), ja, kb))
    {
      ghost var before := r;
      r := Double(p, r);
      if Bit(a, i) == 1 && Bit(b, i) == 1 {
        r := Add(p, r, jk);
      } else if Bit(a, i) == 1 {
        r := Add(p, r, j);
      } else if Bit(b, i) == 1 {
        r := Add(p, r, k);
      }
      NextBit(a, i);
      NextBit(b, i);
      StepRepresents(p, before, Shr(a, i + 1), Shr(b, i + 1), Bit(a, i), Bit(b, i), j, k, ja, kb);
      i := i - 1;
    }
    NoShift(a);
    NoShift(b);
  }
}
