// Point arithmetic on secp256k1 in Jacobian coordinates: double, add and twinMult in
// internal/bip322/secp256k1.go. Everything is stated for an arbitrary prime p > 3 in place of curveP.
module Curve {
  import opened ConvertBits
  import opened Modular

  /** A point in Jacobian coordinates (x/z^2, y/z^3); z == 0 is the point at infinity. */
  datatype Point = Point(x: int, y: int, z: int)

  // ---------------------------------------------------------------------------------------------
  // The code
  // ---------------------------------------------------------------------------------------------

  function MulP(p: int, a: int, b: int): int
    requires p > 1
  {
    a * b % p
  }

  function SubP(p: int, a: int, b: int): int
    requires p > 1
  {
    (a - b) % p
  }

  function AddP(p: int, a: int, b: int): int
    requires p > 1
  {
    (a + b) % p
  }

  function SmallP(p: int, k: int, a: int): int
    requires p > 1
  {
    k * a % p
  }

  const INFINITY := Point(0, 0, 0)

  function Double(p: int, j: Point): Point
    requires p > 1
  {
    if j.z == 0 || j.y == 0 then INFINITY
    else
      var a := MulP(p, j.x, j.x);
      var b := MulP(p, j.y, j.y);
      var c := MulP(p, b, b);
      var xb := AddP(p, j.x, b);
      var d := SmallP(p, 2, SubP(p, SubP(p, MulP(p, xb, xb), a), c));
      var e := SmallP(p, 3, a);
      var f := MulP(p, e, e);
      var x3 := SubP(p, f, SmallP(p, 2, d));
      var y3 := SubP(p, MulP(p, e, SubP(p, d, x3)), SmallP(p, 8, c));
      var z3 := SmallP(p, 2, MulP(p, j.y, j.z));
      Point(x3, y3, z3)
  }

  function Add(p: int, j: Point, k: Point): Point
    requires p > 1
  {
    if j.z == 0 then k
    else if k.z == 0 then j
    else
      var z1z1 := MulP(p, j.z, j.z);
      var z2z2 := MulP(p, k.z, k.z);
      var u1 := MulP(p, j.x, z2z2);
      var u2 := MulP(p, k.x, z1z1);
      var s1 := MulP(p, MulP(p, j.y, k.z), z2z2);
      var s2 := MulP(p, MulP(p, k.y, j.z), z1z1);
      var h := SubP(p, u2, u1);
      var r := SmallP(p, 2, SubP(p, s2, s1));
      if h == 0 then
        if r == 0 then Double(p, j) else INFINITY
      else
        var h2 := SmallP(p, 2, h);
        var i := MulP(p, h2, h2);
        var jj := MulP(p, h, i);
        var v := MulP(p, u1, i);
        var x3 := SubP(p, SubP(p, MulP(p, r, r), jj), SmallP(p, 2, v));
        var y3 := SubP(p, MulP(p, r, SubP(p, v, x3)), SmallP(p, 2, MulP(p, s1, jj)));
        var zz := AddP(p, j.z, k.z);
        var z3 := MulP(p, SubP(p, SubP(p, MulP(p, zz, zz), z1z1), z2z2), h);
        Point(x3, y3, z3)
  }

  // ---------------------------------------------------------------------------------------------
  // The points they stand for
  // ---------------------------------------------------------------------------------------------

  /** An affine point with coordinates in 0..p, or the point at infinity. */
  datatype Affine = Infinity | Affine(x: int, y: int)

  predicate Reduced(p: int, a: int) {
    0 <= a < p
  }

  predicate ReducedAffine(p: int, a: Affine) {
    a.Affine? ==> Reduced(p, a.x) && Reduced(p, a.y)
  }

  /** j is a Jacobian form of a. */
  predicate Represents(p: int, j: Point, a: Affine)
    requires p > 1
  {
    && Reduced(p, j.x) && Reduced(p, j.y) && Reduced(p, j.z)
    && match a
       case Infinity => j.z == 0
       case Affine(x, y) => j.z != 0 && Cong(p, j.x, x * (j.z * j.z)) && Cong(p, j.y, y * (j.z * j.z * j.z))
  }

  /** The third point of the line with this slope through a point with x-coordinate x1 and another with x2. */
  predicate OnLine(p: int, slope: int, x1: int, y1: int, x2: int, r: Affine)
    requires p > 1
  {
    && r.Affine? && ReducedAffine(p, r)
    && Cong(p, r.x, slope * slope - x1 - x2)
    && Cong(p, r.y, slope * (x1 - r.x) - y1)
  }

  /** r is the sum of a and b by the chord and tangent rule. */
  ghost predicate IsSum(p: int, a: Affine, b: Affine, r: Affine)
    requires p > 1
  {
    if a.Infinity? then r == b
    else if b.Infinity? then r == a
    else if a.x == b.x then
      if a.y != b.y || a.y == 0 then r.Infinity?
      else exists slope {:trigger OnLine(p, slope, a.x, a.y, a.x, r)} ::
             Cong(p, slope * (2 * a.y), 3 * (a.x * a.x)) && OnLine(p, slope, a.x, a.y, a.x, r)
    else exists slope {:trigger OnLine(p, slope, a.x, a.y, b.x, r)} ::
           Cong(p, slope * (b.x - a.x), b.y - a.y) && OnLine(p, slope, a.x, a.y, b.x, r)
  }

  // ---------------------------------------------------------------------------------------------
  // Congruences of the field operations
  // ---------------------------------------------------------------------------------------------

  lemma MulC(p: int, a: int, b: int, a': int, b': int)
    requires p > 1 && Cong(p, a, a') && Cong(p, b, b')
    ensures Cong(p, MulP(p, a, b), a' * b') && Reduced(p, MulP(p, a, b))
  {
    hide Cong;
    CongMul(p, a, a', b, b');
    CongReduced(p, a * b);
    CongTrans(p, a * b % p, a * b, a' * b');
  }

  lemma SubC(p: int, a: int, b: int, a': int, b': int)
    requires p > 1 && Cong(p, a, a') && Cong(p, b, b')
    ensures Cong(p, SubP(p, a, b), a' - b') && Reduced(p, SubP(p, a, b))
  {
    hide Cong;
    CongSub(p, a, a', b, b');
    CongReduced(p, a - b);
    CongTrans(p, (a - b) % p, a - b, a' - b');
  }

  lemma AddC(p: int, a: int, b: int, a': int, b': int)
    requires p > 1 && Cong(p, a, a') && Cong(p, b, b')
    ensures Cong(p, AddP(p, a, b), a' + b') && Reduced(p, AddP(p, a, b))
  {
    hide Cong;
    CongAdd(p, a, a', b, b');
    CongReduced(p, a + b);
    CongTrans(p, (a + b) % p, a + b, a' + b');
  }

  lemma SmallC(p: int, k: int, a: int, a': int)
    requires p > 1 && Cong(p, a, a')
    ensures Cong(p, SmallP(p, k, a), k * a') && Reduced(p, SmallP(p, k, a))
  {
    hide Cong;
    CongRefl(p, k);
    CongMul(p, k, k, a, a');
    CongReduced(p, k * a);
    CongTrans(p, k * a % p, k * a, k * a');
  }

  /** Both formulas end alike: from the slope in Jacobian form to the coordinates of the new point. */
  lemma ThirdPoint(p: int, w: int, slope: int, x1: int, y1: int, x2: int, r: Affine, e: int, d: int, g: int, x3: int, y3: int)
    requires p > 1 && OnLine(p, slope, x1, y1, x2, r)
    requires Cong(p, e, slope * w) && Cong(p, d, x1 * (w * w)) && Cong(p, g, y1 * (w * w * w))
    requires Cong(p, x3, (slope * w) * (slope * w) - (x1 + x2) * (w * w))
    requires y3 == SubP(p, MulP(p, e, SubP(p, d, x3)), g)
    ensures Cong(p, x3, r.x * (w * w)) && Cong(p, y3, r.y * (w * w * w)) && Reduced(p, y3)
  {
    hide Cong, SubP, MulP;
    CongRefl(p, w * w);
    CongMul(p, r.x, slope * slope - x1 - x2, w * w, w * w);
    LineX(slope, x1, x2, w);
    CongSym(p, r.x * (w * w), (slope * w) * (slope * w) - (x1 + x2) * (w * w));
    CongTrans(p, x3, (slope * w) * (slope * w) - (x1 + x2) * (w * w), r.x * (w * w));
    SubC(p, d, x3, x1 * (w * w), r.x * (w * w));
    MulC(p, e, SubP(p, d, x3), slope * w, x1 * (w * w) - r.x * (w * w));
    SubC(p, MulP(p, e, SubP(p, d, x3)), g, (slope * w) * (x1 * (w * w) - r.x * (w * w)), y1 * (w * w * w));
    LineY(slope, x1, y1, r.x, w);
    CongRefl(p, w * w * w);
    CongMul(p, r.y, slope * (x1 - r.x) - y1, w * w * w, w * w * w);
    CongSym(p, r.y * (w * w * w), (slope * (x1 - r.x) - y1) * (w * w * w));
    CongTrans(p, y3, (slope * (x1 - r.x) - y1) * (w * w * w), r.y * (w * w * w));
  }

  lemma LineX(slope: int, x1: int, x2: int, w: int)
    ensures (slope * slope - x1 - x2) * (w * w) == (slope * w) * (slope * w) - (x1 + x2) * (w * w)
  {
  }

  lemma LineY(slope: int, x1: int, y1: int, x: int, w: int)
    ensures (slope * w) * (x1 * (w * w) - x * (w * w)) - y1 * (w * w * w) == (slope * (x1 - x) - y1) * (w * w * w)
  {
  }

  /** Exchanges the factor of a Jacobian form for one that is congruent to it. */
  lemma Rescale(p: int, z: int, w: int, x: int, y: int, jx: int, jy: int)
    requires p > 1 && Cong(p, z, w) && Cong(p, jx, x * (w * w)) && Cong(p, jy, y * (w * w * w))
    ensures Cong(p, jx, x * (z * z)) && Cong(p, jy, y * (z * z * z))
  {
    hide Cong;
    CongSym(p, z, w);
    CongMul(p, w, z, w, z);
    CongMul(p, w * w, z * z, w, z);
    CongRefl(p, x);
    CongRefl(p, y);
    CongMul(p, x, x, w * w, z * z);
    CongMul(p, y, y, w * w * w, z * z * z);
    CongTrans(p, jx, x * (w * w), x * (z * z));
    CongTrans(p, jy, y * (w * w * w), y * (z * z * z));
  }

  // ---------------------------------------------------------------------------------------------
  // Zero tests
  // ---------------------------------------------------------------------------------------------

  lemma NotZero(p: int, a: int)
    requires p > 1 && Reduced(p, a)
    ensures Cong(p, a, 0) <==> a == 0
  {
    CongRefl(p, 0);
    if Cong(p, a, 0) {
      ReducedUnique(p, a, 0);
    }
  }

  lemma ProductNotZero(p: int, a: int, b: int)
    requires IsPrime(p)
    ensures Cong(p, a * b, 0) <==> Cong(p, a, 0) || Cong(p, b, 0)
  {
    if Cong(p, a * b, 0) {
      NoZeroDivisors(p, a, b);
    }
    if Cong(p, a, 0) {
      CongRefl(p, b);
      CongMul(p, a, 0, b, b);
    }
    if Cong(p, b, 0) {
      CongRefl(p, a);
      CongMul(p, a, a, b, 0);
    }
  }

  lemma TwoNotZero(p: int)
    requires p > 3
    ensures !Cong(p, 2, 0)
  {
    NotZero(p, 2);
  }

  lemma CongZero(p: int, a: int, b: int)
    requires p > 1 && Cong(p, a, b)
    ensures Cong(p, a, 0) <==> Cong(p, b, 0)
  {
    CongSym(p, a, b);
    if Cong(p, a, 0) { CongTrans(p, b, a, 0); }
    if Cong(p, b, 0) { CongTrans(p, a, b, 0); }
  }

  // ---------------------------------------------------------------------------------------------
  // Doubling
  // ---------------------------------------------------------------------------------------------

  lemma DoubleIdentities(x: int, y: int, z: int, slope: int)
    ensures var xx, yy := x * (z * z), y * (z * z * z); var w := 2 * (yy * z);
            && 2 * ((xx + yy * yy) * (xx + yy * yy) - xx * xx - (yy * yy) * (yy * yy)) == x * (w * w)
            && 8 * ((yy * yy) * (yy * yy)) == y * (w * w * w)
            && 3 * (xx * xx) == (3 * (x * x)) * (z * z * z * z)
            && slope * w == (slope * (2 * y)) * (z * z * z * z)
  {
    var xx, yy := x * (z * z), y * (z * z * z);
    Square(xx, yy * yy);
    DoubleX(x, yy, z);
    Cube(y, yy, z);
    DoubleSlope(x, y, z, slope);
  }

  lemma DoubleX(x: int, yy: int, z: int)
    ensures 4 * ((x * (z * z)) * (yy * yy)) == x * ((2 * (yy * z)) * (2 * (yy * z)))
  {
    assert (2 * (yy * z)) * (2 * (yy * z)) == 4 * ((z * z) * (yy * yy));
    MulAssoc(x, z * z, yy * yy);
  }

  lemma DoubleSlope(x: int, y: int, z: int, slope: int)
    ensures 3 * ((x * (z * z)) * (x * (z * z))) == (3 * (x * x)) * (z * z * z * z)
    ensures slope * (2 * ((y * (z * z * z)) * z)) == (slope * (2 * y)) * (z * z * z * z)
  {
    assert (x * (z * z)) * (x * (z * z)) == (x * x) * (z * z * z * z);
    MulAssoc(y, z * z * z, z);
    MulAssoc(slope, 2 * y, z * z * z * z);
  }

  lemma Square(a: int, b: int)
    ensures (a + b) * (a + b) - a * a - b * b == 2 * (a * b)
  {
  }

  lemma Cube(y: int, yy: int, z: int)
    requires yy == y * (z * z * z)
    ensures 8 * ((yy * yy) * (yy * yy)) == y * ((2 * (yy * z)) * (2 * (yy * z)) * (2 * (yy * z)))
  {
    var c := yy * yy * yy;
    assert (2 * (yy * z)) * (2 * (yy * z)) * (2 * (yy * z)) == 8 * (c * (z * z * z));
    assert y * (8 * (c * (z * z * z))) == 8 * (c * (y * (z * z * z)));
    assert (yy * yy) * (yy * yy) == c * yy;
  }

  /** The intermediate results of Double. */
  lemma DoubleParts(p: int, j: Point, x: int, y: int)
    requires p > 1 && Cong(p, j.x, x * (j.z * j.z)) && Cong(p, j.y, y * (j.z * j.z * j.z))
    ensures var w := 2 * ((y * (j.z * j.z * j.z)) * j.z);
            var a, b := MulP(p, j.x, j.x), MulP(p, j.y, j.y);
            var c, xb := MulP(p, b, b), AddP(p, j.x, b);
            && Cong(p, SmallP(p, 2, SubP(p, SubP(p, MulP(p, xb, xb), a), c)), x * (w * w))
            && Cong(p, SmallP(p, 8, c), y * (w * w * w))
            && Cong(p, SmallP(p, 3, a), (3 * (x * x)) * (j.z * j.z * j.z * j.z))
            && Cong(p, SmallP(p, 2, MulP(p, j.y, j.z)), w)
  {
    hide Cong, MulP, AddP, SubP, SmallP;
    var z := j.z;
    var xx, yy := x * (z * z), y * (z * z * z);
    var a, b := MulP(p, j.x, j.x), MulP(p, j.y, j.y);
    var c, xb := MulP(p, b, b), AddP(p, j.x, b);
    MulC(p, j.x, j.x, xx, xx);
    MulC(p, j.y, j.y, yy, yy);
    MulC(p, b, b, yy * yy, yy * yy);
    AddC(p, j.x, b, xx, yy * yy);
    MulC(p, xb, xb, xx + yy * yy, xx + yy * yy);
    SubC(p, MulP(p, xb, xb), a, (xx + yy * yy) * (xx + yy * yy), xx * xx);
    SubC(p, SubP(p, MulP(p, xb, xb), a), c, (xx + yy * yy) * (xx + yy * yy) - xx * xx, (yy * yy) * (yy * yy));
    SmallC(p, 2, SubP(p, SubP(p, MulP(p, xb, xb), a), c), (xx + yy * yy) * (xx + yy * yy) - xx * xx - (yy * yy) * (yy * yy));
    SmallC(p, 8, c, (yy * yy) * (yy * yy));
    SmallC(p, 3, a, xx * xx);
    CongRefl(p, z);
    MulC(p, j.y, z, yy, z);
    SmallC(p, 2, MulP(p, j.y, z), yy * z);
    DoubleIdentities(x, y, z, 0);
  }

  /** Doubling in the case that computes. */
  lemma DoubleTangent(p: int, j: Point, x: int, y: int, slope: int, r: Affine)
    requires IsPrime(p) && p > 3 && Represents(p, j, Affine(x, y)) && j.y != 0
    requires Cong(p, slope * (2 * y), 3 * (x * x)) && OnLine(p, slope, x, y, x, r)
    ensures Represents(p, Double(p, j), r)
  {
    hide Cong, MulP, AddP, SubP, SmallP;
    var z := j.z;
    var w := 2 * ((y * (z * z * z)) * z);
    var a, b := MulP(p, j.x, j.x), MulP(p, j.y, j.y);
    var c, xb := MulP(p, b, b), AddP(p, j.x, b);
    var d, e := SmallP(p, 2, SubP(p, SubP(p, MulP(p, xb, xb), a), c)), SmallP(p, 3, a);
    var x3 := SubP(p, MulP(p, e, e), SmallP(p, 2, d));
    var g := SmallP(p, 8, c);
    var z3 := SmallP(p, 2, MulP(p, j.y, z));
    DoubleParts(p, j, x, y);
    DoubleIdentities(x, y, z, slope);
    // e == slope * w
    CongSym(p, slope * (2 * y), 3 * (x * x));
    CongRefl(p, z * z * z * z);
    CongMul(p, 3 * (x * x), slope * (2 * y), z * z * z * z, z * z * z * z);
    CongTrans(p, e, (3 * (x * x)) * (z * z * z * z), slope * w);
    // x3
    MulC(p, e, e, slope * w, slope * w);
    SmallC(p, 2, d, x * (w * w));
    SubC(p, MulP(p, e, e), SmallP(p, 2, d), (slope * w) * (slope * w), 2 * (x * (w * w)));
    assert (slope * w) * (slope * w) - 2 * (x * (w * w)) == (slope * w) * (slope * w) - (x + x) * (w * w);
    var y3 := SubP(p, MulP(p, e, SubP(p, d, x3)), g);
    ThirdPoint(p, w, slope, x, y, x, r, e, d, g, x3, y3);
    CongRefl(p, MulP(p, j.y, z));
    SmallC(p, 2, MulP(p, j.y, z), MulP(p, j.y, z));
    Rescale(p, z3, w, r.x, r.y, x3, y3);
    DoubleNotInfinite(p, j);
    assert Double(p, j) == Point(x3, y3, z3);
  }

  lemma DoubleNotInfinite(p: int, j: Point)
    requires IsPrime(p) && p > 3 && Reduced(p, j.y) && Reduced(p, j.z) && j.y != 0 && j.z != 0
    ensures SmallP(p, 2, MulP(p, j.y, j.z)) != 0
  {
    hide Cong, IsPrime;
    var m := MulP(p, j.y, j.z);
    CongRefl(p, j.y);
    CongRefl(p, j.z);
    CongRefl(p, m);
    MulC(p, j.y, j.z, j.y, j.z);
    SmallC(p, 2, m, m);
    NotZero(p, j.y);
    NotZero(p, j.z);
    TwoNotZero(p);
    ProductNotZero(p, j.y, j.z);
    CongZero(p, m, j.y * j.z);
    ProductNotZero(p, 2, m);
    CongZero(p, SmallP(p, 2, m), 2 * m);
    NotZero(p, SmallP(p, 2, m));
  }

  lemma YVanishes(p: int, j: Point, x: int, y: int)
    requires IsPrime(p) && Represents(p, j, Affine(x, y)) && Reduced(p, y)
    ensures j.y == 0 <==> y == 0
  {
    hide Cong, IsPrime;
    NotZero(p, j.y);
    NotZero(p, j.z);
    NotZero(p, y);
    CongZero(p, j.y, y * (j.z * j.z * j.z));
    ProductNotZero(p, y, j.z * j.z * j.z);
    ProductNotZero(p, j.z * j.z, j.z);
    ProductNotZero(p, j.z, j.z);
  }

  /** double returns a form of the tangent point. */
  lemma DoubleIsSum(p: int, j: Point, a: Affine, r: Affine)
    requires IsPrime(p) && p > 3 && Represents(p, j, a) && ReducedAffine(p, a) && IsSum(p, a, a, r)
    ensures Represents(p, Double(p, j), r)
  {
    hide Cong, MulP, AddP, SubP, SmallP, IsPrime, OnLine;
    if a.Affine? {
      YVanishes(p, j, a.x, a.y);
      if a.y != 0 {
        var slope :| Cong(p, slope * (2 * a.y), 3 * (a.x * a.x)) && OnLine(p, slope, a.x, a.y, a.x, r);
        DoubleTangent(p, j, a.x, a.y, slope, r);
      }
    }
  }

  // ---------------------------------------------------------------------------------------------
  // Adding
  // ---------------------------------------------------------------------------------------------

  lemma AddIdentities(x1: int, y1: int, x2: int, y2: int, z1: int, z2: int)
    ensures var w := z1 * z2;
            && (x1 * (z1 * z1)) * (z2 * z2) == x1 * (w * w)
            && (x2 * (z2 * z2)) * (z1 * z1) == x2 * (w * w)
            && ((y1 * (z1 * z1 * z1)) * z2) * (z2 * z2) == y1 * (w * w * w)
            && ((y2 * (z2 * z2 * z2)) * z1) * (z1 * z1) == y2 * (w * w * w)
            && (z1 + z2) * (z1 + z2) - z1 * z1 - z2 * z2 == 2 * w
  {
    ThirdPower(y1, z1, z2);
    ThirdPower(y2, z2, z1);
    Swapped(z1, z2);
    SquareOf(z1, z2);
    SquareOf(z2, z1);
    MulAssoc(x1, z1 * z1, z2 * z2);
    MulAssoc(x2, z2 * z2, z1 * z1);
    Square(z1, z2);
  }

  lemma Swapped(a: int, b: int)
    ensures a * b == b * a
  {
  }

  lemma ThirdPower(y: int, a: int, b: int)
    ensures ((y * (a * a * a)) * b) * (b * b) == y * ((a * b) * (a * b) * (a * b))
  {
    CubeOf(a, b);
    MulAssoc(y * (a * a * a), b, b * b);
    MulAssoc(b, b, b);
    MulAssoc(y, a * a * a, b * b * b);
  }

  lemma SquareOf(a: int, b: int)
    ensures (a * b) * (a * b) == (a * a) * (b * b)
  {
    MulAssoc(a, b, a * b);
    assert b * (a * b) == a * (b * b);
    MulAssoc(a, a, b * b);
  }

  lemma CubeOf(a: int, b: int)
    ensures (a * b) * (a * b) * (a * b) == (a * a * a) * (b * b * b)
  {
    SquareOf(a, b);
    Exchange(a * a, b * b, a, b);
  }

  lemma Exchange(a: int, b: int, c: int, d: int)
    ensures (a * b) * (c * d) == (a * c) * (b * d)
  {
    MulAssoc(a, b, c * d);
    MulAssoc(b, c, d);
    MulAssoc(c, b, d);
    MulAssoc(a, c, b * d);
  }

  /** The first intermediate results of Add. */
  lemma AddParts(p: int, j: Point, k: Point, x1: int, y1: int, x2: int, y2: int)
    requires p > 1
    requires Cong(p, j.x, x1 * (j.z * j.z)) && Cong(p, j.y, y1 * (j.z * j.z * j.z))
    requires Cong(p, k.x, x2 * (k.z * k.z)) && Cong(p, k.y, y2 * (k.z * k.z * k.z))
    ensures var w := j.z * k.z;
            var z1z1, z2z2 := MulP(p, j.z, j.z), MulP(p, k.z, k.z);
            && Cong(p, MulP(p, j.x, z2z2), x1 * (w * w)) && Cong(p, MulP(p, k.x, z1z1), x2 * (w * w))
            && Cong(p, MulP(p, MulP(p, j.y, k.z), z2z2), y1 * (w * w * w))
            && Cong(p, MulP(p, MulP(p, k.y, j.z), z1z1), y2 * (w * w * w))
  {
    hide Cong, MulP;
    var z1, z2 := j.z, k.z;
    var z1z1, z2z2 := MulP(p, z1, z1), MulP(p, z2, z2);
    CongRefl(p, z1);
    CongRefl(p, z2);
    MulC(p, z1, z1, z1, z1);
    MulC(p, z2, z2, z2, z2);
    MulC(p, j.x, z2z2, x1 * (z1 * z1), z2 * z2);
    MulC(p, k.x, z1z1, x2 * (z2 * z2), z1 * z1);
    MulC(p, j.y, z2, y1 * (z1 * z1 * z1), z2);
    MulC(p, k.y, z1, y2 * (z2 * z2 * z2), z1);
    MulC(p, MulP(p, j.y, z2), z2z2, (y1 * (z1 * z1 * z1)) * z2, z2 * z2);
    MulC(p, MulP(p, k.y, z1), z1z1, (y2 * (z2 * z2 * z2)) * z1, z1 * z1);
    AddIdentities(x1, y1, x2, y2, z1, z2);
  }

  /** The differences h and r, and the new z. */
  lemma AddDifferences(p: int, j: Point, k: Point, x1: int, y1: int, x2: int, y2: int)
    requires p > 1
    requires Cong(p, j.x, x1 * (j.z * j.z)) && Cong(p, j.y, y1 * (j.z * j.z * j.z))
    requires Cong(p, k.x, x2 * (k.z * k.z)) && Cong(p, k.y, y2 * (k.z * k.z * k.z))
    ensures var w := j.z * k.z;
            var z1z1, z2z2 := MulP(p, j.z, j.z), MulP(p, k.z, k.z);
            var h := SubP(p, MulP(p, k.x, z1z1), MulP(p, j.x, z2z2));
            var zz := AddP(p, j.z, k.z);
            && Cong(p, h, (x2 - x1) * (w * w)) && Reduced(p, h)
            && Cong(p, SmallP(p, 2, SubP(p, MulP(p, MulP(p, k.y, j.z), z1z1), MulP(p, MulP(p, j.y, k.z), z2z2))),
                    2 * ((y2 - y1) * (w * w * w)))
            && Cong(p, MulP(p, SubP(p, SubP(p, MulP(p, zz, zz), z1z1), z2z2), h), 2 * (w * ((x2 - x1) * (w * w))))
  {
    hide Cong, MulP, AddP, SubP, SmallP;
    var z1, z2 := j.z, k.z;
    var w := z1 * z2;
    var z1z1, z2z2, zz := MulP(p, z1, z1), MulP(p, z2, z2), AddP(p, z1, z2);
    AddParts(p, j, k, x1, y1, x2, y2);
    AddIdentities(x1, y1, x2, y2, z1, z2);
    var u1, u2 := MulP(p, j.x, z2z2), MulP(p, k.x, z1z1);
    var s1, s2 := MulP(p, MulP(p, j.y, z2), z2z2), MulP(p, MulP(p, k.y, z1), z1z1);
    SubC(p, u2, u1, x2 * (w * w), x1 * (w * w));
    Distribute(x2, x1, w * w);
    SubC(p, s2, s1, y2 * (w * w * w), y1 * (w * w * w));
    Distribute(y2, y1, w * w * w);
    SmallC(p, 2, SubP(p, s2, s1), (y2 - y1) * (w * w * w));
    CongRefl(p, z1);
    CongRefl(p, z2);
    MulC(p, z1, z1, z1, z1);
    MulC(p, z2, z2, z2, z2);
    AddC(p, z1, z2, z1, z2);
    MulC(p, zz, zz, z1 + z2, z1 + z2);
    SubC(p, MulP(p, zz, zz), z1z1, (z1 + z2) * (z1 + z2), z1 * z1);
    SubC(p, SubP(p, MulP(p, zz, zz), z1z1), z2z2, (z1 + z2) * (z1 + z2) - z1 * z1, z2 * z2);
    MulC(p, SubP(p, SubP(p, MulP(p, zz, zz), z1z1), z2z2), SubP(p, u2, u1), 2 * w, (x2 - x1) * (w * w));
    MulAssoc(2, w, (x2 - x1) * (w * w));
  }

  lemma Distribute(a: int, b: int, c: int)
    ensures a * c - b * c == (a - b) * c
  {
  }

  lemma ChordIdentities(x1: int, y1: int, dx: int, w: int, slope: int)
    ensures var h := dx * (w * w); var n := 2 * (w * h);
            && (x1 * (w * w)) * ((2 * h) * (2 * h)) == x1 * (n * n)
            && h * ((2 * h) * (2 * h)) == dx * (n * n)
            && 2 * ((y1 * (w * w * w)) * (h * ((2 * h) * (2 * h)))) == y1 * (n * n * n)
            && slope * n == 2 * ((slope * dx) * (w * w * w))
  {
    var h := dx * (w * w);
    var n, k := 2 * (w * h), 2 * h;
    assert n == w * k;
    SquareOf(w, k);
    MulAssoc(x1, w * w, k * k);
    MulAssoc(dx, w * w, k * k);
    CubeOf(w, k);
    TwiceOut(y1 * (w * w * w), h, k);
    MulAssoc(y1, w * w * w, k * k * k);
    ChordSlope(slope, dx, w);
  }

  lemma TwiceOut(a: int, h: int, k: int)
    requires k == 2 * h
    ensures 2 * (a * (h * (k * k))) == a * (k * k * k)
  {
    MulAssoc(2, a, h * (k * k));
    MulAssoc(a, 2, h * (k * k));
    MulAssoc(2, h, k * k);
    MulAssoc(k, k, k);
  }

  lemma ChordSlope(slope: int, dx: int, w: int)
    ensures slope * (2 * (w * (dx * (w * w)))) == 2 * ((slope * dx) * (w * w * w))
  {
    Exchange(1, w, dx, w * w);
    MulAssoc(w, w, w);
    MulAssoc(slope, dx, w * w * w);
  }

  /** e of Add is the slope in Jacobian form. */
  lemma ChordSlopeIs(p: int, w: int, x1: int, y1: int, x2: int, y2: int, slope: int, e: int)
    requires p > 1 && Cong(p, e, 2 * ((y2 - y1) * (w * w * w))) && Cong(p, slope * (x2 - x1), y2 - y1)
    ensures Cong(p, e, slope * (2 * (w * ((x2 - x1) * (w * w)))))
  {
    hide Cong;
    var dx := x2 - x1;
    CongSym(p, slope * dx, y2 - y1);
    CongRefl(p, w * w * w);
    CongRefl(p, 2);
    CongMul(p, y2 - y1, slope * dx, w * w * w, w * w * w);
    CongMul(p, 2, 2, (y2 - y1) * (w * w * w), (slope * dx) * (w * w * w));
    ChordSlope(slope, dx, w);
    CongTrans(p, e, 2 * ((y2 - y1) * (w * w * w)), 2 * ((slope * dx) * (w * w * w)));
  }

  /** The two products of Add, v and jj, and the subtrahend of the new y. */
  lemma ChordProducts(p: int, w: int, x1: int, y1: int, dx: int, u1: int, s1: int, h: int)
    requires p > 1 && Cong(p, u1, x1 * (w * w)) && Cong(p, s1, y1 * (w * w * w)) && Cong(p, h, dx * (w * w))
    ensures var n := 2 * (w * (dx * (w * w)));
            var h2 := SmallP(p, 2, h);
            var i := MulP(p, h2, h2);
            var jj := MulP(p, h, i);
            && Cong(p, jj, dx * (n * n)) && Cong(p, MulP(p, u1, i), x1 * (n * n))
            && Cong(p, SmallP(p, 2, MulP(p, s1, jj)), y1 * (n * n * n))
  {
    hide Cong, MulP, SmallP;
    var hh := dx * (w * w);
    var h2 := SmallP(p, 2, h);
    var i := MulP(p, h2, h2);
    var jj := MulP(p, h, i);
    SmallC(p, 2, h, hh);
    MulC(p, h2, h2, 2 * hh, 2 * hh);
    MulC(p, h, i, hh, (2 * hh) * (2 * hh));
    MulC(p, u1, i, x1 * (w * w), (2 * hh) * (2 * hh));
    MulC(p, s1, jj, y1 * (w * w * w), hh * ((2 * hh) * (2 * hh)));
    SmallC(p, 2, MulP(p, s1, jj), (y1 * (w * w * w)) * (hh * ((2 * hh) * (2 * hh))));
    ChordIdentities(x1, y1, dx, w, 0);
  }

  /** The new x and y of Add. */
  lemma ChordCoordinates(p: int, n: int, x1: int, y1: int, x2: int, slope: int, r: Affine, e: int, jj: int, v: int, g: int)
    requires p > 1 && OnLine(p, slope, x1, y1, x2, r)
    requires Cong(p, e, slope * n) && Cong(p, jj, (x2 - x1) * (n * n)) && Cong(p, v, x1 * (n * n)) && Cong(p, g, y1 * (n * n * n))
    ensures var x3 := SubP(p, SubP(p, MulP(p, e, e), jj), SmallP(p, 2, v));
            var y3 := SubP(p, MulP(p, e, SubP(p, v, x3)), g);
            && Cong(p, x3, r.x * (n * n)) && Reduced(p, x3) && Cong(p, y3, r.y * (n * n * n)) && Reduced(p, y3)
  {
    hide Cong, MulP, SubP, SmallP, OnLine;
    var ee, m := MulP(p, e, e), slope * n;
    MulC(p, e, e, m, m);
    SubC(p, ee, jj, m * m, (x2 - x1) * (n * n));
    SmallC(p, 2, v, x1 * (n * n));
    var x3 := SubP(p, SubP(p, ee, jj), SmallP(p, 2, v));
    SubC(p, SubP(p, ee, jj), SmallP(p, 2, v), m * m - (x2 - x1) * (n * n), 2 * (x1 * (n * n)));
    ChordX(m, x1, x2, n * n);
    ThirdPoint(p, n, slope, x1, y1, x2, r, e, v, g, x3, SubP(p, MulP(p, e, SubP(p, v, x3)), g));
  }

  /** Adding in the case that computes. */
  lemma AddChord(p: int, j: Point, k: Point, x1: int, y1: int, x2: int, y2: int, slope: int, r: Affine)
    requires IsPrime(p) && p > 3 && Represents(p, j, Affine(x1, y1)) && Represents(p, k, Affine(x2, y2))
    requires Reduced(p, x1) && Reduced(p, x2) && x1 != x2
    requires Cong(p, slope * (x2 - x1), y2 - y1) && OnLine(p, slope, x1, y1, x2, r)
    ensures Represents(p, Add(p, j, k), r)
  {
    hide Cong, MulP, AddP, SubP, SmallP, IsPrime;
    var w, dx := j.z * k.z, x2 - x1;
    var n := 2 * (w * (dx * (w * w)));
    var z1z1, z2z2, zz := MulP(p, j.z, j.z), MulP(p, k.z, k.z), AddP(p, j.z, k.z);
    var u1, u2 := MulP(p, j.x, z2z2), MulP(p, k.x, z1z1);
    var s1, s2 := MulP(p, MulP(p, j.y, k.z), z2z2), MulP(p, MulP(p, k.y, j.z), z1z1);
    var h, e := SubP(p, u2, u1), SmallP(p, 2, SubP(p, s2, s1));
    AddParts(p, j, k, x1, y1, x2, y2);
    AddDifferences(p, j, k, x1, y1, x2, y2);
    HNotZero(p, j, k, x1, x2, h);
    ChordSlopeIs(p, w, x1, y1, x2, y2, slope, e);
    ChordProducts(p, w, x1, y1, dx, u1, s1, h);
    var h2 := SmallP(p, 2, h);
    var i := MulP(p, h2, h2);
    var jj, v := MulP(p, h, i), MulP(p, u1, i);
    var g := SmallP(p, 2, MulP(p, s1, jj));
    ChordCoordinates(p, n, x1, y1, x2, slope, r, e, jj, v, g);
    var x3 := SubP(p, SubP(p, MulP(p, e, e), jj), SmallP(p, 2, v));
    var y3 := SubP(p, MulP(p, e, SubP(p, v, x3)), g);
    FinishChord(p, j, k, w, dx * (w * w), n, r, x3, y3, z1z1, z2z2, h);
    var z3 := MulP(p, SubP(p, SubP(p, MulP(p, zz, zz), z1z1), z2z2), h);
    Represented(p, j, k, Point(x3, y3, z3), r);
  }

  lemma Represented(p: int, j: Point, k: Point, sum: Point, r: Affine)
    requires p > 1 && r.Affine? && sum == Add(p, j, k)
    requires Reduced(p, sum.x) && Reduced(p, sum.y) && Reduced(p, sum.z) && sum.z != 0
    requires Cong(p, sum.x, r.x * (sum.z * sum.z)) && Cong(p, sum.y, r.y * (sum.z * sum.z * sum.z))
    ensures Represents(p, Add(p, j, k), r)
  {
    hide Cong, Add;
  }

  lemma ChordX(m: int, x1: int, x2: int, q: int)
    ensures m * m - (x2 - x1) * q - 2 * (x1 * q) == m * m - (x1 + x2) * q
  {
  }

  lemma HNotZero(p: int, j: Point, k: Point, x1: int, x2: int, h: int)
    requires IsPrime(p) && Reduced(p, x1) && Reduced(p, x2)
    requires Reduced(p, j.z) && Reduced(p, k.z) && j.z != 0 && k.z != 0
    requires Reduced(p, h) && Cong(p, h, (x2 - x1) * ((j.z * k.z) * (j.z * k.z)))
    ensures h == 0 <==> x1 == x2
  {
    hide IsPrime;
    var w := j.z * k.z;
    NotZero(p, j.z);
    NotZero(p, k.z);
    NotZero(p, h);
    ProductNotZero(p, j.z, k.z);
    ProductNotZero(p, w, w);
    ProductNotZero(p, x2 - x1, w * w);
    CongZero(p, h, (x2 - x1) * (w * w));
    if Cong(p, x2 - x1, 0) {
      assert Cong(p, x2, x1);
      ReducedUnique(p, x2, x1);
    }
    CongRefl(p, 0);
  }

  /** The z-coordinate of the sum fits the other two and does not vanish. */
  lemma FinishChord(p: int, j: Point, k: Point, w: int, hh: int, n: int, r: Affine, x3: int, y3: int, z1z1: int, z2z2: int, h: int)
    requires IsPrime(p) && p > 3 && r.Affine? && h != 0 && Reduced(p, h) && Cong(p, h, hh) && n == 2 * (w * hh) && w == j.z * k.z
    requires Reduced(p, j.z) && Reduced(p, k.z) && j.z != 0 && k.z != 0
    requires var zz := AddP(p, j.z, k.z);
             Cong(p, MulP(p, SubP(p, SubP(p, MulP(p, zz, zz), z1z1), z2z2), h), n)
    requires Cong(p, x3, r.x * (n * n)) && Cong(p, y3, r.y * (n * n * n))
    ensures var zz := AddP(p, j.z, k.z);
            var z3 := MulP(p, SubP(p, SubP(p, MulP(p, zz, zz), z1z1), z2z2), h);
            z3 != 0 && Reduced(p, z3) && Cong(p, x3, r.x * (z3 * z3)) && Cong(p, y3, r.y * (z3 * z3 * z3))
  {
    hide Cong, MulP, AddP, SubP, IsPrime;
    var zz := AddP(p, j.z, k.z);
    var z3 := MulP(p, SubP(p, SubP(p, MulP(p, zz, zz), z1z1), z2z2), h);
    var m := SubP(p, SubP(p, MulP(p, zz, zz), z1z1), z2z2);
    CongRefl(p, m);
    CongRefl(p, h);
    MulC(p, m, h, m, h);
    Rescale(p, z3, n, r.x, r.y, x3, y3);
    NotZero(p, j.z);
    NotZero(p, k.z);
    NotZero(p, h);
    TwoNotZero(p);
    CongZero(p, h, hh);
    ProductNotZero(p, j.z, k.z);
    ProductNotZero(p, w, hh);
    ProductNotZero(p, 2, w * hh);
    CongZero(p, z3, n);
    CongRefl(p, 0);
  }

  /** Points above the same x: equal exactly when r vanishes. */
  lemma RNotZero(p: int, j: Point, k: Point, y1: int, y2: int, e: int)
    requires IsPrime(p) && p > 3 && Reduced(p, y1) && Reduced(p, y2)
    requires Reduced(p, j.z) && Reduced(p, k.z) && j.z != 0 && k.z != 0
    requires Reduced(p, e) && Cong(p, e, 2 * ((y2 - y1) * ((j.z * k.z) * (j.z * k.z) * (j.z * k.z))))
    ensures e == 0 <==> y1 == y2
  {
    hide IsPrime;
    var w := j.z * k.z;
    NotZero(p, j.z);
    NotZero(p, k.z);
    NotZero(p, e);
    TwoNotZero(p);
    ProductNotZero(p, j.z, k.z);
    ProductNotZero(p, w, w);
    ProductNotZero(p, w * w, w);
    ProductNotZero(p, y2 - y1, w * w * w);
    ProductNotZero(p, 2, (y2 - y1) * (w * w * w));
    CongZero(p, e, 2 * ((y2 - y1) * (w * w * w)));
    if Cong(p, y2 - y1, 0) {
      assert Cong(p, y2, y1);
      ReducedUnique(p, y2, y1);
    }
    CongRefl(p, 0);
  }

  /** add returns a form of the chord point, the tangent point or infinity, as the rule says. */
  lemma AddIsSum(p: int, j: Point, k: Point, a: Affine, b: Affine, r: Affine)
    requires IsPrime(p) && p > 3 && Represents(p, j, a) && Represents(p, k, b)
    requires ReducedAffine(p, a) && ReducedAffine(p, b) && IsSum(p, a, b, r)
    ensures Represents(p, Add(p, j, k), r)
  {
    hide Cong, MulP, AddP, SubP, SmallP, IsPrime, OnLine, Double;
    if a.Affine? && b.Affine? {
      if a.x == b.x {
        SameX(p, j, k, a, b);
        if a.y == b.y {
          assert a == b;
          DoubleIsSum(p, j, a, r);
        }
      } else {
        var slope :| Cong(p, slope * (b.x - a.x), b.y - a.y) && OnLine(p, slope, a.x, a.y, b.x, r);
        AddChord(p, j, k, a.x, a.y, b.x, b.y, slope, r);
      }
    }
  }

  lemma SameX(p: int, j: Point, k: Point, a: Affine, b: Affine)
    requires IsPrime(p) && p > 3 && a.Affine? && b.Affine? && Represents(p, j, a) && Represents(p, k, b)
    requires ReducedAffine(p, a) && ReducedAffine(p, b) && a.x == b.x
    ensures Add(p, j, k) == if a.y == b.y then Double(p, j) else INFINITY
  {
    hide Cong, MulP, AddP, SubP, SmallP, IsPrime, Double;
    var z1z1, z2z2 := MulP(p, j.z, j.z), MulP(p, k.z, k.z);
    var h := SubP(p, MulP(p, k.x, z1z1), MulP(p, j.x, z2z2));
    var d := SubP(p, MulP(p, MulP(p, k.y, j.z), z1z1), MulP(p, MulP(p, j.y, k.z), z2z2));
    AddDifferences(p, j, k, a.x, a.y, b.x, b.y);
    HNotZero(p, j, k, a.x, b.x, h);
    CongRefl(p, d);
    SmallC(p, 2, d, d);
    RNotZero(p, j, k, a.y, b.y, SmallP(p, 2, d));
  }
}
