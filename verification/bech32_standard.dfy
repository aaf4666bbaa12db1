// The checksum as BIP 173 defines it, section "Bech32": arithmetic in GF(32), polynomials over it and
// the remainder modulo the generator polynomial. bech32Polymod and bech32HRPExpand in
// internal/bip322/bech32.go are held against it, and one published address.
module Bech32Standard {
  import opened Text
  import opened Bech32Checksum
  import opened Bech32
  import opened ConvertBits
  import opened Address

  // ---------------------------------------------------------------------------------------------
  // The field
  // ---------------------------------------------------------------------------------------------

  /** Five bits are a polynomial in a over GF(2), modulo a^5 + a^3 + 1. */
  datatype Gf = Gf(bits: bv5)

  const NOTHING := Gf(0)
  const UNIT := Gf(1)

  function Add(x: Gf, y: Gf): Gf {
    Gf(x.bits ^ y.bits)
  }

  /** The product with a: a^5 is a^3 + 1. */
  function TimesA(x: Gf): Gf {
    Gf((x.bits << 1) ^ (if x.bits & 16 != 0 then 9 else 0))
  }

  /** The summand of one bit of a factor. */
  function Term(bit: bool, x: Gf): Gf {
    if bit then x else NOTHING
  }

  /** The product, bit by bit of y. */
  function Times(x: Gf, y: Gf): Gf {
    var x1 := TimesA(x);
    var x2 := TimesA(x1);
    var x3 := TimesA(x2);
    var x4 := TimesA(x3);
    Add(Add(Add(Add(Term(y.bits & 1 != 0, x), Term(y.bits & 2 != 0, x1)), Term(y.bits & 4 != 0, x2)), Term(y.bits & 8 != 0, x3)),
        Term(y.bits & 16 != 0, x4))
  }

  // The same on bits.

  function TimesABits(x: bv5): bv5 {
    (x << 1) ^ (if x & 16 != 0 then 9 else 0)
  }

  function TimesBits(x: bv5, y: bv5): bv5 {
    (if y & 1 != 0 then x else 0) ^ (if y & 2 != 0 then TimesABits(x) else 0) ^ (if y & 4 != 0 then TimesABits(TimesABits(x)) else 0) ^
    (if y & 8 != 0 then TimesABits(TimesABits(TimesABits(x))) else 0) ^
    (if y & 16 != 0 then TimesABits(TimesABits(TimesABits(TimesABits(x)))) else 0)
  }

  lemma TimesIsBits(x: Gf, y: Gf)
    ensures TimesA(x).bits == TimesABits(x.bits) && Times(x, y).bits == TimesBits(x.bits, y.bits)
  {
    hide TimesABits, TimesA, Add, Term;
    var x1 := TimesA(x);
    var x2 := TimesA(x1);
    var x3 := TimesA(x2);
    TimesAIsBits(x);
    TimesAIsBits(x1);
    TimesAIsBits(x2);
    TimesAIsBits(x3);
    SumIsBits(x, x1, x2, x3, TimesA(x3), y.bits);
  }

  lemma SumIsBits(x: Gf, x1: Gf, x2: Gf, x3: Gf, x4: Gf, y: bv5)
    ensures Add(Add(Add(Add(Term(y & 1 != 0, x), Term(y & 2 != 0, x1)), Term(y & 4 != 0, x2)), Term(y & 8 != 0, x3)),
                Term(y & 16 != 0, x4)).bits
         == (if y & 1 != 0 then x.bits else 0) ^ (if y & 2 != 0 then x1.bits else 0) ^ (if y & 4 != 0 then x2.bits else 0) ^
            (if y & 8 != 0 then x3.bits else 0) ^ (if y & 16 != 0 then x4.bits else 0)
  {
  }

  lemma TimesAIsBits(x: Gf)
    ensures TimesA(x).bits == TimesABits(x.bits)
  {
  }

  lemma BitsCommute(x: bv5, y: bv5)
    ensures TimesBits(x, y) == TimesBits(y, x) && TimesBits(x, 1) == x
  {
  }

  lemma BitsMove(x: bv5, y: bv5)
    ensures TimesBits(x, TimesABits(y)) == TimesABits(TimesBits(x, y))
  {
  }

  lemma AddLaws(x: Gf, y: Gf, z: Gf)
    ensures Add(x, y) == Add(y, x) && Add(Add(x, y), z) == Add(x, Add(y, z))
    ensures Add(x, NOTHING) == x && Add(NOTHING, x) == x && Add(x, x) == NOTHING
  {
  }

  /** Products commute, associate and distribute, and none vanishes without a factor: it is a field. */
  lemma FieldLaws(x: Gf, y: Gf, z: Gf)
    ensures Times(x, y) == Times(y, x) && Times(x, UNIT) == x
    ensures Times(Times(x, y), z) == Times(x, Times(y, z))
    ensures Times(Add(x, y), z) == Add(Times(x, z), Times(y, z))
    ensures Times(x, y) == NOTHING ==> x == NOTHING || y == NOTHING
  {
    hide Times, Add;
    TimesCommutes(x, y);
    TimesAssociates(x, y, z);
    TimesDistributes(x, y, z);
    TimesNoZero(x, y);
  }

  lemma TimesCommutes(x: Gf, y: Gf)
    ensures Times(x, y) == Times(y, x) && Times(x, UNIT) == x
  {
    hide Times, TimesBits;
    TimesIsBits(x, y);
    TimesIsBits(y, x);
    TimesIsBits(x, UNIT);
    BitsCommute(x.bits, y.bits);
  }

  lemma TimesNoZero(x: Gf, y: Gf)
    ensures Times(x, y) == NOTHING ==> x == NOTHING || y == NOTHING
  {
  }

  lemma TimesALinear(x: Gf, y: Gf)
    ensures TimesA(Add(x, y)) == Add(TimesA(x), TimesA(y))
  {
  }

  lemma TermLinear(bit: bool, x: Gf, y: Gf)
    ensures Term(bit, Add(x, y)) == Add(Term(bit, x), Term(bit, y))
  {
  }

  lemma SumOfSums(a: Gf, b: Gf, c: Gf, d: Gf, e: Gf, f: Gf, g: Gf, h: Gf, i: Gf, j: Gf)
    ensures Add(Add(Add(Add(Add(a, b), Add(c, d)), Add(e, f)), Add(g, h)), Add(i, j))
         == Add(Add(Add(Add(Add(a, c), e), g), i), Add(Add(Add(Add(b, d), f), h), j))
  {
    hide Add;
    FourTerms(a, b, c, d);
    FourTerms(Add(a, c), Add(b, d), e, f);
    FourTerms(Add(Add(a, c), e), Add(Add(b, d), f), g, h);
    FourTerms(Add(Add(Add(a, c), e), g), Add(Add(Add(b, d), f), h), i, j);
  }

  lemma FourTerms(a: Gf, b: Gf, c: Gf, d: Gf)
    ensures Add(Add(a, b), Add(c, d)) == Add(Add(a, c), Add(b, d))
  {
  }

  lemma TimesDistributes(x: Gf, y: Gf, z: Gf)
    ensures Times(Add(x, y), z) == Add(Times(x, z), Times(y, z))
  {
    hide TimesA, Term, Add;
    var x1, y1 := TimesA(x), TimesA(y);
    var x2, y2 := TimesA(x1), TimesA(y1);
    var x3, y3 := TimesA(x2), TimesA(y2);
    var x4, y4 := TimesA(x3), TimesA(y3);
    TimesALinear(x, y);
    TimesALinear(x1, y1);
    TimesALinear(x2, y2);
    TimesALinear(x3, y3);
    var b := z.bits;
    TermLinear(b & 1 != 0, x, y);
    TermLinear(b & 2 != 0, x1, y1);
    TermLinear(b & 4 != 0, x2, y2);
    TermLinear(b & 8 != 0, x3, y3);
    TermLinear(b & 16 != 0, x4, y4);
    SumOfSums(Term(b & 1 != 0, x), Term(b & 1 != 0, y), Term(b & 2 != 0, x1), Term(b & 2 != 0, y1), Term(b & 4 != 0, x2),
              Term(b & 4 != 0, y2), Term(b & 8 != 0, x3), Term(b & 8 != 0, y3), Term(b & 16 != 0, x4), Term(b & 16 != 0, y4));
  }

  lemma TimesAMoves(x: Gf, y: Gf)
    ensures Times(x, TimesA(y)) == TimesA(Times(x, y))
  {
    hide Times, TimesA, TimesBits, TimesABits;
    TimesIsBits(x, TimesA(y));
    TimesIsBits(x, y);
    TimesAIsBits(y);
    TimesAIsBits(Times(x, y));
    BitsMove(x.bits, y.bits);
  }

  lemma TimesTerm(x: Gf, bit: bool, y: Gf)
    ensures Times(x, Term(bit, y)) == Term(bit, Times(x, y))
  {
  }

  lemma TimesSum(x: Gf, a: Gf, b: Gf)
    ensures Times(x, Add(a, b)) == Add(Times(x, a), Times(x, b))
  {
    hide Times, Add;
    TimesDistributes(a, b, x);
    TimesCommutes(a, x);
    TimesCommutes(b, x);
    TimesCommutes(Add(a, b), x);
  }

  lemma TimesIs(x: Gf, y: Gf)
    ensures var x1 := TimesA(x); var x2 := TimesA(x1); var x3 := TimesA(x2); var x4 := TimesA(x3); var b := y.bits;
            Times(x, y) == Add(Add(Add(Add(Term(b & 1 != 0, x), Term(b & 2 != 0, x1)), Term(b & 4 != 0, x2)), Term(b & 8 != 0, x3)),
                               Term(b & 16 != 0, x4))
  {
    hide TimesA, Add, Term;
  }

  lemma TimesAssociates(x: Gf, y: Gf, z: Gf)
    ensures Times(Times(x, y), z) == Times(x, Times(y, z))
  {
    hide Times, TimesA, Term, Add;
    var y1 := TimesA(y);
    var y2 := TimesA(y1);
    var y3 := TimesA(y2);
    var y4 := TimesA(y3);
    TimesIs(y, z);
    TimesIs(Times(x, y), z);
    TimesAMoves(x, y);
    TimesAMoves(x, y1);
    TimesAMoves(x, y2);
    TimesAMoves(x, y3);
    var bits := z.bits;
    var a, b, c, d, e := Term(bits & 1 != 0, y), Term(bits & 2 != 0, y1), Term(bits & 4 != 0, y2), Term(bits & 8 != 0, y3), Term(bits & 16 != 0, y4);
    TimesSum(x, Add(Add(Add(a, b), c), d), e);
    TimesSum(x, Add(Add(a, b), c), d);
    TimesSum(x, Add(a, b), c);
    TimesSum(x, a, b);
    TimesTerm(x, bits & 1 != 0, y);
    TimesTerm(x, bits & 2 != 0, y1);
    TimesTerm(x, bits & 4 != 0, y2);
    TimesTerm(x, bits & 8 != 0, y3);
    TimesTerm(x, bits & 16 != 0, y4);
  }

  // ---------------------------------------------------------------------------------------------
  // Polynomials
  // ---------------------------------------------------------------------------------------------

  /** Coefficients, the highest first. */
  type Poly = seq<Gf>

  function Plus(p: Poly, q: Poly): (r: Poly)
    requires |p| == |q|
    ensures |r| == |p|
  {
    seq(|p|, i requires 0 <= i < |p| => Add(p[i], q[i]))
  }

  function Scaled(x: Gf, p: Poly): (r: Poly)
    ensures |r| == |p|
  {
    seq(|p|, i requires 0 <= i < |p| => Times(x, p[i]))
  }

  function NoTerms(n: nat): (r: Poly)
    ensures |r| == n
  {
    seq(n, _ => NOTHING)
  }

  /** x^6 + {29}x^5 + {22}x^4 + {20}x^3 + {21}x^2 + {29}x + {18}. */
  const GENERATOR: Poly := [Gf(1), Gf(29), Gf(22), Gf(20), Gf(21), Gf(29), Gf(18)]

  function Coefficient(i: nat): Gf
    requires i < 7
  {
    GENERATOR[i]
  }

  /** The product of q with the generator: that of q without its last term, moved up, and that of the last term. */
  function TimesGenerator(q: Poly): (r: Poly)
    ensures |r| == |q| + 6
  {
    if q == [] then NoTerms(6)
    else
      var n := |q| - 1;
      Plus(TimesGenerator(q[..n]) + [NOTHING], NoTerms(n) + Scaled(q[n], GENERATOR))
  }

  /** r, of degree below six, is what is left of v after a multiple of the generator. */
  ghost predicate IsRemainder(v: Poly, r: Poly) {
    |r| == 6 && |v| >= 6 && exists q: Poly :: |q| + 6 == |v| && v == Plus(TimesGenerator(q), NoTerms(|q|) + r)
  }

  // ---------------------------------------------------------------------------------------------
  // The register
  // ---------------------------------------------------------------------------------------------

  function Element(v: Five): Gf {
    ByteRoundTrip(v);
    Gf((v as bv8) as bv5)
  }

  function Elements(values: seq<Five>): (p: Poly)
    ensures |p| == |values|
  {
    seq(|values|, i requires 0 <= i < |values| => Element(values[i]))
  }

  function Bits25(m: bv32): bv5 { ((m >> 25) & 31) as bv5 }
  function Bits20(m: bv32): bv5 { ((m >> 20) & 31) as bv5 }
  function Bits15(m: bv32): bv5 { ((m >> 15) & 31) as bv5 }
  function Bits10(m: bv32): bv5 { ((m >> 10) & 31) as bv5 }
  function Bits5(m: bv32): bv5 { ((m >> 5) & 31) as bv5 }
  function Bits0(m: bv32): bv5 { (m & 31) as bv5 }

  /** The six groups of the register. */
  function Terms(c: Uint32): (p: Poly)
    ensures |p| == 6
  {
    var m := c.bits;
    [Gf(Bits25(m)), Gf(Bits20(m)), Gf(Bits15(m)), Gf(Bits10(m)), Gf(Bits5(m)), Gf(Bits0(m))]
  }

  lemma ElementWord(v: Five)
    ensures Word(v).bits == Element(v).bits as bv32
  {
    ByteRoundTrip(v);
    WidenByte(v as bv8);
  }

  lemma WidenByte(b: bv8)
    requires b < 32
    ensures b as bv32 == (b as bv5) as bv32
  {
  }

  lemma GroupsXor(a: bv32, b: bv32)
    ensures Bits25(a ^ b) == Bits25(a) ^ Bits25(b) && Bits20(a ^ b) == Bits20(a) ^ Bits20(b) && Bits15(a ^ b) == Bits15(a) ^ Bits15(b)
    ensures Bits10(a ^ b) == Bits10(a) ^ Bits10(b) && Bits5(a ^ b) == Bits5(a) ^ Bits5(b) && Bits0(a ^ b) == Bits0(a) ^ Bits0(b)
  {
  }

  lemma TermsXor(a: Uint32, b: Uint32)
    ensures var m, x, y := Xor(a, b).bits, a.bits, b.bits;
            && Gf(Bits25(m)) == Add(Gf(Bits25(x)), Gf(Bits25(y))) && Gf(Bits20(m)) == Add(Gf(Bits20(x)), Gf(Bits20(y)))
            && Gf(Bits15(m)) == Add(Gf(Bits15(x)), Gf(Bits15(y))) && Gf(Bits10(m)) == Add(Gf(Bits10(x)), Gf(Bits10(y)))
            && Gf(Bits5(m)) == Add(Gf(Bits5(x)), Gf(Bits5(y))) && Gf(Bits0(m)) == Add(Gf(Bits0(x)), Gf(Bits0(y)))
  {
    hide Bits25, Bits20, Bits15, Bits10, Bits5, Bits0;
    GroupsXor(a.bits, b.bits);
  }

  lemma TermXor(a: Uint32, b: Uint32, i: nat)
    requires i < 6
    ensures Terms(Xor(a, b))[i] == Add(Terms(a)[i], Terms(b)[i])
  {
    hide Bits25, Bits20, Bits15, Bits10, Bits5, Bits0, Xor, Add;
    TermsXor(a, b);
  }

  lemma GroupsMoveUp(c: bv32)
    ensures var m := (c & 0x1ffffff) << 5;
            && Bits25(m) == Bits20(c) && Bits20(m) == Bits15(c) && Bits15(m) == Bits10(c)
            && Bits10(m) == Bits5(c) && Bits5(m) == Bits0(c) && Bits0(m) == 0
  {
  }

  lemma TermMoveUp(c: Uint32, i: nat)
    requires i < 6
    ensures Terms(MoveUp(c))[i] == if i < 5 then Terms(c)[i + 1] else NOTHING
  {
    hide Bits25, Bits20, Bits15, Bits10, Bits5, Bits0, MoveUp;
    GroupsMoveUp(c.bits);
    MoveUpBits(c);
  }

  lemma MoveUpBits(c: Uint32)
    ensures MoveUp(c).bits == (c.bits & 0x1ffffff) << 5
  {
  }

  lemma GroupsWord(x: bv5)
    ensures var m := x as bv32;
            Bits25(m) == 0 && Bits20(m) == 0 && Bits15(m) == 0 && Bits10(m) == 0 && Bits5(m) == 0 && Bits0(m) == x
  {
  }

  lemma TermWord(v: Uint32, x: Gf, i: nat)
    requires v.bits == x.bits as bv32 && i < 6
    ensures Terms(v)[i] == if i < 5 then NOTHING else x
  {
    hide Bits25, Bits20, Bits15, Bits10, Bits5, Bits0;
    GroupsWord(x.bits);
  }

  lemma TopTerm(c: Uint32)
    requires Register(c)
    ensures Top(c).bits < 32 && Gf(Bits0(Top(c).bits)) == Terms(c)[0]
  {
  }

  lemma FeedbackGroups(t: bv32)
    requires t < 32
    ensures var f, x := FeedbackBits(t), Bits0(t);
            && Bits25(f) == TimesBits(x, 29) && Bits20(f) == TimesBits(x, 22) && Bits15(f) == TimesBits(x, 20)
            && Bits10(f) == TimesBits(x, 21) && Bits5(f) == TimesBits(x, 29) && Bits0(f) == TimesBits(x, 18)
  {
  }

  /** What the bits that leave the register feed back is their product with the generator's lower terms. */
  lemma FeedbackTerm(t: Uint32, i: nat)
    requires t.bits < 32 && i < 6
    ensures Terms(U(FeedbackBits(t.bits)))[i] == Times(Gf(Bits0(t.bits)), Coefficient(i + 1))
  {
    hide Times, FeedbackBits, TimesBits, Bits25, Bits20, Bits15, Bits10, Bits5, Bits0, TimesABits, TimesA;
    FeedbackGroups(t.bits);
    var x := Gf(Bits0(t.bits));
    TimesIsBits(x, Gf(29));
    TimesIsBits(x, Gf(22));
    TimesIsBits(x, Gf(20));
    TimesIsBits(x, Gf(21));
    TimesIsBits(x, Gf(18));
  }

  /** One step takes the multiple of the generator away that the highest term asks for. */
  lemma StepDivides(c: Uint32, v: Five, i: nat)
    requires Register(c) && i < 6
    ensures Terms(Step(c, Word(v)))[i] == Add(if i < 5 then Terms(c)[i + 1] else Element(v), Times(Terms(c)[0], Coefficient(i + 1)))
  {
    hide *;
    var f := Feedback(Top(c));
    StepIs(c, Word(v));
    TopTerm(c);
    FeedbackSelects(Top(c));
    SelectedBits(Top(c));
    FeedbackTerm(Top(c), i);
    WordIs(f, FeedbackBits(Top(c).bits));
    TermXor(Xor(MoveUp(c), Word(v)), f, i);
    TermXor(MoveUp(c), Word(v), i);
    TermMoveUp(c, i);
    ElementWord(v);
    TermWord(Word(v), Element(v), i);
    AddLaws(if i < 5 then Terms(c)[i + 1] else Element(v), NOTHING, NOTHING);
  }

  lemma WordIs(f: Uint32, bits: bv32)
    requires f.bits == bits
    ensures f == U(bits)
  {
  }

  // ---------------------------------------------------------------------------------------------
  // The remainder
  // ---------------------------------------------------------------------------------------------

  /** Long division, one value at a time. */
  lemma {:induction false} FoldDivides(values: seq<Five>, q: Poly, v: Poly, c: Uint32)
    requires Register(c) && |q| + 6 == |v| && v == Plus(TimesGenerator(q), NoTerms(|q|) + Terms(c))
    ensures IsRemainder(v + Elements(values), Terms(Fold(c, values)))
    decreases |values|
  {
    hide Step, Word, Terms, Register, Element, TimesGenerator, Plus, Times, Add, Coefficient;
    if values == [] {
      assert v + Elements([]) == v;
    } else {
      var next := Step(c, Word(values[0]));
      StepBounded(c, values[0]);
      forall i | 0 <= i < 6
        ensures Terms(next)[i] == Add(if i < 5 then Terms(c)[i + 1] else Element(values[0]), Times(Terms(c)[0], Coefficient(i + 1)))
      {
        StepDivides(c, values[0], i);
      }
      var q', v' := q + [Terms(c)[0]], v + [Element(values[0])];
      OneMoreTerm(q, v, Terms(c), Element(values[0]), Terms(next));
      FoldDivides(values[1..], q', v', next);
      assert v + Elements(values) == v' + Elements(values[1..]);
    }
  }

  /** v x + e = (q x + t0) g + r x + e - t0 g. */
  lemma OneMoreTerm(q: Poly, v: Poly, t: Poly, e: Gf, r: Poly)
    requires |t| == 6 && |r| == 6 && |q| + 6 == |v| && v == Plus(TimesGenerator(q), NoTerms(|q|) + t)
    requires forall i | 0 <= i < 6 :: r[i] == Add(if i < 5 then t[i + 1] else e, Times(t[0], Coefficient(i + 1)))
    ensures v + [e] == Plus(TimesGenerator(q + [t[0]]), NoTerms(|q| + 1) + r)
  {
    hide Times, Add, TimesGenerator, Plus, Coefficient, Scaled;
    var n, x := |q|, t[0];
    var after := Plus(TimesGenerator(q + [x]), NoTerms(n + 1) + r);
    forall i | 0 <= i < n + 7 ensures (v + [e])[i] == after[i] {
      ProductAt(q, x, i);
      PlusAt(TimesGenerator(q + [x]), NoTerms(n + 1) + r, i);
      if i < n + 6 {
        PlusAt(TimesGenerator(q), NoTerms(n) + t, i);
      }
      var g := if i < n + 6 then TimesGenerator(q)[i] else NOTHING;
      if i < n {
        AddLaws(g, NOTHING, NOTHING);
      } else if i == n {
        AddLaws(Add(g, x), NOTHING, NOTHING);
      } else {
        CancelBoth(g, Times(x, Coefficient(i - n)), if i < n + 6 then t[i - n] else e);
        AddLaws(e, NOTHING, NOTHING);
        assert r[i - n - 1] == Add(if i < n + 6 then t[i - n] else e, Times(x, Coefficient(i - n)));
      }
    }
  }

  lemma PlusAt(p: Poly, q: Poly, i: nat)
    requires |p| == |q| && i < |p|
    ensures Plus(p, q)[i] == Add(p[i], q[i])
  {
    hide Add;
  }

  /** The terms of the product with one more term. */
  lemma ProductAt(q: Poly, x: Gf, i: nat)
    requires i < |q| + 7
    ensures var g := if i < |q| + 6 then TimesGenerator(q)[i] else NOTHING;
            TimesGenerator(q + [x])[i] == if i < |q| then g else if i == |q| then Add(g, x) else Add(g, Times(x, Coefficient(i - |q|)))
  {
    hide Times, Add, TimesGenerator;
    NextProduct(q, x);
    FieldUnit(x);
    AddLaws(TimesGenerator(q + [x])[i], NOTHING, NOTHING);
    var g := if i < |q| + 6 then TimesGenerator(q)[i] else NOTHING;
    AddLaws(g, NOTHING, NOTHING);
  }

  lemma NextProduct(q: Poly, x: Gf)
    ensures TimesGenerator(q + [x]) == Plus(TimesGenerator(q) + [NOTHING], NoTerms(|q|) + Scaled(x, GENERATOR))
  {
    hide Times, Add;
    assert (q + [x])[..|q|] == q;
  }

  lemma FieldUnit(x: Gf)
    ensures Times(x, Coefficient(0)) == x
  {
    hide Times;
    TimesCommutes(x, x);
  }

  lemma CancelBoth(a: Gf, b: Gf, c: Gf)
    ensures Add(Add(a, b), Add(c, b)) == Add(a, c)
  {
  }

  /** The polymod is the remainder of the values, behind a leading one, modulo the generator. */
  lemma PolymodIsRemainder(values: seq<Five>)
    ensures IsRemainder(Elements([0, 0, 0, 0, 0, 1] + values), Terms(PolymodOf(values)))
  {
    hide Step, Word, Times, TimesGenerator, Register;
    var start := Elements([0, 0, 0, 0, 0, 1]);
    StartBounded();
    StartTerms();
    assert start + Elements(values) == Elements([0, 0, 0, 0, 0, 1] + values);
    FoldDivides(values, [], start, U(1));
  }

  lemma {:induction false} QuotientUnique(q: Poly, u: Poly)
    requires |q| == |u| && forall i | 0 <= i < |q| :: TimesGenerator(q)[i] == TimesGenerator(u)[i]
    ensures q == u
    decreases |q|
  {
    hide Times, Add, TimesGenerator;
    if q != [] {
      var n := |q| - 1;
      var q0, x, u0, y := q[..n], q[n], u[..n], u[n];
      assert q == q0 + [x] && u == u0 + [y];
      forall i | 0 <= i < n ensures TimesGenerator(q0)[i] == TimesGenerator(u0)[i] {
        ProductAt(q0, x, i);
        ProductAt(u0, y, i);
      }
      QuotientUnique(q0, u0);
      ProductAt(q0, x, n);
      ProductAt(u0, y, n);
      CancelLeft(TimesGenerator(q0)[n], x, y);
    }
  }

  lemma CancelLeft(a: Gf, x: Gf, y: Gf)
    requires Add(a, x) == Add(a, y)
    ensures x == y
  {
  }

  lemma RemainderUnique(v: Poly, r: Poly, s: Poly)
    requires IsRemainder(v, r) && IsRemainder(v, s)
    ensures r == s
  {
    hide Times, Add, TimesGenerator, Plus;
    var n := |v| - 6;
    var q: Poly :| |q| + 6 == |v| && v == Plus(TimesGenerator(q), NoTerms(|q|) + r);
    var u: Poly :| |u| + 6 == |v| && v == Plus(TimesGenerator(u), NoTerms(|u|) + s);
    forall i | 0 <= i < n ensures TimesGenerator(q)[i] == TimesGenerator(u)[i] {
      PlusAt(TimesGenerator(q), NoTerms(n) + r, i);
      PlusAt(TimesGenerator(u), NoTerms(n) + s, i);
      AddLaws(TimesGenerator(q)[i], NOTHING, NOTHING);
      AddLaws(TimesGenerator(u)[i], NOTHING, NOTHING);
    }
    QuotientUnique(q, u);
    forall i | 0 <= i < 6 ensures r[i] == s[i] {
      PlusAt(TimesGenerator(q), NoTerms(n) + r, n + i);
      PlusAt(TimesGenerator(u), NoTerms(n) + s, n + i);
      CancelLeft(TimesGenerator(q)[n + i], r[i], s[i]);
    }
  }

  /** There is one remainder, and it is the polymod. */
  lemma PolymodExactly(values: seq<Five>, r: Poly)
    ensures IsRemainder(Elements([0, 0, 0, 0, 0, 1] + values), r) <==> r == Terms(PolymodOf(values))
  {
    hide IsRemainder, Terms, PolymodOf;
    PolymodIsRemainder(values);
    if IsRemainder(Elements([0, 0, 0, 0, 0, 1] + values), r) {
      RemainderUnique(Elements([0, 0, 0, 0, 0, 1] + values), r, Terms(PolymodOf(values)));
    }
  }

  lemma {:induction false} StartTerms()
    ensures Elements([0, 0, 0, 0, 0, 1]) == Plus(TimesGenerator([]), NoTerms(0) + Terms(U(1)))
  {
    hide Word;
    assert TimesGenerator([]) == NoTerms(6);
    ByteRoundTrip(0);
    ByteRoundTrip(1);
    forall i | 0 <= i < 6 ensures Elements([0, 0, 0, 0, 0, 1])[i] == Add(NOTHING, Terms(U(1))[i]) {
      SmallElements();
      TermWord(U(1), UNIT, i);
      AddLaws(Terms(U(1))[i], NOTHING, NOTHING);
    }
  }

  lemma SmallElements()
    ensures Element(0) == NOTHING && Element(1) == UNIT
  {
    ByteRoundTrip(0);
    ByteRoundTrip(1);
  }

  // ---------------------------------------------------------------------------------------------
  // The expansion of the human-readable part
  // ---------------------------------------------------------------------------------------------

  /** High bits, a zero, low bits: every character comes back from its two groups. */
  lemma ExpandedExactly(hrp: string)
    requires IsAscii(hrp)
    ensures var n, e := |hrp|, Expanded(hrp);
            |e| == 2 * n + 1 && e[n] == 0 && forall i | 0 <= i < n :: 32 * (e[i] as int) + e[n + 1 + i] as int == hrp[i] as int
  {
    var n, e := |hrp|, Expanded(hrp);
    forall i | 0 <= i < n ensures 32 * (e[i] as int) + e[n + 1 + i] as int == hrp[i] as int {
      assert e[i] == High(hrp, i) && e[n + 1 + i] == Bech32.Low(hrp, i);
    }
  }

  /** The table of the section, a row for every eight values. */
  const TABLE: seq<string> := ["qpzry9x8", "gf2tvdw0", "s3jn54kh", "ce6mua7l"]

  lemma CharsetExactly(v: Five)
    ensures |CHARSET| == 32 && CHARSET[v] == TABLE[v / 8][v % 8]
  {
    var row, column := v / 8, v % 8;
    assert v == 8 * row + column && row < 4;
    assert row == 0 || row == 1 || row == 2 || row == 3;
  }

  // ---------------------------------------------------------------------------------------------
  // The published address
  // ---------------------------------------------------------------------------------------------

  /** The pay-to-witness-public-key-hash address of section "Examples" in lower case. */
  const PUBLISHED := "bc1qw508d6qejxtdg4y5r3zarvary0c5xw7kv8f3t4"

  /** Its witness program, five bytes in a row, and the same bits in groups of five. */
  const BYTES1: seq<Byte> := [0x75, 0x1e, 0x76, 0xe8, 0x19]
  const BYTES2: seq<Byte> := [0x91, 0x96, 0xd4, 0x54, 0x94]
  const BYTES3: seq<Byte> := [0x1c, 0x45, 0xd1, 0xb3, 0xa3]
  const BYTES4: seq<Byte> := [0x23, 0xf1, 0x43, 0x3b, 0xd6]
  const GROUPS1: seq<Five> := [14, 20, 15, 7, 13, 26, 0, 25]
  const GROUPS2: seq<Five> := [18, 6, 11, 13, 8, 21, 4, 20]
  const GROUPS3: seq<Five> := [3, 17, 2, 29, 3, 12, 29, 3]
  const GROUPS4: seq<Five> := [4, 15, 24, 20, 6, 14, 30, 22]

  const PUBLISHED_PROGRAM: seq<Byte> := BYTES1 + BYTES2 + BYTES3 + BYTES4
  const PUBLISHED_DATA: seq<Five> := [0] + GROUPS1 + GROUPS2 + GROUPS3 + GROUPS4
  const PUBLISHED_SUM: seq<Five> := [12, 7, 9, 17, 11, 21]

  function StepBits(c: bv32, v: bv32): bv32 {
    MoveUp(U(c)).bits ^ v ^ FeedbackBits(Top(U(c)).bits)
  }

  function FoldBits(c: bv32, values: seq<bv32>): bv32
    decreases |values|
  {
    if values == [] then c else FoldBits(StepBits(c, values[0]), values[1..])
  }

  lemma FeedbackIsBits(top: Uint32)
    ensures Feedback(top) == U(FeedbackBits(top.bits))
  {
    hide FeedbackBits, Selected, Feedback, Xor;
    FeedbackSelects(top);
    SelectedBits(top);
  }

  lemma StepIsBits(c: Uint32, v: Uint32)
    ensures Step(c, v) == U(StepBits(c.bits, v.bits))
  {
    hide FeedbackBits, Feedback, MoveUp, Top, Step;
    FeedbackIsBits(Top(c));
    StepIs(c, v);
  }

  lemma {:induction false} FoldIsBits(c: bv32, values: seq<Five>, bits: seq<bv32>)
    requires |bits| == |values| && forall i | 0 <= i < |values| :: Word(values[i]) == U(bits[i])
    ensures Fold(U(c), values) == U(FoldBits(c, bits))
    decreases |values|
  {
    hide Step, Word, StepBits;
    if values != [] {
      StepIsBits(U(c), Word(values[0]));
      FoldIsBits(StepBits(c, bits[0]), values[1..], bits[1..]);
    }
  }

  lemma Words()
    ensures Word(0) == U(0) && Word(1) == U(1) && Word(2) == U(2) && Word(3) == U(3)
    ensures Word(4) == U(4) && Word(5) == U(5) && Word(6) == U(6) && Word(7) == U(7)
    ensures Word(8) == U(8) && Word(9) == U(9) && Word(10) == U(10) && Word(11) == U(11)
    ensures Word(12) == U(12) && Word(13) == U(13) && Word(14) == U(14) && Word(15) == U(15)
    ensures Word(16) == U(16) && Word(17) == U(17) && Word(18) == U(18) && Word(19) == U(19)
    ensures Word(20) == U(20) && Word(21) == U(21) && Word(22) == U(22) && Word(23) == U(23)
    ensures Word(24) == U(24) && Word(25) == U(25) && Word(26) == U(26) && Word(27) == U(27)
    ensures Word(28) == U(28) && Word(29) == U(29) && Word(30) == U(30) && Word(31) == U(31)
  {
    hide Word;
    LowWords();
    HighWords();
  }

  lemma LowWords()
    ensures Word(0) == U(0) && Word(1) == U(1) && Word(2) == U(2) && Word(3) == U(3)
    ensures Word(4) == U(4) && Word(5) == U(5) && Word(6) == U(6) && Word(7) == U(7)
    ensures Word(8) == U(8) && Word(9) == U(9) && Word(10) == U(10) && Word(11) == U(11)
    ensures Word(12) == U(12) && Word(13) == U(13) && Word(14) == U(14) && Word(15) == U(15)
  {
  }

  lemma HighWords()
    ensures Word(16) == U(16) && Word(17) == U(17) && Word(18) == U(18) && Word(19) == U(19)
    ensures Word(20) == U(20) && Word(21) == U(21) && Word(22) == U(22) && Word(23) == U(23)
    ensures Word(24) == U(24) && Word(25) == U(25) && Word(26) == U(26) && Word(27) == U(27)
    ensures Word(28) == U(28) && Word(29) == U(29) && Word(30) == U(30) && Word(31) == U(31)
  {
  }

  lemma {:induction false} Run1()
    ensures Fold(U(0x1), [3, 3, 0, 2, 3]) == U(0x2318043)
  {
    hide Word, Fold, FoldBits;
    Words();
    FoldIsBits(0x1, [3, 3, 0, 2, 3], [3, 3, 0, 2, 3]);
    Chain1();
  }

  lemma {:induction false} Chain1()
    ensures FoldBits(0x1, [3, 3, 0, 2, 3]) == 0x2318043
  {
  }

  lemma {:induction false} Run2()
    ensures Fold(U(0x2318043), [0] + GROUPS1) == U(0x2b1bcbce)
  {
    hide Word, Fold, FoldBits;
    assert [0] + GROUPS1 == [0, 14, 20, 15, 7, 13, 26, 0, 25];
    Words();
    FoldIsBits(0x2318043, [0, 14, 20, 15, 7, 13, 26, 0, 25], [0, 14, 20, 15, 7, 13, 26, 0, 25]);
    Chain2();
  }

  lemma {:induction false} Chain2()
    ensures FoldBits(0x2318043, [0, 14, 20, 15, 7, 13, 26, 0, 25]) == 0x2b1bcbce
  {
  }

  lemma {:induction false} Run3()
    ensures Fold(U(0x2b1bcbce), GROUPS2) == U(0x23a1ff4b)
  {
    hide Word, Fold, FoldBits;
    Words();
    FoldIsBits(0x2b1bcbce, [18, 6, 11, 13, 8, 21, 4, 20], [18, 6, 11, 13, 8, 21, 4, 20]);
    Chain3();
  }

  lemma {:induction false} Chain3()
    ensures FoldBits(0x2b1bcbce, [18, 6, 11, 13, 8, 21, 4, 20]) == 0x23a1ff4b
  {
  }

  lemma {:induction false} Run4()
    ensures Fold(U(0x23a1ff4b), GROUPS3) == U(0x2a387174)
  {
    hide Word, Fold, FoldBits;
    Words();
    FoldIsBits(0x23a1ff4b, [3, 17, 2, 29, 3, 12, 29, 3], [3, 17, 2, 29, 3, 12, 29, 3]);
    Chain4();
  }

  lemma {:induction false} Chain4()
    ensures FoldBits(0x23a1ff4b, [3, 17, 2, 29, 3, 12, 29, 3]) == 0x2a387174
  {
  }

  lemma {:induction false} Run5()
    ensures Fold(U(0x2a387174), GROUPS4) == U(0x979c4ed)
  {
    hide Word, Fold, FoldBits;
    Words();
    FoldIsBits(0x2a387174, [4, 15, 24, 20, 6, 14, 30, 22], [4, 15, 24, 20, 6, 14, 30, 22]);
    Chain5();
  }

  lemma {:induction false} Chain5()
    ensures FoldBits(0x2a387174, [4, 15, 24, 20, 6, 14, 30, 22]) == 0x979c4ed
  {
  }

  lemma {:induction false} Run6()
    ensures Fold(U(0x979c4ed), PUBLISHED_SUM) == U(0x1)
  {
    hide Word, Fold, FoldBits;
    Words();
    FoldIsBits(0x979c4ed, [12, 7, 9, 17, 11, 21], [12, 7, 9, 17, 11, 21]);
    Chain6();
  }

  lemma {:induction false} Chain6()
    ensures FoldBits(0x979c4ed, [12, 7, 9, 17, 11, 21]) == 0x1
  {
  }

  /** The checksum of the address is right. */
  lemma {:induction false} PublishedChecks()
    ensures PolymodOf(Expanded("bc") + PUBLISHED_DATA + PUBLISHED_SUM) == BECH32_CONST
  {
    hide Fold, Expanded, GROUPS1, GROUPS2, GROUPS3, GROUPS4, PUBLISHED_SUM;
    PublishedPrefix();
    Run1();
    Run2();
    Run3();
    Run4();
    Run5();
    Run6();
    var a, b, c, d, e, f := Expanded("bc"), [0] + GROUPS1, GROUPS2, GROUPS3, GROUPS4, PUBLISHED_SUM;
    assert a + PUBLISHED_DATA + f == a + b + c + d + e + f;
    FoldConcat(U(1), a + b + c + d + e, f);
    FoldConcat(U(1), a + b + c + d, e);
    FoldConcat(U(1), a + b + c, d);
    FoldConcat(U(1), a + b, c);
    FoldConcat(U(1), a, b);
  }

  lemma PublishedPrefix()
    ensures IsAscii("bc") && Expanded("bc") == [3, 3, 0, 2, 3]
  {
  }

  // A string of groups is one number in base 2^w, most significant first.

  function NumberFrom(n: nat, data: seq<Byte>, base: nat): nat
    decreases |data|
  {
    if data == [] then n else NumberFrom(n * base + data[0], data[1..], base)
  }

  lemma {:induction false} BitsJoin(x: nat, v: nat, m: nat, w: nat)
    requires v < Pow2(w)
    ensures BitsOf(x * Pow2(w) + v, m + w) == BitsOf(x, m) + BitsOf(v, w)
    decreases w
  {
    if w == 0 {
    } else {
      HalfOfJoin(x, v, Pow2(w - 1));
      BitsJoin(x, v / 2, m, w - 1);
    }
  }

  lemma HalfOfJoin(x: nat, v: nat, half: nat)
    ensures var n := x * (2 * half) + v; n / 2 == x * half + v / 2 && n % 2 == v % 2
  {
    assert x * (2 * half) == 2 * (x * half);
  }

  lemma {:induction false} StreamIsNumber(n: nat, m: nat, data: seq<Byte>, w: nat)
    requires (w == 5 || w == 8) && AllFit(data, w)
    ensures BitsOf(n, m) + Stream(data, w) == BitsOf(NumberFrom(n, data, Pow2(w)), m + if w == 5 then 5 * |data| else 8 * |data|)
    decreases |data|
  {
    hide BitsOf, Pow2;
    if data != [] {
      var next := n * Pow2(w) + data[0];
      assert forall v | v in data[1..] :: v in data;
      assert data[0] in data;
      BitsJoin(n, data[0], m, w);
      StreamIsNumber(next, m + w, data[1..], w);
      assert BitsOf(n, m) + (BitsOf(data[0], w) + Stream(data[1..], w)) == (BitsOf(n, m) + BitsOf(data[0], w)) + Stream(data[1..], w);
    }
  }

  /** Five bytes and eight groups with the same number are the same bits. */
  lemma SameBits(bytes: seq<Byte>, groups: seq<Five>)
    requires |bytes| == 5 && |groups| == 8 && NumberFrom(0, bytes, 256) == NumberFrom(0, groups, 32)
    ensures Stream(bytes, 8) == Stream(groups, 5)
  {
    hide Stream, NumberFrom;
    Powers58();
    EightBits(bytes);
    FivesAllFit(groups);
    StreamIsNumber(0, 0, bytes, 8);
    StreamIsNumber(0, 0, groups, 5);
    assert BitsOf(0, 0) == [];
    assert [] + Stream(bytes, 8) == Stream(bytes, 8) && [] + Stream(groups, 5) == Stream(groups, 5);
  }

  lemma FivesAllFit(groups: seq<Five>)
    ensures AllFit(groups, 5)
  {
    ThirtyTwo();
  }

  lemma {:induction false} Number1()
    ensures NumberFrom(0, BYTES1, 256) == NumberFrom(0, GROUPS1, 32)
  {
  }

  lemma {:induction false} Number2()
    ensures NumberFrom(0, BYTES2, 256) == NumberFrom(0, GROUPS2, 32)
  {
  }

  lemma {:induction false} Number3()
    ensures NumberFrom(0, BYTES3, 256) == NumberFrom(0, GROUPS3, 32)
  {
  }

  lemma {:induction false} Number4()
    ensures NumberFrom(0, BYTES4, 256) == NumberFrom(0, GROUPS4, 32)
  {
  }

  lemma Powers58()
    ensures Pow2(5) == 32 && Pow2(8) == 256
  {
    assert Pow2(3) == 8;
  }

  lemma {:induction false} StreamConcat(x: seq<Byte>, y: seq<Byte>, w: nat)
    ensures Stream(x + y, w) == Stream(x, w) + Stream(y, w)
    decreases |x|
  {
    hide BitsOf;
    if x == [] {
      assert x + y == y;
    } else {
      assert (x + y)[1..] == x[1..] + y;
      StreamConcat(x[1..], y, w);
    }
  }

  /** The data part of the address is its program in groups of five bits. */
  lemma PublishedData()
    ensures DataOf(Address("bc", PUBLISHED_PROGRAM)) == PUBLISHED_DATA
  {
    hide Stream, NumberFrom, BYTES1, BYTES2, BYTES3, BYTES4, GROUPS1, GROUPS2, GROUPS3, GROUPS4, Groups, Rest;
    PublishedSizes();
    var groups := GROUPS1 + GROUPS2 + GROUPS3 + GROUPS4;
    Number1();
    Number2();
    Number3();
    Number4();
    SameBits(BYTES1, GROUPS1);
    SameBits(BYTES2, GROUPS2);
    SameBits(BYTES3, GROUPS3);
    SameBits(BYTES4, GROUPS4);
    StreamConcat(BYTES1 + BYTES2 + BYTES3, BYTES4, 8);
    StreamConcat(BYTES1 + BYTES2, BYTES3, 8);
    StreamConcat(BYTES1, BYTES2, 8);
    StreamConcat(GROUPS1 + GROUPS2 + GROUPS3, GROUPS4, 5);
    StreamConcat(GROUPS1 + GROUPS2, GROUPS3, 5);
    StreamConcat(GROUPS1, GROUPS2, 5);
    FivesAllFit(groups);
    GroupsOfStream(groups, 5, []);
    assert Stream(groups, 5) + [] == Stream(PUBLISHED_PROGRAM, 8);
    EightBits(PUBLISHED_PROGRAM);
    assert [0] + groups == PUBLISHED_DATA;
  }

  lemma PublishedSizes()
    ensures |BYTES1| == 5 && |BYTES2| == 5 && |BYTES3| == 5 && |BYTES4| == 5
    ensures |GROUPS1| == 8 && |GROUPS2| == 8 && |GROUPS3| == 8 && |GROUPS4| == 8 && |PUBLISHED_SUM| == 6
  {
  }

  lemma CharsConcat(x: seq<Five>, y: seq<Five>)
    ensures Chars(x + y) == Chars(x) + Chars(y)
  {
    hide CHARSET;
    CharsetSize();
  }

  lemma CharsInPieces()
    ensures Chars(PUBLISHED_DATA + PUBLISHED_SUM) == Chars([0] + GROUPS1) + Chars(GROUPS2) + Chars(GROUPS3) + Chars(GROUPS4) + Chars(PUBLISHED_SUM)
  {
    hide GROUPS1, GROUPS2, GROUPS3, GROUPS4, PUBLISHED_SUM, Chars, CHARSET;
    CharsConcat(PUBLISHED_DATA, PUBLISHED_SUM);
    CharsConcat([0] + GROUPS1 + GROUPS2 + GROUPS3, GROUPS4);
    CharsConcat([0] + GROUPS1 + GROUPS2, GROUPS3);
    CharsConcat([0] + GROUPS1, GROUPS2);
  }

  lemma PublishedText()
    ensures "bc" + "1" + ("qw508d6qe" + "jxtdg4y5" + "r3zarvar" + "y0c5xw7k" + "v8f3t4") == PUBLISHED
  {
    FirstText();
    SecondText();
    assert "bc" + "1" + ("qw508d6qe" + "jxtdg4y5" + "r3zarvar" + "y0c5xw7k" + "v8f3t4")
        == "bc" + "1" + ("qw508d6qe" + "jxtdg4y5") + ("r3zarvar" + "y0c5xw7k" + "v8f3t4");
  }

  lemma FirstText()
    ensures "bc" + "1" + ("qw508d6qe" + "jxtdg4y5") == "bc1qw508d6qejxtdg4y5"
  {
  }

  lemma SecondText()
    ensures "r3zarvar" + "y0c5xw7k" + "v8f3t4" == "r3zarvary0c5xw7kv8f3t4"
  {
  }

  lemma PublishedChars()
    ensures "bc" + "1" + Chars(PUBLISHED_DATA + PUBLISHED_SUM) == PUBLISHED
  {
    hide *;
    CharsInPieces();
    Piece1();
    Piece2();
    Piece3();
    Piece4();
    Piece5();
    PublishedText();
  }

  lemma Piece1()
    ensures Chars([0] + GROUPS1) == "qw508d6qe"
  {
  }

  lemma Piece2()
    ensures Chars(GROUPS2) == "jxtdg4y5"
  {
  }

  lemma Piece3()
    ensures Chars(GROUPS3) == "r3zarvar"
  {
  }

  lemma Piece4()
    ensures Chars(GROUPS4) == "y0c5xw7k"
  {
  }

  lemma Piece5()
    ensures Chars(PUBLISHED_SUM) == "v8f3t4"
  {
  }

  /** The published address is the canonical form of its program, and is parsed as it. */
  lemma PublishedAddress()
    ensures var a := Address("bc", PUBLISHED_PROGRAM); Valid(a) && ToString(a) == PUBLISHED && ParseAddress(PUBLISHED) == Ok(a)
  {
    hide BYTES1, BYTES2, BYTES3, BYTES4, GROUPS1, GROUPS2, GROUPS3, GROUPS4, PUBLISHED_SUM, Chars, CHARSET, ChecksumOf, Expanded,
      PolymodOf, DataOf, ParseAddress, PUBLISHED;
    PublishedSizes();
    PublishedPrefix();
    var a := Address("bc", PUBLISHED_PROGRAM);
    PublishedData();
    PublishedChecks();
    ChecksumIsUnique(Expanded("bc") + PUBLISHED_DATA, PUBLISHED_SUM);
    PublishedChars();
    ParseOfToString(a);
  }
}
