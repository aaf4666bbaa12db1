// The BCH checksum of bech32 strings (BIP 173, section "Bech32"): bech32Polymod in
// internal/bip322/bech32.go.
//
// Every result about addresses rests on three facts about one step of the checksum register: a
// step never forgets anything about the register (StepInjective) nor about the value it takes in
// (StepSeparates), and a difference that has not yet reached the top five bits only moves up
// (StepOffset).
module Bech32Checksum {

  /** A 5-bit group, the unit of bech32 data. */
  type Five = v: nat | v < 32

  /** A uint32. */
  datatype Uint32 = U(bits: bv32)

  const ZERO := U(0)
  const BECH32_CONST := U(1)
  const BECH32M_CONST := U(0x2bc830a3)

  function Xor(a: Uint32, b: Uint32): Uint32 {
    U(a.bits ^ b.bits)
  }

  function Word(v: Five): Uint32 {
    U((v as bv8) as bv32)
  }

  function Low5(x: Uint32): Five {
    ((x.bits & 31) as bv8) as int
  }

  /** The register moved up by one group, without the five bits that leave it. */
  function MoveUp(c: Uint32): Uint32 {
    U((c.bits & 0x1ffffff) << 5)
  }

  /** The five bits that leave the register in the next step. */
  function Top(c: Uint32): Uint32 {
    U(c.bits >> 25)
  }

  function Gen(i: nat): Uint32
    requires i < 5
  {
    U([0x3b6a57b2, 0x26508e6d, 0x1ea119fa, 0x3d4233dd, 0x2a1462b3][i])
  }

  predicate BitSet(top: Uint32, i: nat)
    requires i < 5
  {
    var t := top.bits;
    (if i == 0 then t >> 0 else if i == 1 then t >> 1 else if i == 2 then t >> 2 else if i == 3 then t >> 3 else t >> 4) & 1 == 1
  }

  /** The register after the first n generators have been applied to it one by one. */
  function Applied(c: Uint32, top: Uint32, n: nat): Uint32
    requires n <= 5
  {
    if n == 0 then c
    else if BitSet(top, n - 1) then Xor(Applied(c, top, n - 1), Gen(n - 1))
    else Applied(c, top, n - 1)
  }

  /** What the bits that leave the register feed back into it. */
  function Feedback(top: Uint32): Uint32 {
    Applied(ZERO, top, 5)
  }

  function Step(c: Uint32, v: Uint32): Uint32 {
    Xor(Xor(MoveUp(c), v), Feedback(Top(c)))
  }

  function Fold(c: Uint32, values: seq<Five>): Uint32
    decreases |values|
  {
    if values == [] then c else Fold(Step(c, Word(values[0])), values[1..])
  }

  function PolymodOf(values: seq<Five>): Uint32 {
    Fold(U(1), values)
  }

  /** The loop over the values and, inside it, over the generators. */
  method Polymod(values: seq<Five>) returns (chk: Uint32)
    ensures chk == PolymodOf(values)
  {
    chk := U(1);
    var k := 0;
    while k < |values|
      invariant 0 <= k <= |values|
      invariant Fold(chk, values[k..]) == PolymodOf(values)
    {
      hide Xor, Word, MoveUp, Top, Gen, BitSet, Feedback;
      ghost var before := chk;
      var top := Top(chk);
      chk := Xor(MoveUp(chk), Word(values[k]));
      ghost var base := chk;
      for i := 0 to 5
        invariant chk == Applied(base, top, i)
      {
        if BitSet(top, i) {
          chk := Xor(chk, Gen(i));
        }
      }
      AppliedShifts(base, top, 5);
      FeedbackIs(top);
      assert chk == Step(before, Word(values[k]));
      assert values[k..][1..] == values[k + 1..];
      k := k + 1;
    }
  }

  // ---------------------------------------------------------------------------------------------
  // The words as a group
  // ---------------------------------------------------------------------------------------------

  lemma XorZero(a: Uint32)
    ensures Xor(a, ZERO) == a && Xor(ZERO, a) == a
  {
  }

  lemma XorCommutes(a: Uint32, b: Uint32)
    ensures Xor(a, b) == Xor(b, a)
  {
  }

  lemma XorAssociates(a: Uint32, b: Uint32, c: Uint32)
    ensures Xor(Xor(a, b), c) == Xor(a, Xor(b, c))
  {
  }

  lemma XorCancels(a: Uint32, b: Uint32)
    ensures Xor(Xor(a, b), b) == a && Xor(a, Xor(a, b)) == b
  {
  }

  lemma {:induction false} AppliedShifts(c: Uint32, top: Uint32, n: nat)
    requires n <= 5
    ensures Applied(c, top, n) == Xor(c, Applied(ZERO, top, n))
  {
    hide Xor, BitSet, Gen;
    if n == 0 {
      XorZero(c);
    } else {
      AppliedShifts(c, top, n - 1);
      XorAssociates(c, Applied(ZERO, top, n - 1), Gen(n - 1));
    }
  }

  lemma FeedbackIs(top: Uint32)
    ensures Feedback(top) == Applied(ZERO, top, 5)
  {
  }

  // ---------------------------------------------------------------------------------------------
  // Facts about one step
  // ---------------------------------------------------------------------------------------------

  /** The register holds at most 30 bits. */
  predicate Register(c: Uint32) {
    c.bits < 0x40000000
  }

  lemma GenBounded(i: nat)
    requires i < 5
    ensures Register(Gen(i))
  {
  }

  lemma XorBounded(a: Uint32, b: Uint32)
    requires Register(a) && Register(b)
    ensures Register(Xor(a, b))
  {
  }

  lemma {:induction false} AppliedBounded(c: Uint32, top: Uint32, n: nat)
    requires n <= 5 && Register(c)
    ensures Register(Applied(c, top, n))
  {
    hide Xor, BitSet, Gen, Register;
    if n > 0 {
      AppliedBounded(c, top, n - 1);
      GenBounded(n - 1);
      XorBounded(Applied(c, top, n - 1), Gen(n - 1));
    }
  }

  lemma MoveUpBounded(c: Uint32)
    ensures Register(MoveUp(c)) && Register(ZERO)
  {
  }

  lemma StepBounded(c: Uint32, v: Five)
    ensures Register(Step(c, Word(v)))
  {
    hide Xor, Applied, Register, MoveUp, Top, Word;
    MoveUpBounded(c);
    WordFits(v);
    AppliedBounded(ZERO, Top(c), 5);
    XorBounded(MoveUp(c), Word(v));
    XorBounded(Xor(MoveUp(c), Word(v)), Feedback(Top(c)));
  }

  lemma ByteRoundTrip(v: Five)
    ensures (v as bv8) < 32 && (v as bv8) as int == v
    ensures ((v as bv8) as bv32 & 31) as bv8 == v as bv8
  {
  }

  lemma WordFits(v: Five)
    ensures Word(v).bits < 32 && Register(Word(v)) && Low5(Word(v)) == v
  {
    ByteRoundTrip(v);
  }

  lemma WordOfLow5(x: Uint32)
    ensures Word(Low5(x)) == Mask5(x)
  {
  }

  function FeedbackBits(t: bv32): bv32 {
    (if (t >> 0) & 1 == 1 then 0x3b6a57b2 else 0) ^ (if (t >> 1) & 1 == 1 then 0x26508e6d else 0) ^
    (if (t >> 2) & 1 == 1 then 0x1ea119fa else 0) ^ (if (t >> 3) & 1 == 1 then 0x3d4233dd else 0) ^
    (if (t >> 4) & 1 == 1 then 0x2a1462b3 else 0)
  }

  lemma FeedbackBitsInjective(t: bv32, u: bv32)
    requires t < 32 && u < 32 && FeedbackBits(t) & 31 == FeedbackBits(u) & 31
    ensures t == u
  {
  }

  /** The generator that bit i of top selects. */
  function Selected(top: Uint32, i: nat): Uint32
    requires i < 5
  {
    if BitSet(top, i) then Gen(i) else ZERO
  }

  lemma AppliedNext(top: Uint32, n: nat)
    requires n < 5
    ensures Applied(ZERO, top, n + 1) == Xor(Applied(ZERO, top, n), Selected(top, n))
  {
    hide Xor, BitSet, Gen;
    XorZero(Applied(ZERO, top, n));
  }

  lemma FeedbackSelects(top: Uint32)
    ensures Feedback(top) ==
      Xor(Xor(Xor(Xor(Selected(top, 0), Selected(top, 1)), Selected(top, 2)), Selected(top, 3)), Selected(top, 4))
  {
    hide Xor, Selected;
    AppliedNext(top, 0);
    AppliedNext(top, 1);
    AppliedNext(top, 2);
    AppliedNext(top, 3);
    AppliedNext(top, 4);
    XorZero(Selected(top, 0));
  }

  lemma SelectedBits(top: Uint32)
    ensures Xor(Xor(Xor(Xor(Selected(top, 0), Selected(top, 1)), Selected(top, 2)), Selected(top, 3)), Selected(top, 4)).bits
            == FeedbackBits(top.bits)
  {
  }

  lemma Low5Equal(x: Uint32, y: Uint32)
    requires Low5(x) == Low5(y)
    ensures x.bits & 31 == y.bits & 31
  {
    WordOfLow5(x);
    WordOfLow5(y);
  }

  // The low five bits of the generators are linearly independent, so two registers that feed back
  // the same low bits have lost the same top bits.
  lemma FeedbackInjective(x: Uint32, y: Uint32)
    requires x.bits < 32 && y.bits < 32 && Low5(Feedback(x)) == Low5(Feedback(y))
    ensures x == y
  {
    hide *;
    Low5Equal(Feedback(x), Feedback(y));
    FeedbackSelects(x);
    FeedbackSelects(y);
    SelectedBits(x);
    SelectedBits(y);
    FeedbackBitsInjective(x.bits, y.bits);
  }

  lemma TopFits(c: Uint32)
    requires Register(c)
    ensures Top(c).bits < 32
  {
  }

  lemma Rejoin(a: Uint32, b: Uint32)
    requires Register(a) && Register(b) && Top(a) == Top(b) && MoveUp(a) == MoveUp(b)
    ensures a == b
  {
  }

  lemma MoveUpClearsLow(c: Uint32, f: Uint32)
    ensures Low5(Xor(MoveUp(c), f)) == Low5(f)
  {
  }

  lemma StepIs(c: Uint32, v: Uint32)
    ensures Step(c, v) == Xor(Xor(MoveUp(c), v), Feedback(Top(c)))
  {
  }

  /** Regroups one step so that the value taken in comes last. */
  lemma StepValueLast(c: Uint32, v: Uint32)
    ensures Step(c, v) == Xor(Xor(MoveUp(c), Feedback(Top(c))), v)
  {
    hide *;
    StepIs(c, v);
    XorAssociates(MoveUp(c), v, Feedback(Top(c)));
    XorCommutes(v, Feedback(Top(c)));
    XorAssociates(MoveUp(c), Feedback(Top(c)), v);
  }

  /** Two registers that differ still differ after they take in the same value. */
  lemma StepInjective(a: Uint32, b: Uint32, v: Uint32)
    requires Register(a) && Register(b) && Step(a, v) == Step(b, v)
    ensures a == b
  {
    hide *;
    var fa, fb := Feedback(Top(a)), Feedback(Top(b));
    StepValueLast(a, v);
    StepValueLast(b, v);
    XorCancels(Xor(MoveUp(a), fa), v);
    XorCancels(Xor(MoveUp(b), fb), v);
    MoveUpClearsLow(a, fa);
    MoveUpClearsLow(b, fb);
    TopFits(a);
    TopFits(b);
    FeedbackInjective(Top(a), Top(b));
    XorCancels(MoveUp(a), fa);
    XorCancels(MoveUp(b), fb);
    Rejoin(a, b);
  }

  /** A register that takes in different values ends in different states. */
  lemma StepSeparates(c: Uint32, u: Uint32, v: Uint32)
    requires Step(c, u) == Step(c, v)
    ensures u == v
  {
    hide *;
    StepValueLast(c, u);
    StepValueLast(c, v);
    XorCancels(Xor(MoveUp(c), Feedback(Top(c))), u);
    XorCancels(Xor(MoveUp(c), Feedback(Top(c))), v);
  }

  lemma OffsetKeepsTop(s: Uint32, e: Uint32)
    requires e.bits < 0x2000000
    ensures Top(Xor(s, e)) == Top(s)
  {
  }

  lemma OffsetMovesUp(s: Uint32, e: Uint32)
    ensures MoveUp(Xor(s, e)) == Xor(MoveUp(s), MoveUp(e))
  {
  }

  /** A difference that has not reached the top bits moves up and makes room for the new value. */
  lemma StepOffset(s: Uint32, e: Uint32, v: Uint32)
    requires e.bits < 0x2000000
    ensures Step(Xor(s, e), v) == Xor(Step(s, ZERO), Xor(MoveUp(e), v))
  {
    hide *;
    var f := Feedback(Top(s));
    OffsetKeepsTop(s, e);
    OffsetMovesUp(s, e);
    StepValueLast(Xor(s, e), v);
    StepValueLast(s, ZERO);
    XorZero(Xor(MoveUp(s), f));
    XorAssociates(MoveUp(s), MoveUp(e), f);
    XorCommutes(MoveUp(e), f);
    XorAssociates(MoveUp(s), f, MoveUp(e));
    XorAssociates(Xor(MoveUp(s), f), MoveUp(e), v);
  }

  // ---------------------------------------------------------------------------------------------
  // Whole strings of values
  // ---------------------------------------------------------------------------------------------

  lemma {:induction false} FoldBounded(c: Uint32, values: seq<Five>)
    requires Register(c)
    ensures Register(Fold(c, values))
    decreases |values|
  {
    hide Register, Step, Word;
    if values != [] {
      StepBounded(c, values[0]);
      FoldBounded(Step(c, Word(values[0])), values[1..]);
    }
  }

  lemma {:induction false} FoldConcat(c: Uint32, a: seq<Five>, b: seq<Five>)
    ensures Fold(c, a + b) == Fold(Fold(c, a), b)
    decreases |a|
  {
    hide Step, Word;
    if a == [] {
      assert a + b == b;
    } else {
      assert (a + b)[1..] == a[1..] + b;
      FoldConcat(Step(c, Word(a[0])), a[1..], b);
    }
  }

  /** Registers that differ still differ after any number of common values. */
  lemma {:induction false} FoldInjective(a: Uint32, b: Uint32, values: seq<Five>)
    requires Register(a) && Register(b) && Fold(a, values) == Fold(b, values)
    ensures a == b
    decreases |values|
  {
    hide Register, Step, Word;
    if values != [] {
      var v := Word(values[0]);
      StepBounded(a, values[0]);
      StepBounded(b, values[0]);
      FoldInjective(Step(a, v), Step(b, v), values[1..]);
      StepInjective(a, b, v);
    }
  }

  /** Changing one value changes the checksum, whatever stands before and after it. */
  lemma {:induction false} OneChangeChangesPolymod(before: seq<Five>, u: Five, v: Five, after: seq<Five>)
    requires u != v
    ensures PolymodOf(before + [u] + after) != PolymodOf(before + [v] + after)
  {
    hide Register, Step, Word;
    var c := Fold(U(1), before);
    StartBounded();
    FoldBounded(U(1), before);
    StepBounded(c, u);
    StepBounded(c, v);
    WordFits(u);
    WordFits(v);
    if Step(c, Word(u)) == Step(c, Word(v)) {
      StepSeparates(c, Word(u), Word(v));
      assert false;
    }
    if Fold(Step(c, Word(u)), after) == Fold(Step(c, Word(v)), after) {
      FoldInjective(Step(c, Word(u)), Step(c, Word(v)), after);
      assert false;
    }
    FoldOne(before, u, after);
    FoldOne(before, v, after);
  }

  lemma StartBounded()
    ensures Register(U(1))
  {
  }

  lemma {:induction false} FoldOne(before: seq<Five>, u: Five, after: seq<Five>)
    ensures PolymodOf(before + [u] + after) == Fold(Step(Fold(U(1), before), Word(u)), after)
  {
    hide Step, Word;
    FoldConcat(U(1), before + [u], after);
    FoldConcat(U(1), before, [u]);
    assert Fold(Step(Fold(U(1), before), Word(u)), [][..]) == Step(Fold(U(1), before), Word(u));
    assert [u][1..] == [];
  }

  // ---------------------------------------------------------------------------------------------
  // The six checksum groups
  // ---------------------------------------------------------------------------------------------

  function Zeros(n: nat): seq<Five> {
    seq(n, _ => 0)
  }

  /** The groups of cs moved into e, first group highest. */
  function Pack(e: Uint32, cs: seq<Five>): Uint32
    decreases |cs|
  {
    if cs == [] then e else Pack(Xor(MoveUp(e), Word(cs[0])), cs[1..])
  }

  function Limit(k: nat): bv32
    requires k <= 6
  {
    if k == 0 then 1 else if k == 1 then 0x20 else if k == 2 then 0x400 else if k == 3 then 0x8000
    else if k == 4 then 0x100000 else if k == 5 then 0x2000000 else 0x40000000
  }

  lemma PackFits(e: Uint32, k: nat, v: Five)
    requires k < 6 && e.bits < Limit(k)
    ensures e.bits < 0x2000000 && Xor(MoveUp(e), Word(v)).bits < Limit(k + 1)
  {
    WordFits(v);
    PackFitsBits(e.bits, Word(v).bits, k);
  }

  lemma PackFitsBits(e: bv32, v: bv32, k: nat)
    requires k < 6 && e < Limit(k) && v < 32
    ensures e < 0x2000000 && ((e & 0x1ffffff) << 5) ^ v < Limit(k + 1)
  {
  }

  /** Up to six groups: their effect on the register is to be added to what zeros would leave. */
  lemma {:induction false} FoldOffset(s: Uint32, e: Uint32, cs: seq<Five>, k: nat)
    requires k + |cs| <= 6 && e.bits < Limit(k)
    ensures Fold(Xor(s, e), cs) == Xor(Fold(s, Zeros(|cs|)), Pack(e, cs))
    decreases |cs|
  {
    hide Xor, Step, Word, MoveUp, Limit;
    if cs == [] {
      assert Zeros(0) == [];
    } else {
      PackFits(e, k, cs[0]);
      StepOffset(s, e, Word(cs[0]));
      ZeroWord();
      assert Zeros(|cs|)[1..] == Zeros(|cs| - 1);
      FoldOffset(Step(s, ZERO), Xor(MoveUp(e), Word(cs[0])), cs[1..], k + 1);
    }
  }

  lemma ZeroWord()
    ensures Word(0) == ZERO
  {
    WordFits(0);
    ByteRoundTrip(0);
  }

  /** mod >> 5*(5-i). */
  function Shift(mod: Uint32, i: nat): Uint32
    requires i < 6
  {
    var m := mod.bits;
    U(if i == 0 then m >> 25 else if i == 1 then m >> 20 else if i == 2 then m >> 15
      else if i == 3 then m >> 10 else if i == 4 then m >> 5 else m >> 0)
  }

  function Mask5(x: Uint32): Uint32 {
    U(x.bits & 31)
  }

  function Digits(mod: Uint32): (cs: seq<Five>)
    ensures |cs| == 6
  {
    [Low5(Shift(mod, 0)), Low5(Shift(mod, 1)), Low5(Shift(mod, 2)), Low5(Shift(mod, 3)), Low5(Shift(mod, 4)), Low5(Shift(mod, 5))]
  }

  /** The checksum that bech32Encode appends. */
  function ChecksumOf(values: seq<Five>): (cs: seq<Five>)
    ensures |cs| == 6
  {
    Digits(Xor(PolymodOf(values + Zeros(6)), BECH32_CONST))
  }

  function Join(a: Uint32, b: Uint32, c: Uint32, d: Uint32, e: Uint32, f: Uint32): Uint32 {
    Xor(MoveUp(Xor(MoveUp(Xor(MoveUp(Xor(MoveUp(Xor(MoveUp(Xor(MoveUp(ZERO), a)), b)), c)), d)), e)), f)
  }

  lemma PackSix(cs: seq<Five>)
    requires |cs| == 6
    ensures Pack(ZERO, cs) == Join(Word(cs[0]), Word(cs[1]), Word(cs[2]), Word(cs[3]), Word(cs[4]), Word(cs[5]))
  {
    hide Xor, MoveUp, Word;
    var e1 := Xor(MoveUp(ZERO), Word(cs[0]));
    var e2 := Xor(MoveUp(e1), Word(cs[1]));
    var e3 := Xor(MoveUp(e2), Word(cs[2]));
    var e4 := Xor(MoveUp(e3), Word(cs[3]));
    var e5 := Xor(MoveUp(e4), Word(cs[4]));
    assert Pack(ZERO, cs) == Pack(e1, cs[1..]);
    assert Pack(e1, cs[1..]) == Pack(e2, cs[2..]) by { assert cs[1..][1..] == cs[2..]; }
    assert Pack(e2, cs[2..]) == Pack(e3, cs[3..]) by { assert cs[2..][1..] == cs[3..]; }
    assert Pack(e3, cs[3..]) == Pack(e4, cs[4..]) by { assert cs[3..][1..] == cs[4..]; }
    assert Pack(e4, cs[4..]) == Pack(e5, cs[5..]) by { assert cs[4..][1..] == cs[5..]; }
    assert Pack(e5, cs[5..]) == Pack(Xor(MoveUp(e5), Word(cs[5])), []) by { assert cs[5..][1..] == []; }
  }

  lemma JoinMasks(m: Uint32)
    requires Register(m)
    ensures Join(Mask5(Shift(m, 0)), Mask5(Shift(m, 1)), Mask5(Shift(m, 2)), Mask5(Shift(m, 3)), Mask5(Shift(m, 4)),
                 Mask5(Shift(m, 5))) == m
  {
  }

  lemma MasksJoin(a: Uint32, b: Uint32, c: Uint32, d: Uint32, e: Uint32, f: Uint32)
    requires a.bits < 32 && b.bits < 32 && c.bits < 32 && d.bits < 32 && e.bits < 32 && f.bits < 32
    ensures var m := Join(a, b, c, d, e, f);
            && Mask5(Shift(m, 0)) == a && Mask5(Shift(m, 1)) == b && Mask5(Shift(m, 2)) == c
            && Mask5(Shift(m, 3)) == d && Mask5(Shift(m, 4)) == e && Mask5(Shift(m, 5)) == f
  {
  }

  lemma PackDigits(m: Uint32)
    requires Register(m)
    ensures Pack(ZERO, Digits(m)) == m
  {
    hide Pack, Join, Low5, Word, Shift, Mask5, Register;
    PackSix(Digits(m));
    WordOfLow5(Shift(m, 0));
    WordOfLow5(Shift(m, 1));
    WordOfLow5(Shift(m, 2));
    WordOfLow5(Shift(m, 3));
    WordOfLow5(Shift(m, 4));
    WordOfLow5(Shift(m, 5));
    JoinMasks(m);
  }

  lemma Low5Masks(x: Uint32, v: Five)
    requires Mask5(x) == Word(v)
    ensures Low5(x) == v
  {
    WordFits(v);
  }

  lemma DigitsPack(cs: seq<Five>)
    requires |cs| == 6
    ensures Digits(Pack(ZERO, cs)) == cs
  {
    hide Pack, Join, Low5, Word, Shift, Mask5;
    PackSix(cs);
    var m := Pack(ZERO, cs);
    forall i | 0 <= i < 6 ensures Word(cs[i]).bits < 32 { WordFits(cs[i]); }
    MasksJoin(Word(cs[0]), Word(cs[1]), Word(cs[2]), Word(cs[3]), Word(cs[4]), Word(cs[5]));
    Low5Masks(Shift(m, 0), cs[0]);
    Low5Masks(Shift(m, 1), cs[1]);
    Low5Masks(Shift(m, 2), cs[2]);
    Low5Masks(Shift(m, 3), cs[3]);
    Low5Masks(Shift(m, 4), cs[4]);
    Low5Masks(Shift(m, 5), cs[5]);
  }

  lemma {:induction false} PolymodSix(values: seq<Five>, cs: seq<Five>)
    requires |cs| == 6
    ensures PolymodOf(values + cs) == Xor(PolymodOf(values + Zeros(6)), Pack(ZERO, cs))
    ensures Register(PolymodOf(values + Zeros(6)))
  {
    hide Xor, Step, Word, MoveUp, Pack, Register;
    var s := Fold(U(1), values);
    FoldConcat(U(1), values, cs);
    FoldConcat(U(1), values, Zeros(6));
    XorZero(s);
    FoldOffset(s, ZERO, cs, 0);
    StartBounded();
    FoldBounded(U(1), values + Zeros(6));
  }

  /** The checksum that makes a string of values valid exists and is the one appended. */
  lemma {:induction false} ChecksumIsUnique(values: seq<Five>, cs: seq<Five>)
    requires |cs| == 6
    ensures PolymodOf(values + cs) == BECH32_CONST <==> cs == ChecksumOf(values)
  {
    hide *;
    var z := PolymodOf(values + Zeros(6));
    PolymodSix(values, cs);
    ChecksumIs(values);
    OneBounded();
    XorBounded(z, BECH32_CONST);
    if PolymodOf(values + cs) == BECH32_CONST {
      XorCancels(z, Pack(ZERO, cs));
      DigitsPack(cs);
    }
    if cs == ChecksumOf(values) {
      PackDigits(Xor(z, BECH32_CONST));
      XorCancels(z, BECH32_CONST);
    }
  }

  lemma ChecksumIs(values: seq<Five>)
    ensures ChecksumOf(values) == Digits(Xor(PolymodOf(values + Zeros(6)), BECH32_CONST))
  {
  }

  lemma OneBounded()
    ensures Register(BECH32_CONST)
  {
  }
}
