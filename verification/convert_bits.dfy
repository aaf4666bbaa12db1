// Regrouping of bit strings: convertBits in internal/bip322/bech32.go. Its accumulator is a 32-bit
// word that overflows on every input of more than a few bytes.
module ConvertBits {
  import opened Text

  const WORD: nat := 0x1_0000_0000

  function Pow2(n: nat): (p: nat)
    ensures p > 0
  {
    if n == 0 then 1 else 2 * Pow2(n - 1)
  }

  /** x << k. */
  function Shl(x: nat, k: nat): nat {
    x * Pow2(k)
  }

  /** x >> k. */
  function Shr(x: nat, k: nat): nat {
    Quotient(x, Pow2(k))
  }

  function Quotient(x: nat, d: nat): nat
    requires d > 0
  {
    x / d
  }

  /** x & (1<<k - 1). */
  function Low(x: nat, k: nat): nat {
    x % Pow2(k)
  }

  /** The conversion to uint32. */
  function Wrap(x: nat): nat {
    x % WORD
  }

  // ---------------------------------------------------------------------------------------------
  // Bit strings, most significant bit first
  // ---------------------------------------------------------------------------------------------

  function ValueOf(b: seq<bool>): (v: nat)
    ensures v < Pow2(|b|)
  {
    if b == [] then 0 else 2 * ValueOf(b[..|b| - 1]) + (if b[|b| - 1] then 1 else 0)
  }

  function BitsOf(v: nat, w: nat): (b: seq<bool>)
    ensures |b| == w
  {
    if w == 0 then [] else BitsOf(v / 2, w - 1) + [v % 2 == 1]
  }

  /** The bits of all groups, w bits each. */
  function Stream(data: seq<Byte>, w: nat): seq<bool> {
    if data == [] then [] else BitsOf(data[0], w) + Stream(data[1..], w)
  }

  /** The whole groups of w bits at the front of b. */
  function Groups(b: seq<bool>, w: nat): (out: seq<Byte>)
    requires 1 <= w <= 8
    decreases |b|
  {
    if |b| < w then [] else ByteSized(b[..w]); [ValueOf(b[..w])] + Groups(b[w..], w)
  }

  /** The bits of b after its whole groups. */
  function Rest(b: seq<bool>, w: nat): (rest: seq<bool>)
    requires 1 <= w
    ensures |rest| < w
    decreases |b|
  {
    if |b| < w then b else Rest(b[w..], w)
  }

  function Falses(n: nat): seq<bool> {
    seq(n, _ => false)
  }

  predicate AllFit(data: seq<Byte>, w: nat) {
    forall v | v in data :: v < Pow2(w)
  }

  /** What convertBits is to return, in terms of the bit string alone. */
  function Regrouped(data: seq<Byte>, from: nat, to: nat, pad: bool): Result<seq<Byte>>
    requires 1 <= from <= 8 && 1 <= to <= 8
  {
    if !AllFit(data, from) then Err
    else
      var b := Stream(data, from);
      var rest := Rest(b, to);
      if !pad then
        if |rest| >= from || true in rest then Err else Ok(Groups(b, to))
      else if rest == [] then Ok(Groups(b, to))
      else
        ByteSized(rest + Falses(to - |rest|));
        Ok(Groups(b, to) + [ValueOf(rest + Falses(to - |rest|))])
  }

  // ---------------------------------------------------------------------------------------------
  // Arithmetic
  // ---------------------------------------------------------------------------------------------

  lemma {:induction false} PowMonotone(a: nat, b: nat)
    requires a <= b
    ensures Pow2(a) <= Pow2(b)
    decreases b
  {
    if a < b {
      PowMonotone(a, b - 1);
    }
  }

  lemma ByteSized(b: seq<bool>)
    requires |b| <= 8
    ensures ValueOf(b) < 256
  {
    PowMonotone(|b|, 8);
    assert Pow2(4) == 16;
    assert Pow2(8) == 256;
  }

  lemma {:induction false} PowAdd(a: nat, b: nat)
    ensures Pow2(a + b) == Pow2(a) * Pow2(b)
  {
    if a > 0 {
      PowAdd(a - 1, b);
      assert Pow2(a + b) == 2 * Pow2(a - 1 + b);
      MulAssoc(2, Pow2(a - 1), Pow2(b));
    }
  }

  lemma MulAssoc(a: int, b: int, c: int)
    ensures (a * b) * c == a * (b * c)
  {
  }

  lemma MulAdd(a: int, b: int, c: int)
    ensures (a + b) * c == a * c + b * c
  {
  }

  lemma MulNonNegative(a: int, d: int)
    requires a >= 0 && d > 0
    ensures a * d >= 0
  {
  }

  lemma MulAtLeast(a: int, d: int)
    requires a >= 1 && d > 0
    ensures a * d >= d
  {
    MulAdd(a - 1, 1, d);
  }

  lemma PowWord()
    ensures Pow2(32) == WORD
  {
    assert Pow2(4) == 16;
    assert Pow2(8) == 256;
    PowAdd(8, 8);
    PowAdd(16, 16);
  }

  lemma DivModUnique(x: int, d: int, q: int, r: int)
    requires d > 0 && 0 <= r < d && x == q * d + r
    ensures x / d == q && x % d == r
  {
    var q' := x / d;
    assert x == q' * d + x % d;
    MulAdd(q - q', q', d);
    if q > q' {
      MulAtLeast(q - q', d);
    } else if q < q' {
      MulAtLeast(q' - q, d);
      MulAdd(q' - q, q, d);
    }
  }

  lemma LowBounded(x: nat, k: nat)
    ensures Low(x, k) < Pow2(k)
  {
  }

  lemma LowUnique(x: nat, k: nat, q: nat, r: nat)
    requires r < Pow2(k) && x == Shl(q, k) + r
    ensures Shr(x, k) == q && Low(x, k) == r
  {
    DivModUnique(x, Pow2(k), q, r);
  }

  lemma SplitAt(x: nat, k: nat)
    ensures x == Shl(Shr(x, k), k) + Low(x, k)
  {
  }

  lemma ShlShl(x: nat, a: nat, b: nat)
    ensures Shl(Shl(x, a), b) == Shl(x, a + b)
  {
    hide Pow2;
    PowAdd(a, b);
    MulAssoc(x, Pow2(a), Pow2(b));
  }

  lemma ShlAdd(x: nat, y: nat, k: nat)
    ensures Shl(x + y, k) == Shl(x, k) + Shl(y, k)
  {
    hide Pow2;
    MulAdd(x, y, Pow2(k));
  }

  lemma ShlBounded(x: nat, a: nat, v: nat, b: nat)
    requires x < Pow2(a) && v < Pow2(b)
    ensures Shl(x, b) + v < Pow2(a + b)
  {
    hide Pow2;
    PowAdd(a, b);
    var d := Pow2(a) - x - 1;
    MulAdd(x + 1, d, Pow2(b));
    MulAdd(x, 1, Pow2(b));
    if d > 0 {
      MulAtLeast(d, Pow2(b));
    }
  }

  lemma WrapIsLow(x: nat)
    ensures Wrap(x) == Low(x, 32)
  {
    PowWord();
  }

  /** Cutting a number off at 32 bits does not change the bits below k. */
  lemma WrapKeepsLow(x: nat, k: nat)
    requires k <= 32
    ensures Low(Wrap(x), k) == Low(x, k)
  {
    hide *;
    WrapIsLow(x);
    SplitAt(x, 32);
    var q, r := Shr(x, 32), Low(x, 32);
    SplitAt(r, k);
    ShlShl(q, 32 - k, k);
    ShlAdd(Shl(q, 32 - k), Shr(r, k), k);
    LowBounded(r, k);
    LowUnique(x, k, Shl(q, 32 - k) + Shr(r, k), Low(r, k));
  }

  /** acc<<f | v keeps the b pending bits and adds the new ones below them. */
  lemma ShiftIn(acc: nat, b: nat, f: nat, v: nat)
    requires b + f <= 32 && v < Pow2(f)
    ensures Low(Wrap(Shl(acc, f)) + v, b + f) == Shl(Low(acc, b), f) + v
  {
    hide *;
    var k, p := Shr(acc, b), Low(acc, b);
    LowBounded(acc, b);
    ShlBounded(p, b, v, f);
    ZeroFits(f);
    ShlBounded(p, b, 0, f);
    SplitAt(acc, b);
    ShlAdd(Shl(k, b), p, f);
    ShlShl(k, b, f);
    LowUnique(Shl(acc, f), b + f, k, Shl(p, f));
    WrapKeepsLow(Shl(acc, f), b + f);
    var x := Wrap(Shl(acc, f));
    SplitAt(x, b + f);
    LowUnique(x + v, b + f, Shr(x, b + f), Shl(p, f) + v);
  }

  lemma ZeroFits(k: nat)
    ensures 0 < Pow2(k)
  {
  }

  /** (acc>>b) & (1<<t - 1) takes the top t of the b+t pending bits. */
  lemma ShiftOut(acc: nat, b: nat, t: nat)
    ensures Low(Shr(acc, b), t) == Shr(Low(acc, b + t), b)
    ensures Low(acc, b) == Low(Low(acc, b + t), b)
  {
    hide *;
    var k, p := Shr(acc, b + t), Low(acc, b + t);
    SplitAt(acc, b + t);
    SplitAt(p, b);
    ShlShl(k, t, b);
    ShlAdd(Shl(k, t), Shr(p, b), b);
    LowBounded(p, b);
    LowUnique(acc, b, Shl(k, t) + Shr(p, b), Low(p, b));
    LowBounded(acc, b + t);
    ShrBounded(p, b, t);
    LowUnique(Shl(k, t) + Shr(p, b), t, k, Shr(p, b));
  }

  lemma ShrBounded(p: nat, b: nat, t: nat)
    requires p < Pow2(b + t)
    ensures Shr(p, b) < Pow2(t)
  {
    hide Pow2;
    PowAdd(b, t);
    var q := p / Pow2(b);
    assert p == q * Pow2(b) + p % Pow2(b);
    if q >= Pow2(t) {
      MulAdd(q - Pow2(t), Pow2(t), Pow2(b));
      MulNonNegative(q - Pow2(t), Pow2(b));
    }
  }

  // ---------------------------------------------------------------------------------------------
  // Facts about bit strings
  // ---------------------------------------------------------------------------------------------

  lemma {:induction false} ValueConcat(a: seq<bool>, b: seq<bool>)
    ensures ValueOf(a + b) == Shl(ValueOf(a), |b|) + ValueOf(b)
    decreases |b|
  {
    if b == [] {
      assert a + b == a;
    } else {
      var b' := b[..|b| - 1];
      assert (a + b)[..|a + b| - 1] == a + b';
      ValueConcat(a, b');
      ShlStep(ValueOf(a), |b'|);
    }
  }

  lemma ShlStep(x: nat, k: nat)
    ensures Shl(x, k + 1) == 2 * Shl(x, k)
  {
    MulAssoc(2, Pow2(k), x);
  }

  lemma ValueSplit(a: seq<bool>, b: seq<bool>)
    ensures Shr(ValueOf(a + b), |b|) == ValueOf(a) && Low(ValueOf(a + b), |b|) == ValueOf(b)
  {
    hide *;
    ValueConcat(a, b);
    LowUnique(ValueOf(a + b), |b|, ValueOf(a), ValueOf(b));
  }

  lemma {:induction false} ValueOfBits(v: nat, w: nat)
    requires v < Pow2(w)
    ensures ValueOf(BitsOf(v, w)) == v
    decreases w
  {
    if w > 0 {
      ValueOfBits(v / 2, w - 1);
      assert BitsOf(v, w)[..w - 1] == BitsOf(v / 2, w - 1);
    }
  }

  lemma {:induction false} BitsOfValue(b: seq<bool>)
    ensures BitsOf(ValueOf(b), |b|) == b
    decreases |b|
  {
    if b != [] {
      BitsOfValue(b[..|b| - 1]);
      assert b == b[..|b| - 1] + [b[|b| - 1]];
    }
  }

  lemma {:induction false} ValueOfFalses(n: nat)
    ensures ValueOf(Falses(n)) == 0
  {
    if n > 0 {
      assert Falses(n)[..n - 1] == Falses(n - 1);
      ValueOfFalses(n - 1);
    }
  }

  lemma {:induction false} ZeroValue(b: seq<bool>)
    ensures ValueOf(b) == 0 <==> true !in b
    decreases |b|
  {
    if b != [] {
      ZeroValue(b[..|b| - 1]);
      assert b == b[..|b| - 1] + [b[|b| - 1]];
    }
  }

  lemma {:induction false} StreamAppend(data: seq<Byte>, v: Byte, w: nat)
    ensures Stream(data + [v], w) == Stream(data, w) + BitsOf(v, w)
    decreases |data|
  {
    hide BitsOf;
    if data == [] {
      assert [] + [v] == [v];
      assert Stream([v][1..], w) == [];
    } else {
      assert (data + [v])[1..] == data[1..] + [v];
      StreamAppend(data[1..], v, w);
    }
  }

  /** Cutting a bit string into groups undoes writing groups out, whatever follows them. */
  lemma {:induction false} GroupsOfStream(out: seq<Byte>, w: nat, tail: seq<bool>)
    requires 1 <= w <= 8 && AllFit(out, w) && |tail| < w
    ensures Groups(Stream(out, w) + tail, w) == out && Rest(Stream(out, w) + tail, w) == tail
    decreases |out|
  {
    hide BitsOf, Pow2, ValueOf;
    if out == [] {
      assert [] + tail == tail;
    } else {
      var b := Stream(out, w) + tail;
      assert out[0] in out && forall v | v in out[1..] :: v in out;
      assert b[..w] == BitsOf(out[0], w) && b[w..] == Stream(out[1..], w) + tail;
      ValueOfBits(out[0], w);
      GroupsOfStream(out[1..], w, tail);
    }
  }

  lemma {:induction false} StreamOfGroups(b: seq<bool>, w: nat)
    requires 1 <= w <= 8
    ensures Stream(Groups(b, w), w) + Rest(b, w) == b && AllFit(Groups(b, w), w)
    decreases |b|
  {
    hide BitsOf, Pow2, ValueOf;
    if |b| >= w {
      StreamOfGroups(b[w..], w);
      BitsOfValue(b[..w]);
      ByteSized(b[..w]);
      assert Groups(b, w)[1..] == Groups(b[w..], w);
      assert b == b[..w] + b[w..];
    }
  }

  // ---------------------------------------------------------------------------------------------
  // The loop
  // ---------------------------------------------------------------------------------------------

  method Regroup(data: seq<Byte>, from: nat, to: nat, pad: bool) returns (r: Result<seq<Byte>>)
    requires 1 <= from <= 8 && 1 <= to <= 8
    ensures r == Regrouped(data, from, to, pad)
  {
    hide Pow2, Shl, Shr, Low, Wrap, BitsOf, ValueOf, Stream, Groups, Rest;
    var acc: nat, bits: nat := 0, 0;
    var out: seq<Byte> := [];
    ghost var pending: seq<bool> := [];
    EmptyStream(from, to);
    for i := 0 to |data|
      invariant AllFit(data[..i], from) && AllFit(out, to)
      invariant bits == |pending| < to && Low(acc, bits) == ValueOf(pending)
      invariant Stream(data[..i], from) == Stream(out, to) + pending
    {
      var v := data[i];
      if Shr(v, from) != 0 {
        TooWide(v, from);
        assert v in data;
        return Err;
      }
      TooWide(v, from);
      assert data[..i + 1] == data[..i] + [v];
      StreamAppend(data[..i], v, from);
      ShiftIn(acc, bits, from, v);
      ValueOfBits(v, from);
      ValueConcat(pending, BitsOf(v, from));
      assert Stream(data[..i + 1], from) == Stream(out, to) + (pending + BitsOf(v, from));
      pending := pending + BitsOf(v, from);
      acc := Wrap(Shl(acc, from)) + v;
      bits := bits + from;
      while bits >= to
        invariant bits == |pending| && Low(acc, bits) == ValueOf(pending)
        invariant Stream(data[..i + 1], from) == Stream(out, to) + pending
        invariant AllFit(out, to)
      {
        ghost var first, rest := pending[..to], pending[to..];
        assert pending == first + rest;
        bits := bits - to;
        ShiftOut(acc, bits, to);
        ValueSplit(first, rest);
        ByteSized(first);
        var g := Low(Shr(acc, bits), to);
        BitsOfValue(first);
        StreamAppend(out, g, to);
        assert Stream(out, to) + pending == Stream(out + [g], to) + rest;
        out := out + [g];
        pending := rest;
      }
    }
    assert data[..|data|] == data;
    r := Finish(data, from, to, pad, acc, bits, out, pending);
  }

  lemma EmptyStream(from: nat, to: nat)
    ensures Stream([], from) == Stream([], to) + [] && Low(0, 0) == ValueOf([])
  {
  }

  lemma TooWide(v: nat, w: nat)
    ensures Shr(v, w) != 0 <==> v >= Pow2(w)
  {
    hide Pow2;
    assert v == v / Pow2(w) * Pow2(w) + v % Pow2(w);
    if v < Pow2(w) {
      DivModUnique(v, Pow2(w), 0, v);
    }
  }

  /** The switch after the loop. */
  method Finish(data: seq<Byte>, from: nat, to: nat, pad: bool, acc: nat, bits: nat, out: seq<Byte>, ghost pending: seq<bool>)
    returns (r: Result<seq<Byte>>)
    requires 1 <= from <= 8 && 1 <= to <= 8
    requires AllFit(data, from) && AllFit(out, to)
    requires bits == |pending| < to && Low(acc, bits) == ValueOf(pending)
    requires Stream(data, from) == Stream(out, to) + pending
    ensures r == Regrouped(data, from, to, pad)
  {
    hide Pow2, Shl, Shr, Low, Wrap, BitsOf, ValueOf, Stream, Groups, Rest, AllFit;
    GroupsOfStream(out, to, pending);
    LastGroup(acc, bits, to, pending);
    if pad && bits > 0 {
      return Ok(out + [Low(Wrap(Shl(acc, to - bits)), to)]);
    }
    if !pad && (bits >= from || Low(Wrap(Shl(acc, to - bits)), to) != 0) {
      return Err;
    }
    return Ok(out);
  }

  lemma LastGroup(acc: nat, bits: nat, to: nat, pending: seq<bool>)
    requires bits == |pending| < to <= 8 && Low(acc, bits) == ValueOf(pending)
    ensures Low(Wrap(Shl(acc, to - bits)), to) == ValueOf(pending + Falses(to - bits)) < 256
    ensures Low(Wrap(Shl(acc, to - bits)), to) != 0 <==> true in pending
  {
    hide *;
    var k := to - bits;
    ZeroFits(k);
    ShiftIn(acc, bits, k, 0);
    assert |Falses(k)| == k by { FalsesSize(k); }
    ValueConcat(pending, Falses(k));
    ValueOfFalses(k);
    ByteSized(pending + Falses(k));
    ZeroValue(pending + Falses(k));
    FalsesSize(k);
  }

  lemma FalsesSize(n: nat)
    ensures |Falses(n)| == n && true !in Falses(n)
  {
  }

  // ---------------------------------------------------------------------------------------------
  // Round trips
  // ---------------------------------------------------------------------------------------------

  /** Bytes regrouped to 5 bits with padding come back unchanged, whatever their number. */
  lemma BytesRoundTrip(data: seq<Byte>)
    ensures Regrouped(data, 8, 5, true).Ok?
    ensures Regrouped(Regrouped(data, 8, 5, true).value, 5, 8, false) == Ok(data)
  {
    hide BitsOf, ValueOf, Stream, Groups, Rest;
    EightBits(data);
    var b := Stream(data, 8);
    var rest := Rest(b, 5);
    StreamOfGroups(b, 5);
    var head := Groups(b, 5);
    if rest == [] {
      assert b == b + [];
      assert Stream(head, 5) == b;
      GroupsOfStream(data, 8, []);
    } else {
      var pad := Falses(5 - |rest|);
      var last := ValueOf(rest + pad);
      ByteSized(rest + pad);
      BitsOfValue(rest + pad);
      StreamAppend(head, last, 5);
      assert Stream(head + [last], 5) == b + pad;
      GroupsOfStream(data, 8, pad);
      FalsesSize(5 - |rest|);
    }
  }

  lemma EightBits(data: seq<Byte>)
    ensures AllFit(data, 8)
  {
    assert Pow2(4) == 16;
    assert Pow2(8) == 256;
  }

  /** 5-bit groups that are accepted without padding come back unchanged. */
  lemma FivesRoundTrip(fives: seq<Byte>)
    requires Regrouped(fives, 5, 8, false).Ok?
    ensures Regrouped(Regrouped(fives, 5, 8, false).value, 8, 5, true) == Ok(fives)
  {
    hide BitsOf, ValueOf, Stream, Groups, Rest;
    var b := Stream(fives, 5);
    var data, tail := Groups(b, 8), Rest(b, 8);
    StreamOfGroups(b, 8);
    EightBits(data);
    var whole := Stream(data, 8);
    StreamOfGroups(whole, 5);
    var head, rest := Groups(whole, 5), Rest(whole, 5);
    Reassociate(Stream(head, 5), rest, tail);
    TailIsOneGroup(fives, head, rest + tail);
    OnlyFalses(tail);
  }

  /** The fewer than 5 bits that are dropped are the zeros that padding puts back. */
  lemma Reassociate(a: seq<bool>, b: seq<bool>, c: seq<bool>)
    ensures (a + b) + c == a + (b + c)
    ensures b == [] ==> b + c == c
  {
  }

  lemma OnlyFalses(b: seq<bool>)
    requires true !in b
    ensures b == Falses(|b|)
  {
    forall i | 0 <= i < |b| ensures !b[i] { assert b[i] in b; }
  }

  /** Fewer than ten bits that complete a stream of 5-bit groups are one group or none. */
  lemma TailIsOneGroup(fives: seq<Byte>, head: seq<Byte>, m: seq<bool>)
    requires AllFit(fives, 5) && AllFit(head, 5) && |m| < 10 && Stream(fives, 5) == Stream(head, 5) + m
    ensures |m| == 0 || |m| == 5
    ensures m == [] ==> fives == head
    ensures m != [] ==> ValueOf(m) < 256 && fives == head + [ValueOf(m)]
  {
    hide BitsOf, ValueOf, Stream, Groups, Rest, Pow2;
    var b := Stream(fives, 5);
    assert b == b + [];
    GroupsOfStream(fives, 5, []);
    if |m| < 5 {
      GroupsOfStream(head, 5, m);
    } else {
      var last := FirstGroup(head, m);
      GroupsOfStream(head + [last], 5, m[5..]);
      assert m[5..] == [];
      assert m[..5] == m;
    }
  }

  lemma FirstGroup(head: seq<Byte>, m: seq<bool>) returns (last: Byte)
    requires AllFit(head, 5) && |m| >= 5
    ensures last == ValueOf(m[..5]) && AllFit(head + [last], 5)
    ensures Stream(head, 5) + m == Stream(head + [last], 5) + m[5..]
  {
    hide BitsOf, ValueOf, Stream, Pow2;
    ByteSized(m[..5]);
    BitsOfValue(m[..5]);
    last := ValueOf(m[..5]);
    StreamAppend(head, last, 5);
    assert m == m[..5] + m[5..];
    FiveBits(m[..5]);
  }

  lemma FiveBits(b: seq<bool>)
    requires |b| == 5
    ensures ValueOf(b) < Pow2(5)
  {
  }
}
