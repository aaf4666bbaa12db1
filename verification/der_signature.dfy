// Strict DER signatures: parseDERSignature and derInteger in internal/bip322/secp256k1.go, by the rules of BIP 66.
module DerSignature {
  import opened Text
  import opened Witness

  /** big.Int.SetBytes: the big-endian value. */
  function Value(b: seq<Byte>): nat {
    if |b| == 0 then 0 else 256 * Value(b[..|b| - 1]) + b[|b| - 1]
  }

  /** A byte whose top bit is set. */
  predicate TopBit(b: Byte) {
    b >= 0x80
  }

  predicate DerInteger(tag: Byte, v: seq<Byte>) {
    if tag != 0x02 || |v| == 0 then false
    else if TopBit(v[0]) then false
    else if |v| > 1 && v[0] == 0 && !TopBit(v[1]) then false
    else true
  }

  datatype Signature = Signature(r: nat, s: nat, sighash: Byte)

  function Parse(sig: seq<Byte>): Result<Signature> {
    var n := |sig|;
    if n < 9 || n > 73 || sig[0] != 0x30 || sig[1] != n - 3 then Err
    else
      var lenR := sig[3];
      if 5 + lenR >= n then Err
      else
        var lenS := sig[5 + lenR];
        if lenR + lenS + 7 != n then Err
        else if !DerInteger(sig[2], sig[4..4 + lenR])
             || !DerInteger(sig[4 + lenR], sig[6 + lenR..6 + lenR + lenS]) then Err
        else Ok(Signature(Value(sig[4..4 + lenR]), Value(sig[6 + lenR..6 + lenR + lenS]), sig[n - 1]))
  }

  // ---------------------------------------------------------------------------------------------
  // The encoding of BIP 66
  // ---------------------------------------------------------------------------------------------

  /** The big-endian bytes of v without leading zeros. */
  function BigEndian(v: nat): seq<Byte> {
    if v == 0 then [] else BigEndian(v / 256) + [v % 256]
  }

  /** The shortest two's complement form of v: at least one byte, and a zero byte before a top bit. */
  function Minimal(v: nat): (b: seq<Byte>)
    ensures |b| >= 1
  {
    var b := BigEndian(v);
    if v == 0 || b[0] >= 128 then [0] + b else b
  }

  function Power(k: nat): nat {
    if k == 0 then 1 else 256 * Power(k - 1)
  }

  /** The number that bytes are in two's complement: the first bit counts against the others. */
  function TwosComplement(b: seq<Byte>): int {
    if b != [] && b[0] >= 128 then Value(b) - Power(|b|) else Value(b)
  }

  function Field(v: nat): seq<int> {
    [0x02, |Minimal(v)|] + Minimal(v)
  }

  /** 0x30 len 0x02 rlen r 0x02 slen s sighash */
  function Encode(sig: Signature): seq<int> {
    var body := Field(sig.r) + Field(sig.s);
    [0x30, |body|] + body + [sig.sighash]
  }

  /** Within the bounds of BIP 66. */
  predicate Fits(sig: Signature) {
    |Encode(sig)| <= 73
  }

  // ---------------------------------------------------------------------------------------------
  // Integers
  // ---------------------------------------------------------------------------------------------

  lemma {:induction false} ValueOfBigEndian(v: nat)
    ensures Value(BigEndian(v)) == v
    ensures v > 0 ==> BigEndian(v) != [] && BigEndian(v)[0] != 0
  {
    if v > 0 {
      ValueOfBigEndian(v / 256);
      var b := BigEndian(v);
      assert b[..|b| - 1] == BigEndian(v / 256);
    }
  }

  lemma {:induction false} BigEndianOfValue(b: seq<Byte>)
    requires |b| > 0 ==> b[0] != 0
    ensures BigEndian(Value(b)) == b && (|b| > 0 ==> Value(b) > 0)
  {
    if |b| > 0 {
      var front := b[..|b| - 1];
      BigEndianOfValue(front);
      assert b == front + [b[|b| - 1]];
      assert Value(b) / 256 == Value(front) && Value(b) % 256 == b[|b| - 1];
    }
  }

  lemma {:induction false} LeadingZero(b: seq<Byte>)
    ensures Value([0] + b) == Value(b)
  {
    if |b| > 0 {
      LeadingZero(b[..|b| - 1]);
      assert ([0] + b)[..|b|] == [0] + b[..|b| - 1];
    }
  }

  lemma {:induction false} ValueBelow(b: seq<Byte>)
    ensures Value(b) < Power(|b|)
  {
    if |b| > 0 {
      ValueBelow(b[..|b| - 1]);
    }
  }

  lemma {:induction false} NotLonger(b: seq<Byte>)
    ensures |BigEndian(Value(b))| <= |b|
    ensures b != [] && |BigEndian(Value(b))| == |b| ==> BigEndian(Value(b))[0] == b[0]
  {
    hide Value, BigEndian;
    if b != [] && b[0] == 0 {
      assert b == [0] + b[1..];
      LeadingZero(b[1..]);
      NotLonger(b[1..]);
    } else {
      BigEndianOfValue(b);
    }
  }

  /** Minimal is a form of n in two's complement, and no form of n has fewer bytes. */
  lemma {:induction false} MinimalIsShortest(n: nat, b: seq<Byte>)
    ensures TwosComplement(Minimal(n)) == n
    ensures b != [] && TwosComplement(b) == n ==> |Minimal(n)| <= |b|
  {
    hide Value, BigEndian, Power;
    ValueOfBigEndian(n);
    LeadingZero(BigEndian(n));
    ZeroIs();
    if b != [] && TwosComplement(b) == n {
      ValueBelow(b);
      NotLonger(b);
    }
  }

  /** derInteger accepts exactly the shortest forms of the non-negative integers. */
  lemma DerIntegerExactly(v: seq<Byte>, n: nat)
    ensures DerInteger(0x02, v) && Value(v) == n <==> v == Minimal(n)
  {
    hide Value, BigEndian;
    ValueOfBigEndian(n);
    LeadingZero(BigEndian(n));
    ZeroIs();
    if DerInteger(0x02, v) {
      if v[0] == 0 {
        assert v == [0] + v[1..];
        LeadingZero(v[1..]);
        BigEndianOfValue(v[1..]);
      } else {
        BigEndianOfValue(v);
      }
    }
  }

  lemma ZeroIs()
    ensures BigEndian(0) == [] && Value([]) == 0
  {
  }

  // ---------------------------------------------------------------------------------------------
  // Signatures
  // ---------------------------------------------------------------------------------------------

  /** Splits the bytes at the two lengths they state. */
  lemma Split(sig: seq<Byte>, lenR: nat, lenS: nat)
    requires |sig| == lenR + lenS + 7
    ensures sig == [sig[0], sig[1]] + (([sig[2], sig[3]] + sig[4..4 + lenR])
                 + ([sig[4 + lenR], sig[5 + lenR]] + sig[6 + lenR..6 + lenR + lenS])) + [sig[|sig| - 1]]
  {
  }

  lemma ParsedIsEncoded(sig: seq<Byte>)
    requires Parse(sig).Ok?
    ensures sig == Encode(Parse(sig).value) && Fits(Parse(sig).value)
  {
    hide Value, Minimal, DerInteger;
    var lenR := sig[3];
    var lenS := sig[5 + lenR];
    var r, s := sig[4..4 + lenR], sig[6 + lenR..6 + lenR + lenS];
    TagIs(sig[2], r);
    TagIs(sig[4 + lenR], s);
    DerIntegerExactly(r, Value(r));
    DerIntegerExactly(s, Value(s));
    Split(sig, lenR, lenS);
  }

  lemma TagIs(tag: Byte, v: seq<Byte>)
    requires DerInteger(tag, v)
    ensures tag == 0x02
  {
  }

  lemma EncodedParses(sig: seq<Byte>, value: Signature)
    requires Fits(value) && sig == Encode(value)
    ensures Parse(sig) == Ok(value)
  {
    hide Value, DerInteger, Minimal;
    var r, s := Minimal(value.r), Minimal(value.s);
    DerIntegerExactly(r, value.r);
    DerIntegerExactly(s, value.s);
    assert sig[0] == 0x30 && sig[1] == |sig| - 3 && sig[2] == 0x02 && sig[3] == |r|;
    assert sig[4..4 + |r|] == r;
    assert sig[4 + |r|] == 0x02 && sig[5 + |r|] == |s|;
    assert sig[6 + |r|..6 + |r| + |s|] == s;
    assert sig[|sig| - 1] == value.sighash;
  }

  /** parseDERSignature accepts exactly the strict DER forms within its bounds, and inverts them. */
  lemma ParsesExactly(sig: seq<Byte>, value: Signature)
    ensures Parse(sig) == Ok(value) <==> Fits(value) && sig == Encode(value)
  {
    hide Parse, Encode, Fits;
    if Parse(sig) == Ok(value) {
      ParsedIsEncoded(sig);
    }
    if Fits(value) && sig == Encode(value) {
      EncodedParses(sig, value);
    }
  }

  /** So no two byte strings stand for the same signature: a signature cannot be re-encoded. */
  lemma ParseInjective(a: seq<Byte>, b: seq<Byte>)
    requires Parse(a).Ok? && Parse(a) == Parse(b)
    ensures a == b
  {
    hide Parse, Encode, Fits;
    ParsedIsEncoded(a);
    ParsedIsEncoded(b);
  }
}
