// The witness stack of a BIP-322 signature: readCompactSize and parseWitness in internal/bip322/bip322.go.
module Witness {
  import opened Text

  // ---------------------------------------------------------------------------------------------
  // CompactSize integers
  // ---------------------------------------------------------------------------------------------

  const MAX_UINT64: nat := 0x1_0000_0000_0000_0000

  function LittleEndian(b: seq<Byte>): nat {
    if |b| == 0 then 0 else b[0] + 256 * LittleEndian(b[1..])
  }

  function Zeros(n: nat): seq<Byte> {
    if n == 0 then [] else [0] + Zeros(n - 1)
  }

  datatype Read = Read(n: nat, rest: seq<Byte>)

  function ReadCompactSize(b: seq<Byte>): Result<Read> {
    if |b| == 0 then Err
    else if b[0] == 0xfd then ReadWide(b, 2, 0xfd)
    else if b[0] == 0xfe then ReadWide(b, 4, 0x10000)
    else if b[0] == 0xff then ReadWide(b, 8, 0x1_0000_0000)
    else Ok(Read(b[0], b[1..]))
  }

  /** The bytes after the marker, through the eight byte buffer. */
  function ReadWide(b: seq<Byte>, size: nat, minimum: nat): Result<Read>
    requires size <= 8
  {
    if |b| < 1 + size then Err
    else
      var n := LittleEndian(b[1..1 + size] + Zeros(8 - size));
      if n < minimum then Err else Ok(Read(n, b[1 + size..]))
  }

  // The encoding as the Bitcoin protocol documents it.

  function BytesOf(n: nat, size: nat): (b: seq<Byte>)
    ensures |b| == size
  {
    if size == 0 then [] else [n % 256] + BytesOf(n / 256, size - 1)
  }

  function CompactSize(n: nat): seq<Byte> {
    if n < 0xfd then [n]
    else if n < 0x10000 then [0xfd] + BytesOf(n, 2)
    else if n < 0x1_0000_0000 then [0xfe] + BytesOf(n, 4)
    else [0xff] + BytesOf(n, 8)
  }

  function Power256(k: nat): nat {
    if k == 0 then 1 else 256 * Power256(k - 1)
  }

  lemma Powers()
    ensures Power256(2) == 0x10000 && Power256(4) == 0x1_0000_0000 && Power256(8) == MAX_UINT64
  {
    assert Power256(2) == 256 * Power256(1);
    assert Power256(4) == 256 * Power256(3) && Power256(3) == 256 * Power256(2);
    assert Power256(6) == 256 * Power256(5) && Power256(5) == 256 * Power256(4);
    assert Power256(8) == 256 * Power256(7) && Power256(7) == 256 * Power256(6);
  }

  lemma {:induction false} ValueOfBytes(n: nat, size: nat)
    requires n < Power256(size)
    ensures LittleEndian(BytesOf(n, size)) == n
  {
    if size > 0 {
      ValueOfBytes(n / 256, size - 1);
      assert BytesOf(n, size)[1..] == BytesOf(n / 256, size - 1);
    }
  }

  lemma LowByte(low: Byte, high: nat)
    ensures (low + 256 * high) % 256 == low && (low + 256 * high) / 256 == high
  {
  }

  lemma {:induction false} BytesOfValue(b: seq<Byte>)
    ensures LittleEndian(b) < Power256(|b|) && BytesOf(LittleEndian(b), |b|) == b
  {
    if |b| > 0 {
      BytesOfValue(b[1..]);
      LowByte(b[0], LittleEndian(b[1..]));
      assert b == [b[0]] + b[1..];
    }
  }

  lemma {:induction false} Padded(b: seq<Byte>, n: nat)
    ensures LittleEndian(b + Zeros(n)) == LittleEndian(b)
  {
    if |b| > 0 {
      assert (b + Zeros(n))[1..] == b[1..] + Zeros(n);
      Padded(b[1..], n);
    } else {
      assert b + Zeros(n) == Zeros(n);
      OnlyZeros(n);
    }
  }

  lemma {:induction false} OnlyZeros(n: nat)
    ensures LittleEndian(Zeros(n)) == 0
  {
    if n > 0 {
      OnlyZeros(n - 1);
      assert Zeros(n)[1..] == Zeros(n - 1);
    }
  }

  /** What the wide forms read: exactly the values of their size that are not below the minimum. */
  lemma WideIs(b: seq<Byte>, size: nat, minimum: nat, n: nat, rest: seq<Byte>)
    requires size <= 8 && |b| > 0
    ensures ReadWide(b, size, minimum) == Ok(Read(n, rest))
        <==> minimum <= n < Power256(size) && b == [b[0]] + BytesOf(n, size) + rest
  {
    hide LittleEndian, BytesOf, Zeros, Power256;
    if |b| >= 1 + size {
      var field := b[1..1 + size];
      assert b == [b[0]] + field + b[1 + size..];
      Padded(field, 8 - size);
      BytesOfValue(field);
    }
    if n < Power256(size) && b == [b[0]] + BytesOf(n, size) + rest {
      assert b[1..1 + size] == BytesOf(n, size);
      assert b[1 + size..] == rest;
      ValueOfBytes(n, size);
    }
  }

  /** readCompactSize accepts exactly the minimal encodings, whatever follows them, and inverts them. */
  lemma ReadsExactly(b: seq<Byte>, n: nat, rest: seq<Byte>)
    ensures ReadCompactSize(b) == Ok(Read(n, rest)) <==> n < MAX_UINT64 && b == CompactSize(n) + rest
  {
    hide ReadWide, BytesOf, Power256;
    Powers();
    if |b| > 0 {
      assert b == [b[0]] + b[1..];
      WideIs(b, 2, 0xfd, n, rest);
      WideIs(b, 4, 0x10000, n, rest);
      WideIs(b, 8, 0x1_0000_0000, n, rest);
      assert b == [n] + rest ==> b[0] == n && b[1..] == rest;
      assert b == CompactSize(n) + rest ==> b[0] == CompactSize(n)[0];
    }
  }

  // ---------------------------------------------------------------------------------------------
  // Witness stacks
  // ---------------------------------------------------------------------------------------------

  /** Stacks whose count and lengths fit 64 bits. */
  predicate Encodable(stack: seq<seq<Byte>>) {
    |stack| < MAX_UINT64 && forall i | 0 <= i < |stack| :: |stack[i]| < MAX_UINT64
  }

  function Items(stack: seq<seq<Byte>>): seq<Byte> {
    if |stack| == 0 then [] else CompactSize(|stack[0]|) + stack[0] + Items(stack[1..])
  }

  function Serialize(stack: seq<seq<Byte>>): seq<Byte> {
    CompactSize(|stack|) + Items(stack)
  }

  lemma {:induction false} ItemsSnoc(stack: seq<seq<Byte>>, item: seq<Byte>)
    ensures Items(stack + [item]) == Items(stack) + CompactSize(|item|) + item
  {
    hide CompactSize;
    if |stack| == 0 {
      assert stack + [item] == [item];
      assert Items([item][1..]) == [];
    } else {
      ItemsSnoc(stack[1..], item);
      assert (stack + [item])[0] == stack[0] && (stack + [item])[1..] == stack[1..] + [item];
      var first, rest, last := CompactSize(|stack[0]|) + stack[0], Items(stack[1..]), CompactSize(|item|) + item;
      assert rest + CompactSize(|item|) + item == rest + last;
      assert first + (rest + last) == (first + rest) + last;
    }
  }

  lemma {:induction false} AtLeastAByteEach(stack: seq<seq<Byte>>)
    ensures |stack| <= |Items(stack)|
  {
    if |stack| > 0 {
      AtLeastAByteEach(stack[1..]);
    }
  }

  /** After i items of st: what is parsed and what is left. */
  predicate Remains(st: seq<seq<Byte>>, i: nat, stack: seq<seq<Byte>>, rest: seq<Byte>) {
    i <= |st| && st[..i] == stack && Items(st[i..]) == rest
  }

  lemma FirstCount(st: seq<seq<Byte>>)
    requires Encodable(st)
    ensures ReadCompactSize(Serialize(st)) == Ok(Read(|st|, Items(st))) && |st| <= |Items(st)|
    ensures Remains(st, 0, [], Items(st))
  {
    hide ReadCompactSize, CompactSize;
    ReadsExactly(Serialize(st), |st|, Items(st));
    AtLeastAByteEach(st);
    assert st[0..] == st;
  }

  lemma NextItem(st: seq<seq<Byte>>, i: nat, stack: seq<seq<Byte>>, rest: seq<Byte>)
    requires Encodable(st) && i < |st| && Remains(st, i, stack, rest)
    ensures ReadCompactSize(rest) == Ok(Read(|st[i]|, st[i] + Items(st[i + 1..])))
    ensures Remains(st, i + 1, stack + [st[i]], Items(st[i + 1..]))
  {
    hide ReadCompactSize, CompactSize;
    assert st[i..][1..] == st[i + 1..];
    var after := st[i] + Items(st[i + 1..]);
    assert rest == CompactSize(|st[i]|) + after;
    ReadsExactly(rest, |st[i]|, after);
    assert st[..i + 1] == st[..i] + [st[i]];
  }

  /** The same for the step that was taken, whichever stack the bytes are a serialisation of. */
  lemma StepTaken(st: seq<seq<Byte>>, i: nat, stack: seq<seq<Byte>>, rest: seq<Byte>, n: nat, after: seq<Byte>)
    requires Encodable(st) && i < |st| && Remains(st, i, stack, rest)
    requires ReadCompactSize(rest) == Ok(Read(n, after))
    ensures n <= |after| && Remains(st, i + 1, stack + [after[..n]], after[n..])
  {
    hide ReadCompactSize, Items, Encodable, Remains;
    NextItem(st, i, stack, rest);
    assert after == st[i] + Items(st[i + 1..]);
  }

  /** What was parsed so far, as bytes. */
  lemma StepBytes(stack: seq<seq<Byte>>, rest: seq<Byte>, n: nat, after: seq<Byte>)
    requires ReadCompactSize(rest) == Ok(Read(n, after)) && n <= |after|
    ensures Items(stack) + rest == Items(stack + [after[..n]]) + after[n..] && n < MAX_UINT64
  {
    hide ReadCompactSize, CompactSize, Items;
    ReadsExactly(rest, n, after);
    ItemsSnoc(stack, after[..n]);
    assert after == after[..n] + after[n..];
  }

  /** Parses a witness stack: the result is st exactly when the bytes are the canonical serialisation of st. */
  method ParseWitness(b: seq<Byte>) returns (r: Result<seq<seq<Byte>>>)
    ensures forall st {:trigger Serialize(st)} | Encodable(st) && b == Serialize(st) :: r == Ok(st)
    ensures r.Ok? ==> Encodable(r.value) && b == Serialize(r.value)
  {
    hide ReadCompactSize, CompactSize, Items, Remains;
    var head := ReadCompactSize(b);
    forall st {:trigger Serialize(st)} | Encodable(st) && b == Serialize(st)
      ensures head == Ok(Read(|st|, Items(st))) && |st| <= |Items(st)| && Remains(st, 0, [], Items(st))
    {
      FirstCount(st);
    }
    if head.Err? {
      return Err;
    }
    var count, rest := head.value.n, head.value.rest;
    ReadsExactly(b, count, rest);
    if count > |rest| {
      return Err;
    }
    var stack: seq<seq<Byte>> := [];
    NoItems();
    for i := 0 to count
      invariant |stack| == i && Encodable(stack)
      invariant b == CompactSize(count) + (Items(stack) + rest)
      invariant forall st {:trigger Serialize(st)} | Encodable(st) && b == Serialize(st) ::
                  |st| == count && Remains(st, i, stack, rest)
    {
      var next := ReadCompactSize(rest);
      forall st {:trigger Serialize(st)} | Encodable(st) && b == Serialize(st)
        ensures next.Ok? && next.value.n <= |next.value.rest|
        ensures Remains(st, i + 1, stack + [next.value.rest[..next.value.n]], next.value.rest[next.value.n..])
      {
        NextItem(st, i, stack, rest);
        StepTaken(st, i, stack, rest, next.value.n, next.value.rest);
      }
      if next.Err? {
        return Err;
      }
      var n, after := next.value.n, next.value.rest;
      if n > |after| {
        return Err;
      }
      StepBytes(stack, rest, n, after);
      stack := stack + [after[..n]];
      rest := after[n..];
    }
    forall st {:trigger Serialize(st)} | Encodable(st) && b == Serialize(st)
      ensures st == stack && rest == []
    {
      AllRead(st, stack, rest);
    }
    if |rest| != 0 {
      return Err;
    }
    assert Items(stack) + rest == Items(stack);
    return Ok(stack);
  }

  lemma NoItems()
    ensures Items([]) == []
  {
  }

  lemma AllRead(st: seq<seq<Byte>>, stack: seq<seq<Byte>>, rest: seq<Byte>)
    requires Remains(st, |st|, stack, rest)
    ensures st == stack && rest == []
  {
    assert st[..|st|] == st;
  }

  /** No two stacks have the same serialisation. */
  lemma SerializeInjective(st: seq<seq<Byte>>, other: seq<seq<Byte>>)
    requires Encodable(st) && Encodable(other) && Serialize(st) == Serialize(other)
    ensures st == other
  {
    hide ReadCompactSize, CompactSize, Serialize;
    FirstCount(st);
    FirstCount(other);
    SameItems(st, other);
  }

  lemma {:induction false} SameItems(st: seq<seq<Byte>>, other: seq<seq<Byte>>)
    requires Encodable(st) && Encodable(other) && |st| == |other| && Items(st) == Items(other)
    ensures st == other
  {
    hide ReadCompactSize, CompactSize;
    if |st| > 0 {
      ReadsExactly(Items(st), |st[0]|, st[0] + Items(st[1..]));
      ReadsExactly(Items(other), |other[0]|, other[0] + Items(other[1..]));
      assert Items(st) == CompactSize(|st[0]|) + (st[0] + Items(st[1..]));
      assert Items(other) == CompactSize(|other[0]|) + (other[0] + Items(other[1..]));
      assert st[0] == (st[0] + Items(st[1..]))[..|st[0]|];
      assert other[0] == (other[0] + Items(other[1..]))[..|other[0]|];
      assert Items(st[1..]) == (st[0] + Items(st[1..]))[|st[0]|..];
      assert Items(other[1..]) == (other[0] + Items(other[1..]))[|other[0]|..];
      SameItems(st[1..], other[1..]);
      assert st == [st[0]] + st[1..];
      assert other == [other[0]] + other[1..];
    }
  }
}
