// P2WPKH addresses (BIP 173, section "Segwit address format"): ParseAddress and Address.String in
// internal/bip322/bip322.go.
module Address {
  import opened Text
  import opened Bech32Checksum
  import opened Bech32
  import opened ConvertBits

  const PROGRAM_SIZE := 20

  datatype Address = Address(hrp: string, program: seq<Byte>)

  predicate KnownHrp(hrp: string) {
    hrp == "bc" || hrp == "tb" || hrp == "bcrt"
  }

  /** The addresses there are: a known network and a program of 20 bytes. */
  predicate Valid(a: Address) {
    KnownHrp(a.hrp) && |a.program| == PROGRAM_SIZE
  }

  function AsBytes(data: seq<Five>): (b: seq<Byte>)
    ensures b == data
  {
    data
  }

  /** The checks that follow the bech32 decoder. */
  function FromDecoded(d: Decoded): Result<Address> {
    if !KnownHrp(d.hrp) then Err
    else if d.data == [] then Err
    else
      var version := d.data[0];
      match Regrouped(AsBytes(d.data[1..]), 5, 8, false)
      case Err => Err
      case Ok(program) =>
        if version == 1 && |program| == 32 then Err
        else if version != 0 then Err
        else if d.constant != BECH32_CONST then Err
        else if |program| == 32 then Err
        else if |program| != PROGRAM_SIZE then Err
        else Ok(Address(d.hrp, program))
  }

  function ParseAddress(s: string): Result<Address> {
    match DecodedOf(TrimSpace(s))
    case Err => Err
    case Ok(d) => FromDecoded(d)
  }

  /** The data part of an address: version 0, then the program in 5-bit groups. */
  function DataOf(a: Address): (data: seq<Five>)
    requires Valid(a)
    ensures Regrouped(a.program, 8, 5, true).Ok?
    ensures data == [0] + Regrouped(a.program, 8, 5, true).value && |data| == 33
  {
    BytesRoundTrip(a.program);
    FivesFit(a.program);
    [0] + AsFives(Regrouped(a.program, 8, 5, true).value)
  }

  function AsFives(data: seq<Byte>): (fives: seq<Five>)
    requires forall v | v in data :: v < 32
    ensures fives == data
  {
    assert forall i | 0 <= i < |data| :: data[i] in data;
    seq(|data|, i requires 0 <= i < |data| => data[i])
  }

  function ToString(a: Address): string
    requires Valid(a)
  {
    KnownHrpFacts(a.hrp);
    EncodedOf(a.hrp, DataOf(a))
  }

  lemma KnownHrpFacts(hrp: string)
    requires KnownHrp(hrp)
    ensures IsAscii(hrp) && Printable(hrp) && !HasUpper(hrp) && 1 <= |hrp| <= 4 && '1' !in hrp
  {
  }

  // ---------------------------------------------------------------------------------------------
  // Sizes
  // ---------------------------------------------------------------------------------------------

  lemma {:induction false} StreamSize(data: seq<Byte>, w: nat)
    requires w == 5 || w == 8
    ensures |Stream(data, w)| == if w == 5 then 5 * |data| else 8 * |data|
    decreases |data|
  {
    hide BitsOf;
    if data != [] {
      StreamSize(data[1..], w);
    }
  }

  lemma {:induction false} GroupsSize(b: seq<bool>, w: nat)
    requires w == 5 || w == 8
    ensures |b| == (if w == 5 then 5 * |Groups(b, w)| else 8 * |Groups(b, w)|) + |Rest(b, w)|
    decreases |b|
  {
    hide ValueOf;
    if |b| >= w {
      GroupsSize(b[w..], w);
    }
  }

  lemma {:induction false} GroupsFit(b: seq<bool>)
    ensures forall v | v in Groups(b, 5) :: v < 32
    decreases |b|
  {
    hide ValueOf, Pow2;
    if |b| >= 5 {
      FiveBits(b[..5]);
      ThirtyTwo();
      GroupsFit(b[5..]);
    }
  }

  lemma ThirtyTwo()
    ensures Pow2(5) == 32
  {
    assert Pow2(3) == 8;
  }

  lemma FivesFit(program: seq<Byte>)
    requires |program| == PROGRAM_SIZE
    ensures Regrouped(program, 8, 5, true).Ok? && |Regrouped(program, 8, 5, true).value| == 32
    ensures forall v | v in Regrouped(program, 8, 5, true).value :: v < 32
  {
    hide Stream, Groups, Rest, ValueOf;
    EightBits(program);
    var b := Stream(program, 8);
    StreamSize(program, 8);
    GroupsSize(b, 5);
    GroupsFit(b);
  }

  // ---------------------------------------------------------------------------------------------
  // Round trips
  // ---------------------------------------------------------------------------------------------

  /** What the decoder has to deliver for an address to come out, and nothing else. */
  lemma FromDecodedExactly(d: Decoded, a: Address)
    ensures FromDecoded(d) == Ok(a) <==> Valid(a) && d == Decoded(a.hrp, DataOf(a), BECH32_CONST)
  {
    hide Regrouped, KnownHrp;
    if FromDecoded(d) == Ok(a) {
      FivesRoundTrip(AsBytes(d.data[1..]));
      assert d.data == [d.data[0]] + d.data[1..];
    }
    if Valid(a) && d == Decoded(a.hrp, DataOf(a), BECH32_CONST) {
      BytesRoundTrip(a.program);
      assert d.data[1..] == Regrouped(a.program, 8, 5, true).value;
    }
  }

  /** s is a form of the address: its canonical form in one case, within 90 bytes. */
  predicate IsFormOf(s: string, a: Address) {
    Valid(a) && ToLower(s) == ToString(a) && (ToLower(s) == s || ToUpper(s) == s) && ByteLen(s) <= 90
  }

  lemma ToStringShape(a: Address) returns (tail: string)
    requires Valid(a)
    ensures ToString(a) == a.hrp + "1" + tail && |tail| == 39 && '1' !in tail
    ensures DecodedParts(a.hrp, tail) == Ok(Decoded(a.hrp, DataOf(a), BECH32_CONST))
  {
    hide CHARSET, ChecksumOf, DecodedParts, Chars, Expanded;
    KnownHrpFacts(a.hrp);
    var all := DataOf(a) + ChecksumOf(Expanded(a.hrp) + DataOf(a));
    tail := Chars(all);
    ValuesNoSeparator(all);
    DecodedPartsOfEncoded(a.hrp, DataOf(a));
  }

  /** Exactly the forms of an address are parsed as that address. */
  lemma ParsesExactly(s: string, a: Address)
    ensures ParseAddress(s) == Ok(a) <==> IsFormOf(TrimSpace(s), a)
  {
    hide DecodedOf, FromDecoded, DataOf, ToString, KnownHrp, ToLower, ToUpper, TrimSpace;
    var t := TrimSpace(s);
    if ParseAddress(s) == Ok(a) {
      var d := DecodedOf(t).value;
      FromDecodedExactly(d, a);
      EncodeInvertsDecode(t);
      ToStringIs(a);
      var hrp, tail := DecodedSplits(t);
    }
    if IsFormOf(t, a) {
      var tail := ToStringShape(a);
      KnownHrpFacts(a.hrp);
      DecodedOfSplit(t, a.hrp, tail);
      FromDecodedExactly(DecodedOf(t).value, a);
    }
  }

  /** The addresses that some text is parsed as are those of three networks, with programs of 20 bytes. */
  lemma NetworksExactly(a: Address)
    ensures (exists s :: ParseAddress(s) == Ok(a)) <==>
              (a.hrp == "bc" || a.hrp == "tb" || a.hrp == "bcrt") && |a.program| == 20
  {
    hide ParseAddress, ToString;
    forall s | ParseAddress(s) == Ok(a) ensures Valid(a) {
      ParsesExactly(s, a);
    }
    if Valid(a) {
      ParseOfToString(a);
    }
  }

  // The forms of an address written out. Apart from its own characters only the Kelvin sign is read
  // as one of them.

  const KELVIN := '\U{212A}'

  predicate UpperForm(s: string, t: string) {
    |s| == |t| && forall i | 0 <= i < |s| :: s[i] == UpperRune(t[i]) || (t[i] == 'k' && s[i] == KELVIN)
  }

  /** Exactly the canonical form and its upper case, with any k's replaced by Kelvin signs, are forms of an address. */
  lemma FormsExactly(s: string, a: Address)
    ensures IsFormOf(s, a) <==> Valid(a) && ByteLen(s) <= 90 && (s == ToString(a) || UpperForm(s, ToString(a)))
  {
    hide ToString, ByteLen, KnownHrp;
    if Valid(a) {
      ToStringCharacters(a);
      var t := ToString(a);
      if IsFormOf(s, a) && s != t {
        forall i | 0 <= i < |s| ensures s[i] == UpperRune(t[i]) || (t[i] == 'k' && s[i] == KELVIN) {
          assert t[i] == ToLower(s)[i] == LowerRune(s[i]) && s[i] == ToUpper(s)[i] == UpperRune(s[i]);
          assert t[i] in t;
        }
      }
      if UpperForm(s, t) {
        forall i | 0 <= i < |s| ensures LowerRune(s[i]) == t[i] && UpperRune(s[i]) == s[i] {
          assert t[i] in t;
        }
        assert ToLower(s) == t && ToUpper(s) == s;
      }
      assert ToLower(t) == t by {
        forall i | 0 <= i < |t| ensures LowerRune(t[i]) == t[i] { assert t[i] in t; }
      }
    }
  }

  lemma ToStringCharacters(a: Address)
    requires Valid(a)
    ensures |ToString(a)| <= 44
    ensures forall c | c in ToString(a) :: 33 <= c as int <= 126 && !('A' <= c <= 'Z') && c != 'i'
  {
    hide CHARSET, ChecksumOf, Expanded, Chars, KnownHrp;
    KnownHrpFacts(a.hrp);
    KnownHrpWithoutI(a.hrp);
    var all := DataOf(a) + ChecksumOf(Expanded(a.hrp) + DataOf(a));
    assert ToString(a) == a.hrp + "1" + Chars(all);
    CharsFacts(all);
    CharsWithoutI(all);
  }

  lemma KnownHrpWithoutI(hrp: string)
    requires KnownHrp(hrp)
    ensures 'i' !in hrp && forall c | c in hrp :: 'a' <= c <= 'z'
  {
  }

  lemma CharsWithoutI(data: seq<Five>)
    ensures 'i' !in Chars(data)
  {
    hide CHARSET;
    forall k | 0 <= k < |data| ensures Chars(data)[k] != 'i' {
      CharsetWithoutI(data[k]);
    }
  }

  lemma CharsetWithoutI(d: Five)
    ensures |CHARSET| == 32 && CHARSET[d] != 'i'
  {
  }

  /** Upper case with a Kelvin sign for a k is accepted as the address. */
  lemma KelvinParses(a: Address, i: nat)
    requires Valid(a) && i < |ToString(a)| && ToString(a)[i] == 'k'
    ensures ParseAddress(ToUpper(ToString(a))[i := KELVIN]) == Ok(a)
    ensures !IsAscii(TrimSpace(ToUpper(ToString(a))[i := KELVIN]))
  {
    hide *;
    var t := ToString(a);
    var s := ToUpper(t)[i := KELVIN];
    ToStringCharacters(a);
    KelvinText(t, i);
    FormsExactly(s, a);
    ParsesExactly(s, a);
  }

  /** That text is short, nothing is trimmed off it, and it is a form of the other. */
  lemma KelvinText(t: string, i: nat)
    requires i < |t| <= 44 && t[i] == 'k' && forall c | c in t :: 33 <= c as int <= 126 && !('A' <= c <= 'Z') && c != 'i'
    ensures var s := ToUpper(t)[i := KELVIN]; UpperForm(s, t) && TrimSpace(s) == s && !IsAscii(s) && ByteLen(s) <= 90
  {
    hide ByteLen, TrimSpace, UpperRune, IsSpace, IsAscii;
    UpperIsPlain(t);
    OneWideRune(ToUpper(t), i, KELVIN);
    KelvinAmong(ToUpper(t), i);
    TrimNothing(ToUpper(t)[i := KELVIN]);
  }

  lemma TrimNothing(s: string)
    requires s != "" && !IsSpace(s[0]) && !IsSpace(s[|s| - 1])
    ensures TrimSpace(s) == s
  {
    hide TrimSpace, IsSpace;
    TrimSpaceOf("", s, "");
    assert "" + s + "" == s;
  }

  lemma KelvinAmong(u: string, i: nat)
    requires i < |u| && forall c | c in u :: !IsSpace(c)
    ensures var s := u[i := KELVIN]; !IsAscii(s) && !IsSpace(s[0]) && !IsSpace(s[|s| - 1])
  {
    hide IsSpace;
    var s := u[i := KELVIN];
    KelvinIsNoSpace();
    assert s[i] == KELVIN && s[i] in s;
    assert u[0] in u && u[|u| - 1] in u;
  }

  lemma KelvinIsNoSpace()
    ensures !IsSpace(KELVIN)
  {
  }

  lemma UpperIsPlain(t: string)
    requires forall c | c in t :: 33 <= c as int <= 126
    ensures IsAscii(ToUpper(t)) && forall c | c in ToUpper(t) :: !IsSpace(c)
  {
    forall i | 0 <= i < |t| ensures 33 <= ToUpper(t)[i] as int <= 126 {
      assert t[i] in t;
    }
  }

  lemma OneWideRune(u: string, i: nat, c: char)
    requires IsAscii(u) && i < |u|
    ensures ByteLen(u[i := c]) <= |u| + 3
  {
    hide ByteLen;
    var left, right := u[..i], u[i + 1..];
    assert u[i := c] == left + ([c] + right);
    ByteLenAppend(left, [c] + right);
    ByteLenAppend([c], right);
    assert forall x | x in left || x in right :: x in u;
    AsciiByteLen(left);
    AsciiByteLen(right);
    OneRune(c);
  }

  lemma {:induction false} OneRune(c: char)
    ensures ByteLen([c]) == RuneLen(c)
  {
    assert [c][1..] == "";
  }

  /** Exactly the addresses with a k are read from a text that is not ASCII. */
  lemma KelvinExactly(a: Address)
    requires Valid(a)
    ensures (exists s :: ParseAddress(s) == Ok(a) && !IsAscii(TrimSpace(s))) <==> 'k' in ToString(a)
  {
    hide ToString, ByteLen, KnownHrp, ParseAddress, TrimSpace, ToUpper;
    var t := ToString(a);
    if s :| ParseAddress(s) == Ok(a) && !IsAscii(TrimSpace(s)) {
      ParsesExactly(s, a);
      FormsExactly(TrimSpace(s), a);
      NotAsciiForm(TrimSpace(s), a);
    }
    if 'k' in t {
      var i :| 0 <= i < |t| && t[i] == 'k';
      KelvinParses(a, i);
    }
  }

  lemma NotAsciiForm(s: string, a: Address)
    requires Valid(a) && !IsAscii(s) && (s == ToString(a) || UpperForm(s, ToString(a)))
    ensures 'k' in ToString(a)
  {
    hide ToString;
    ToStringCharacters(a);
    var c :| c in s && c as int >= 0x80;
    var i :| 0 <= i < |s| && s[i] == c;
    assert ToString(a)[i] in ToString(a);
  }

  lemma ToStringIs(a: Address)
    requires Valid(a)
    ensures IsAscii(a.hrp) && ToString(a) == EncodedOf(a.hrp, DataOf(a))
  {
    KnownHrpFacts(a.hrp);
  }

  /** The canonical form of an address is parsed as the address. */
  lemma ParseOfToString(a: Address)
    requires Valid(a)
    ensures ParseAddress(ToString(a)) == Ok(a)
  {
    hide DecodedOf, FromDecoded, DataOf, KnownHrp, ToLower, ToUpper, TrimSpace, ParseAddress, CHARSET, ToString;
    var s := ToString(a);
    KnownHrpFacts(a.hrp);
    ToStringIs(a);
    EncodedIsAscii(a.hrp, DataOf(a));
    AsciiByteLen(s);
    var tail := ToStringShape(a);
    EncodedHasNoSpace(a.hrp, DataOf(a));
    TrimSpaceOf("", s, "");
    assert "" + s + "" == s;
    var all := DataOf(a) + ChecksumOf(Expanded(a.hrp) + DataOf(a));
    CharsFacts(all);
    LowerOfEncoded(a.hrp, Chars(all));
    LowerUnchanged(a.hrp);
    ParsesExactly(s, a);
  }

  lemma EncodedHasNoSpace(hrp: string, data: seq<Five>)
    requires IsAscii(hrp) && Printable(hrp)
    ensures forall c | c in EncodedOf(hrp, data) :: !IsSpace(c)
  {
    hide CHARSET;
    CharsFacts(data + ChecksumOf(Expanded(hrp) + data));
  }

  /** Whatever is parsed as an address is its canonical form up to case and surrounding space. */
  lemma ToStringOfParse(s: string)
    requires ParseAddress(s).Ok?
    ensures Valid(ParseAddress(s).value) && ToString(ParseAddress(s).value) == ToLower(TrimSpace(s))
  {
    hide ParseAddress;
    ParsesExactly(s, ParseAddress(s).value);
  }

  // ---------------------------------------------------------------------------------------------
  // Error detection
  // ---------------------------------------------------------------------------------------------

  /** No address survives another charset character in one place after the separator. */
  lemma OneWrongCharacter(left: string, core: string, right: string, i: nat, c: char)
    requires forall x | x in left + right :: IsSpace(x)
    requires core != "" && !IsSpace(core[0]) && !IsSpace(core[|core| - 1])
    requires ParseAddress(left + core + right).Ok?
    requires LastIndexOf(ToLower(core), '1') < i < |core| && c in CHARSET && c != core[i]
    ensures ParseAddress(left + core[i := c] + right) == Err
  {
    hide CHARSET, DecodedOf, FromDecoded, ToLower, ToUpper, TrimSpace, IsSpace, LowerRune;
    TrimSpaceOf(left, core, right);
    CharsetNotSpace(c);
    var core' := core[i := c];
    TrimSpaceOf(left, core', right);
    var a := ParseAddress(left + core + right).value;
    if ParseAddress(left + core' + right).Ok? {
      var a' := ParseAddress(left + core' + right).value;
      ParsesExactly(left + core + right, a);
      ParsesExactly(left + core' + right, a');
      FromDecodedExactly(DecodedOf(core).value, a);
      FromDecodedExactly(DecodedOf(core').value, a');
      if c != LowerRune(core[i]) {
        OneCharacterOff(core, i, c);
      } else {
        MixedCase(core, a, i, c);
      }
      assert false;
    }
  }

  lemma CharsetNotSpace(c: char)
    requires c in CHARSET
    ensures !IsSpace(c)
  {
    hide CHARSET;
    var d :| 0 <= d < |CHARSET| && CHARSET[d] == c;
    CharsetSize();
    CharFacts(d);
  }

  /** Lower-casing one character of an upper-case address mixes the cases. */
  lemma {:induction false} MixedCase(core: string, a: Address, i: nat, c: char)
    requires IsFormOf(core, a) && LastIndexOf(ToLower(core), '1') < i < |core|
    requires c == LowerRune(core[i]) != core[i]
    ensures ToLower(core[i := c]) != core[i := c] && ToUpper(core[i := c]) != core[i := c]
  {
    hide ToString, DataOf, ByteLen, LastIndexOf, ToLower, ToUpper;
    var tail := ToStringShape(a);
    assert ToLower(core)[i] != core[i];
    assert ToUpper(core) == core;
    assert ToLower(core)[0] == a.hrp[0];
    LastSeparator(a.hrp, tail);
    assert ToLower(core[i := c])[0] == LowerRune(core[0]) && ToUpper(core)[0] == UpperRune(core[0]);
    assert ToUpper(core[i := c])[i] == UpperRune(c);
  }
}
