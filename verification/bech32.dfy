// Bech32 strings (BIP 173, section "Bech32"): bech32HRPExpand, bech32Decode and bech32Encode in
// internal/bip322/bech32.go.
module Bech32 {
  import opened Text
  import opened Bech32Checksum

  const CHARSET: string := "qpzry9x8gf2tvdw0s3jn54khce6mua7l"

  datatype Decoded = Decoded(hrp: string, data: seq<Five>, constant: Uint32)

  /** strings.IndexRune: -1 when c does not occur. */
  function IndexRune(s: string, c: char): (i: int)
    ensures -1 <= i < |s|
    ensures i >= 0 ==> s[i] == c
    ensures i < 0 ==> c !in s
  {
    var i := IndexOf(s, c);
    assert s[..|s|] == s;
    if i < |s| then i else -1
  }

  /** strings.LastIndexByte for an ASCII character. */
  function LastIndexOf(s: string, c: char): (i: int)
    ensures -1 <= i < |s|
    ensures i >= 0 ==> s[i] == c && c !in s[i + 1..]
    ensures i < 0 ==> c !in s
  {
    if s == "" then -1
    else if s[|s| - 1] == c then |s| - 1
    else
      var i := LastIndexOf(s[..|s| - 1], c);
      assert i >= 0 ==> s[i + 1..] == s[..|s| - 1][i + 1..] + [s[|s| - 1]];
      assert s == s[..|s| - 1] + [s[|s| - 1]];
      i
  }

  /** The 5-bit values of a string of charset characters. */
  function Values(t: string): Option<seq<Five>> {
    if t == "" then Some([])
    else
      var v := IndexRune(CHARSET, t[0]);
      if v < 0 then None
      else match Values(t[1..])
        case None => None
        case Some(rest) => CharsetSize(); Some([v] + rest)
  }

  lemma CharsetSize()
    ensures |CHARSET| == 32
  {
  }

  function Chars(data: seq<Five>): (t: string)
    ensures |t| == |data|
  {
    CharsetSize();
    seq(|data|, i requires 0 <= i < |data| => CHARSET[data[i]])
  }

  function Expanded(hrp: string): seq<Five>
    requires IsAscii(hrp)
  {
    seq(|hrp|, i requires 0 <= i < |hrp| => High(hrp, i)) + [0] + seq(|hrp|, i requires 0 <= i < |hrp| => Low(hrp, i))
  }

  function High(hrp: string, i: nat): Five
    requires IsAscii(hrp) && i < |hrp|
  {
    assert hrp[i] in hrp;
    hrp[i] as int / 32
  }

  function Low(hrp: string, i: nat): Five
    requires i < |hrp|
  {
    hrp[i] as int % 32
  }

  predicate Printable(hrp: string) {
    forall c | c in hrp :: 33 <= c as int <= 126
  }

  /** The part of the decoder that follows the split at the last separator. */
  function DecodedParts(hrp: string, tail: string): Result<Decoded>
    requires |tail| >= 6
  {
    if !Printable(hrp) then Err
    else match Values(tail)
      case None => Err
      case Some(data) =>
        ValuesChars(tail);
        var constant := PolymodOf(Expanded(hrp) + data);
        if constant != BECH32_CONST && constant != BECH32M_CONST then Err
        else Ok(Decoded(hrp, data[..|data| - 6], constant))
  }

  function DecodedOf(s: string): Result<Decoded> {
    if ByteLen(s) > 90 then Err
    else if ToLower(s) != s && ToUpper(s) != s then Err
    else
      var t := ToLower(s);
      var sep := LastIndexOf(t, '1');
      if sep < 1 || sep + 7 > |t| then Err else DecodedParts(t[..sep], t[sep + 1..])
  }

  function EncodedOf(hrp: string, data: seq<Five>): string
    requires IsAscii(hrp)
  {
    hrp + "1" + Chars(data + ChecksumOf(Expanded(hrp) + data))
  }

  // ---------------------------------------------------------------------------------------------
  // The loops
  // ---------------------------------------------------------------------------------------------

  method HrpExpand(hrp: string) returns (out: seq<Five>)
    requires IsAscii(hrp)
    ensures out == Expanded(hrp)
  {
    out := [];
    for i := 0 to |hrp|
      invariant |out| == i && forall k | 0 <= k < i :: out[k] == High(hrp, k)
    {
      out := out + [High(hrp, i)];
    }
    out := out + [0];
    for i := 0 to |hrp|
      invariant |out| == |hrp| + 1 + i
      invariant out[..|hrp| + 1] == Expanded(hrp)[..|hrp| + 1]
      invariant forall k | 0 <= k < i :: out[|hrp| + 1 + k] == Low(hrp, k)
    {
      out := out + [Low(hrp, i)];
    }
  }

  /** The loop over the human-readable part. */
  method CheckPrintable(hrp: string) returns (ok: bool)
    ensures ok == Printable(hrp)
  {
    for i := 0 to |hrp|
      invariant forall k | 0 <= k < i :: 33 <= hrp[k] as int <= 126
    {
      if (hrp[i] as int) < 33 || hrp[i] as int > 126 {
        assert hrp[i] in hrp;
        return false;
      }
    }
    return true;
  }

  /** The loop over the data part. */
  method ReadValues(tail: string) returns (r: Option<seq<Five>>)
    ensures r == Values(tail)
  {
    hide CHARSET;
    var data: seq<Five> := [];
    assert tail[0..] == tail && forall rest: seq<Five> :: data + rest == rest;
    for i := 0 to |tail|
      invariant |data| == i
      invariant Values(tail) == (match Values(tail[i..]) case None => None case Some(rest) => Some(data + rest))
    {
      CharsetSize();
      var v := IndexRune(CHARSET, tail[i]);
      assert tail[i..][1..] == tail[i + 1..];
      if v < 0 {
        return None;
      }
      ghost var rest := Values(tail[i + 1..]);
      assert rest.Some? ==> data + ([v] + rest.value) == (data + [v]) + rest.value;
      data := data + [v];
    }
    assert tail[|tail|..] == "" && data + [] == data;
    return Some(data);
  }

  method Bech32Decode(s: string) returns (r: Result<Decoded>)
    ensures r == DecodedOf(s)
  {
    hide CHARSET, PolymodOf, Expanded, Values, ByteLen, LastIndexOf;
    if ByteLen(s) > 90 {
      return Err;
    }
    if ToLower(s) != s && ToUpper(s) != s {
      return Err;
    }
    var t := ToLower(s);
    var sep := LastIndexOf(t, '1');
    if sep < 1 || sep + 7 > |t| {
      return Err;
    }
    var hrp := t[..sep];
    var printable := CheckPrintable(hrp);
    if !printable {
      return Err;
    }
    var values := ReadValues(t[sep + 1..]);
    if values == None {
      return Err;
    }
    var data := values.value;
    ValuesChars(t[sep + 1..]);
    var expanded := HrpExpand(hrp);
    var constant := Polymod(expanded + data);
    if constant != BECH32_CONST && constant != BECH32M_CONST {
      return Err;
    }
    return Ok(Decoded(hrp, data[..|data| - 6], constant));
  }

  /** The loop over the data. */
  method WriteChars(b: string, data: seq<Five>) returns (s: string)
    ensures s == b + Chars(data)
  {
    hide CHARSET;
    CharsetSize();
    s := b;
    for i := 0 to |data|
      invariant s == b + Chars(data)[..i]
    {
      s := s + [CHARSET[data[i]]];
      assert Chars(data)[..i + 1] == Chars(data)[..i] + [Chars(data)[i]];
    }
    assert Chars(data)[..|data|] == Chars(data);
  }

  method Bech32Encode(hrp: string, data: seq<Five>) returns (s: string)
    requires IsAscii(hrp)
    ensures s == EncodedOf(hrp, data)
  {
    hide CHARSET, Xor, Low5, Shift, Expanded, Digits, PolymodOf;
    var values := HrpExpand(hrp);
    values := values + data;
    var mod := Polymod(values + Zeros(6));
    mod := Xor(mod, BECH32_CONST);
    s := hrp + "1";
    s := WriteChars(s, data);
    ghost var cs := ChecksumOf(values);
    ghost var before := s;
    CharsetSize();
    for i := 0 to 6
      invariant s == before + Chars(cs)[..i]
    {
      DigitAt(mod, i);
      s := s + [CHARSET[Low5(Shift(mod, i))]];
      assert Chars(cs)[..i + 1] == Chars(cs)[..i] + [Chars(cs)[i]];
    }
    assert Chars(data + cs) == Chars(data) + Chars(cs);
  }

  // ---------------------------------------------------------------------------------------------
  // Charset
  // ---------------------------------------------------------------------------------------------

  /** The inverse of CHARSET. */
  function Rank(c: char): int {
    match c
    case 'q' => 0 case 'p' => 1 case 'z' => 2 case 'r' => 3 case 'y' => 4 case '9' => 5 case 'x' => 6 case '8' => 7
    case 'g' => 8 case 'f' => 9 case '2' => 10 case 't' => 11 case 'v' => 12 case 'd' => 13 case 'w' => 14 case '0' => 15
    case 's' => 16 case '3' => 17 case 'j' => 18 case 'n' => 19 case '5' => 20 case '4' => 21 case 'k' => 22 case 'h' => 23
    case 'c' => 24 case 'e' => 25 case '6' => 26 case 'm' => 27 case 'u' => 28 case 'a' => 29 case '7' => 30 case 'l' => 31
    case _ => -1
  }

  lemma RankOfChar(d: Five)
    ensures |CHARSET| == 32 && Rank(CHARSET[d]) == d
  {
  }

  lemma CharFacts(d: Five)
    ensures |CHARSET| == 32
    ensures var c := CHARSET[d]; c != '1' && !('A' <= c <= 'Z') && 33 <= c as int <= 126
  {
  }

  lemma IndexOfChar(d: Five)
    ensures |CHARSET| == 32 && IndexRune(CHARSET, CHARSET[d]) == d
  {
    hide CHARSET, Rank;
    RankOfChar(d);
    assert CHARSET[d] in CHARSET;
    var i := IndexRune(CHARSET, CHARSET[d]);
    RankOfChar(i);
  }

  lemma {:induction false} ValuesOfChars(data: seq<Five>)
    ensures Values(Chars(data)) == Some(data)
    decreases |data|
  {
    hide CHARSET;
    if data != [] {
      IndexOfChar(data[0]);
      assert Chars(data)[1..] == Chars(data[1..]);
      assert [data[0]] + data[1..] == data;
      ValuesOfChars(data[1..]);
    }
  }

  lemma {:induction false} ValuesChars(t: string)
    ensures Values(t).Some? ==> |Values(t).value| == |t| && Chars(Values(t).value) == t
  {
    hide CHARSET;
    CharsetSize();
    if t != "" {
      ValuesChars(t[1..]);
    }
  }

  lemma DigitAt(mod: Uint32, i: nat)
    requires i < 6
    ensures Digits(mod)[i] == Low5(Shift(mod, i))
  {
    hide Low5, Shift;
  }

  // ---------------------------------------------------------------------------------------------
  // Round trips
  // ---------------------------------------------------------------------------------------------

  predicate HasUpper(s: string) {
    exists c | c in s :: 'A' <= c <= 'Z'
  }

  /** What a human-readable part and data must satisfy to survive a round trip. */
  predicate Encodable(hrp: string, data: seq<Five>) {
    hrp != "" && Printable(hrp) && !HasUpper(hrp) && |hrp| + |data| + 7 <= 90
  }

  lemma CharsFacts(data: seq<Five>)
    ensures forall c | c in Chars(data) :: c != '1' && !('A' <= c <= 'Z') && 33 <= c as int <= 126
  {
    hide CHARSET;
    forall c | c in Chars(data) ensures c != '1' && !('A' <= c <= 'Z') && 33 <= c as int <= 126 {
      var i :| 0 <= i < |data| && Chars(data)[i] == c;
      CharFacts(data[i]);
    }
  }

  lemma {:induction false} LastSeparator(hrp: string, tail: string)
    requires '1' !in tail
    ensures LastIndexOf(hrp + "1" + tail, '1') == |hrp|
    decreases |tail|
  {
    var s := hrp + "1" + tail;
    if tail != "" {
      var n := |tail| - 1;
      assert s[..|s| - 1] == hrp + "1" + tail[..n];
      assert s[|s| - 1] == tail[n];
      LastSeparator(hrp, tail[..n]);
    }
  }

  lemma SplitBack(hrp: string, tail: string)
    ensures var t := hrp + "1" + tail; t[..|hrp|] == hrp && t[|hrp| + 1..] == tail && |t| == |hrp| + 1 + |tail|
  {
  }

  /** How the decoder splits a string that it takes apart at all. */
  lemma DecodedOfSplit(s: string, hrp: string, tail: string)
    requires ByteLen(s) <= 90 && (ToLower(s) == s || ToUpper(s) == s)
    requires ToLower(s) == hrp + "1" + tail && hrp != "" && '1' !in tail && |tail| >= 6
    ensures DecodedOf(s) == DecodedParts(hrp, tail)
  {
    hide *;
    LastSeparator(hrp, tail);
    SplitBack(hrp, tail);
    DecodedOfIs(s);
  }

  lemma DecodedOfIs(s: string)
    ensures DecodedOf(s) ==
      if ByteLen(s) > 90 then Err
      else if ToLower(s) != s && ToUpper(s) != s then Err
      else
        var t := ToLower(s);
        var sep := LastIndexOf(t, '1');
        if sep < 1 || sep + 7 > |t| then Err else DecodedParts(t[..sep], t[sep + 1..])
  {
    hide CHARSET, DecodedParts, ByteLen, LastIndexOf;
  }

  lemma DecodedSplits(s: string) returns (hrp: string, tail: string)
    requires DecodedOf(s).Ok?
    ensures ByteLen(s) <= 90 && (ToLower(s) == s || ToUpper(s) == s)
    ensures ToLower(s) == hrp + "1" + tail && hrp != "" && '1' !in tail && |tail| >= 6
    ensures DecodedOf(s) == DecodedParts(hrp, tail)
    ensures LastIndexOf(ToLower(s), '1') == |hrp|
  {
    hide DecodedParts;
    var t := ToLower(s);
    var sep := LastIndexOf(t, '1');
    hrp, tail := t[..sep], t[sep + 1..];
    assert t == hrp + "1" + tail;
  }

  lemma ValuesNoSeparator(data: seq<Five>)
    ensures '1' !in Chars(data)
  {
    CharsFacts(data);
  }

  lemma LowerOfEncoded(hrp: string, tail: string)
    requires forall c | c in tail :: !('A' <= c <= 'Z') && c as int <= 126
    ensures ToLower(hrp + "1" + tail) == ToLower(hrp) + "1" + tail
  {
    var s := hrp + "1" + tail;
    forall i | 0 <= i < |s| ensures ToLower(s)[i] == (ToLower(hrp) + "1" + tail)[i] {
      if i > |hrp| {
        assert s[i] == tail[i - |hrp| - 1] && tail[i - |hrp| - 1] in tail;
      }
    }
  }

  lemma LowerUnchanged(hrp: string)
    requires IsAscii(hrp)
    ensures ToLower(hrp) == hrp <==> !HasUpper(hrp)
  {
    if HasUpper(hrp) {
      var c :| c in hrp && 'A' <= c <= 'Z';
      var i :| 0 <= i < |hrp| && hrp[i] == c;
      assert ToLower(hrp)[i] != hrp[i];
    } else {
      forall i | 0 <= i < |hrp| ensures ToLower(hrp)[i] == hrp[i] { assert hrp[i] in hrp; }
    }
  }

  lemma EncodedIsAscii(hrp: string, data: seq<Five>)
    requires IsAscii(hrp)
    ensures IsAscii(EncodedOf(hrp, data)) && |EncodedOf(hrp, data)| == |hrp| + |data| + 7
  {
    hide CHARSET;
    CharsFacts(data + ChecksumOf(Expanded(hrp) + data));
  }

  /** What the decoder makes of the parts of an encoded string. */
  lemma DecodedPartsOfEncoded(hrp: string, data: seq<Five>)
    requires IsAscii(hrp)
    ensures var tail := Chars(data + ChecksumOf(Expanded(hrp) + data));
            DecodedParts(hrp, tail) == if Printable(hrp) then Ok(Decoded(hrp, data, BECH32_CONST)) else Err
  {
    hide CHARSET, ChecksumOf, PolymodOf, Expanded, Values, Chars;
    var values := Expanded(hrp) + data;
    var cs := ChecksumOf(values);
    ValuesOfChars(data + cs);
    ChecksumIsUnique(values, cs);
    assert Expanded(hrp) + (data + cs) == values + cs;
    assert (data + cs)[..|data + cs| - 6] == data;
  }

  lemma DecodedOfEncoded(hrp: string, data: seq<Five>)
    requires Encodable(hrp, data)
    ensures DecodedOf(EncodedOf(hrp, data)) == Ok(Decoded(hrp, data, BECH32_CONST))
  {
    hide CHARSET, ChecksumOf, DecodedParts, Chars, DecodedOf;
    var all := data + ChecksumOf(Expanded(hrp) + data);
    CharsFacts(all);
    EncodedIsAscii(hrp, data);
    AsciiByteLen(EncodedOf(hrp, data));
    LowerOfEncoded(hrp, Chars(all));
    LowerUnchanged(hrp);
    DecodedOfSplit(EncodedOf(hrp, data), hrp, Chars(all));
    DecodedPartsOfEncoded(hrp, data);
  }

  /** Decoding inverts encoding exactly for the parts that are Encodable. */
  lemma DecodeInvertsEncode(hrp: string, data: seq<Five>)
    requires IsAscii(hrp)
    ensures DecodedOf(EncodedOf(hrp, data)) == Ok(Decoded(hrp, data, BECH32_CONST)) <==> Encodable(hrp, data)
  {
    hide *;
    if Encodable(hrp, data) {
      DecodedOfEncoded(hrp, data);
    }
    if DecodedOf(EncodedOf(hrp, data)) == Ok(Decoded(hrp, data, BECH32_CONST)) {
      OnlyEncodableSurvives(hrp, data);
    }
  }

  lemma OnlyEncodableSurvives(hrp: string, data: seq<Five>)
    requires IsAscii(hrp)
    requires DecodedOf(EncodedOf(hrp, data)) == Ok(Decoded(hrp, data, BECH32_CONST))
    ensures Encodable(hrp, data)
  {
    hide CHARSET, ChecksumOf, Chars, DecodedOf, Expanded, PolymodOf, ToLower, ToUpper, DecodedParts, HasUpper, Printable;
    var s := EncodedOf(hrp, data);
    var all := data + ChecksumOf(Expanded(hrp) + data);
    var h, tail := DecodedSplits(s);
    PartsKeepHrp(h, tail);
    CharsFacts(all);
    EncodedIsAscii(hrp, data);
    AsciiByteLen(s);
    LowerOfEncoded(hrp, Chars(all));
    LastSeparator(ToLower(hrp), Chars(all));
    SplitBack(ToLower(hrp), Chars(all));
    SplitBack(h, tail);
    LowerUnchanged(hrp);
  }

  lemma PartsKeepHrp(hrp: string, tail: string)
    requires |tail| >= 6 && DecodedParts(hrp, tail).Ok?
    ensures DecodedParts(hrp, tail).value.hrp == hrp && Printable(hrp) && IsAscii(hrp)
  {
    hide CHARSET, PolymodOf, Values, Expanded;
  }

  lemma PartsEncode(hrp: string, tail: string)
    requires |tail| >= 6 && DecodedParts(hrp, tail).Ok? && DecodedParts(hrp, tail).value.constant == BECH32_CONST
    ensures var d := DecodedParts(hrp, tail).value; IsAscii(d.hrp) && EncodedOf(d.hrp, d.data) == hrp + "1" + tail
  {
    hide CHARSET, ChecksumOf, PolymodOf, Chars, Values, Expanded;
    var d := DecodedParts(hrp, tail).value;
    ValuesChars(tail);
    var all := Values(tail).value;
    var cs := all[|all| - 6..];
    assert all == d.data + cs;
    assert Expanded(hrp) + all == (Expanded(hrp) + d.data) + cs;
    ChecksumIsUnique(Expanded(hrp) + d.data, cs);
  }

  /** A string the decoder accepts with the bech32 constant is, lower-cased, an encoded string. */
  lemma EncodeInvertsDecode(s: string)
    requires DecodedOf(s).Ok? && DecodedOf(s).value.constant == BECH32_CONST
    ensures var d := DecodedOf(s).value; IsAscii(d.hrp) && EncodedOf(d.hrp, d.data) == ToLower(s)
  {
    hide *;
    var hrp, tail := DecodedSplits(s);
    PartsEncode(hrp, tail);
  }

  /** Replacing one data character by a character of another value changes the checksum constant. */
  lemma OneCharacterOff(s: string, i: nat, c: char)
    requires DecodedOf(s).Ok? && LastIndexOf(ToLower(s), '1') < i < |s|
    requires c in CHARSET && c != LowerRune(s[i])
    ensures var r := DecodedOf(s[i := c]);
            r.Ok? ==> r.value.constant != DecodedOf(s).value.constant && r.value.hrp == DecodedOf(s).value.hrp
  {
    hide *;
    var s' := s[i := c];
    if DecodedOf(s').Ok? {
      CharsetIsLower(c);
      var hrp, tail := DecodedSplits(s);
      var hrp', tail' := DecodedSplits(s');
      var k := i - |hrp| - 1;
      LowerUpdates(s, i, c);
      SplitBack(hrp, tail);
      SameSplit(hrp, tail, hrp', tail', k, c);
      PartsOneOff(hrp, tail, k, c);
    }
  }

  lemma LowerUpdates(s: string, i: nat, c: char)
    requires i < |s|
    ensures ToLower(s[i := c]) == ToLower(s)[i := LowerRune(c)]
    ensures ToLower(s)[i] == LowerRune(s[i])
  {
  }

  lemma SameSplit(hrp: string, tail: string, hrp': string, tail': string, k: nat, c: char)
    requires '1' !in tail && '1' !in tail' && c != '1' && k < |tail|
    requires hrp' + "1" + tail' == (hrp + "1" + tail)[|hrp| + 1 + k := c]
    ensures hrp' == hrp && tail' == tail[k := c]
  {
    hide *;
    assert (hrp + "1" + tail)[|hrp| + 1 + k := c] == hrp + "1" + tail[k := c];
    LastSeparator(hrp, tail[k := c]);
    LastSeparator(hrp', tail');
    SplitBack(hrp, tail[k := c]);
    SplitBack(hrp', tail');
  }

  lemma PartsOneOff(hrp: string, tail: string, k: nat, c: char)
    requires |tail| >= 6 && k < |tail| && c != tail[k]
    requires DecodedParts(hrp, tail).Ok? && DecodedParts(hrp, tail[k := c]).Ok?
    ensures DecodedParts(hrp, tail).value.hrp == DecodedParts(hrp, tail[k := c]).value.hrp
    ensures DecodedParts(hrp, tail).value.constant != DecodedParts(hrp, tail[k := c]).value.constant
  {
    hide CHARSET, PolymodOf, Chars, Values, Expanded;
    ValuesChars(tail);
    ValuesChars(tail[k := c]);
    OneValueOff(Expanded(hrp), Values(tail).value, Values(tail[k := c]).value, k);
  }

  lemma OneValueOff(expanded: seq<Five>, all: seq<Five>, all': seq<Five>, k: nat)
    requires |all| == |all'| && k < |all| && Chars(all') == Chars(all)[k := Chars(all')[k]] && Chars(all) != Chars(all')
    ensures PolymodOf(expanded + all) != PolymodOf(expanded + all')
  {
    hide CHARSET, PolymodOf, Chars;
    SameValues(all, all', k);
    OneChangeChangesPolymod(expanded + all[..k], all[k], all'[k], all[k + 1..]);
    assert expanded + all == expanded + all[..k] + [all[k]] + all[k + 1..];
    assert expanded + all' == expanded + all[..k] + [all'[k]] + all[k + 1..];
  }

  lemma CharsetIsLower(c: char)
    requires c in CHARSET
    ensures c != '1' && LowerRune(c) == c
  {
    hide CHARSET;
    var d :| 0 <= d < |CHARSET| && CHARSET[d] == c;
    CharsetSize();
    CharFacts(d);
  }

  /** Strings that differ at k only have values that differ at k only. */
  lemma SameValues(all: seq<Five>, all': seq<Five>, k: nat)
    requires |all| == |all'| && k < |all| && Chars(all)[k] != Chars(all')[k]
    requires forall j | 0 <= j < |all| && j != k :: Chars(all)[j] == Chars(all')[j]
    ensures all[k] != all'[k] && all' == all[..k] + [all'[k]] + all[k + 1..]
  {
    hide CHARSET, Rank;
    CharsetSize();
    forall j | 0 <= j < |all| && j != k ensures all[j] == all'[j] {
      assert Chars(all)[j] == Chars(all')[j];
      RankOfChar(all[j]);
      RankOfChar(all'[j]);
    }
  }
}
