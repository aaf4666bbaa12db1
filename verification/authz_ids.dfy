// Object ids of the authorization engine: escapeID in internal/authz/authz.go and backendAccessID in
// internal/authz/kits.go. Names are sequences of code points.
module AuthzIds {
  import opened Text

  const HEX: string := "0123456789ABCDEF"

  /** The UTF-8 encoding of one code point. */
  function Utf8(c: char): (b: seq<nat>)
    ensures 1 <= |b| <= 4 && forall i | 0 <= i < |b| :: b[i] < 256
    ensures |b| == RuneLen(c)
  {
    var n := c as int;
    if n < 0x80 then [n]
    else if n < 0x800 then [0xC0 + n / 64, 0x80 + n % 64]
    else if n < 0x10000 then [0xE0 + n / 64 / 64, 0x80 + n / 64 % 64, 0x80 + n % 64]
    else [0xF0 + n / 64 / 64 / 64, 0x80 + n / 64 / 64 % 64, 0x80 + n / 64 % 64, 0x80 + n % 64]
  }

  predicate Special(c: char) {
    c == '%' || c == ':' || c == '#' || c == '*' || IsSpace(c) || IsControl(c)
  }

  function PercentByte(b: nat): string
    requires b < 256
  {
    ['%', HEX[b / 16], HEX[b % 16]]
  }

  function PercentBytes(b: seq<nat>): string
    requires forall i | 0 <= i < |b| :: b[i] < 256
  {
    if b == [] then "" else PercentByte(b[0]) + PercentBytes(b[1..])
  }

  function EscapeRune(c: char): string {
    if Special(c) then PercentBytes(Utf8(c)) else [c]
  }

  function EscapeID(s: string): string {
    if s == "" then "" else EscapeRune(s[0]) + EscapeID(s[1..])
  }

  /** The loop of escapeID over the code points. */
  method Escape(s: string) returns (b: string)
    ensures b == EscapeID(s)
  {
    hide EscapeRune;
    b := "";
    for i := 0 to |s|
      invariant b == EscapeID(s[..i])
    {
      EscapeAppend(s[..i], s[i]);
      assert s[..i + 1] == s[..i] + [s[i]];
      b := WriteRune(b, s[i]);
    }
    assert s[..|s|] == s;
  }

  lemma {:induction false} EscapeAppend(s: string, c: char)
    ensures EscapeID(s + [c]) == EscapeID(s) + EscapeRune(c)
  {
    hide EscapeRune;
    if s == "" {
      assert "" + [c] == [c] && [c][1..] == "";
    } else {
      assert (s + [c])[1..] == s[1..] + [c];
      EscapeAppend(s[1..], c);
    }
  }

  /** The loop over the bytes of a code point that is encoded. */
  method WriteRune(b: string, c: char) returns (out: string)
    ensures out == b + EscapeRune(c)
  {
    hide Special, Utf8, PercentByte;
    out := b;
    if Special(c) {
      var bytes := Utf8(c);
      for j := 0 to |bytes|
        invariant out + PercentBytes(bytes[j..]) == b + PercentBytes(bytes)
      {
        assert bytes[j..][1..] == bytes[j + 1..];
        ghost var before := out;
        out := out + PercentByte(bytes[j]);
        assert before + (PercentByte(bytes[j]) + PercentBytes(bytes[j + 1..])) == out + PercentBytes(bytes[j + 1..]);
      }
      assert bytes[|bytes|..] == [] && out + "" == out;
    } else {
      out := out + [c];
    }
  }

  // ---------------------------------------------------------------------------------------------
  // Distinct names, distinct ids
  // ---------------------------------------------------------------------------------------------

  lemma HexDigits(i: nat, j: nat)
    requires i < 16 && j < 16
    ensures |HEX| == 16
    ensures HEX[i] == HEX[j] <==> i == j
    ensures HEX[i] != ':' && HEX[i] != '#' && HEX[i] != '*' && HEX[i] != '%'
  {
  }

  lemma PercentByteInjective(a: nat, b: nat)
    requires a < 256 && b < 256 && PercentByte(a) == PercentByte(b)
    ensures a == b
  {
    hide HEX;
    HexDigits(a / 16, b / 16);
    HexDigits(a % 16, b % 16);
    assert PercentByte(a)[1] == HEX[a / 16] && PercentByte(b)[1] == HEX[b / 16];
    assert PercentByte(a)[2] == HEX[a % 16] && PercentByte(b)[2] == HEX[b % 16];
  }

  lemma {:induction false} PercentBytesSize(b: seq<nat>)
    requires forall i | 0 <= i < |b| :: b[i] < 256
    ensures |PercentBytes(b)| == 3 * |b|
  {
    if b != [] {
      PercentBytesSize(b[1..]);
    }
  }

  /** Encoded bytes can be read off any text that starts with them. */
  lemma {:induction false} PercentBytesPrefix(a: seq<nat>, x: string, b: seq<nat>, y: string)
    requires forall i | 0 <= i < |a| :: a[i] < 256
    requires forall i | 0 <= i < |b| :: b[i] < 256
    requires |a| == |b| && PercentBytes(a) + x == PercentBytes(b) + y
    ensures a == b && x == y
  {
    hide PercentByte;
    if a == [] {
      assert "" + x == x && "" + y == y;
    } else {
      PercentByteShape(a[0]);
      PercentByteShape(b[0]);
      assert PercentBytes(a) + x == PercentByte(a[0]) + (PercentBytes(a[1..]) + x);
      assert PercentBytes(b) + y == PercentByte(b[0]) + (PercentBytes(b[1..]) + y);
      PrefixSplits(PercentByte(a[0]), PercentBytes(a[1..]) + x, PercentByte(b[0]), PercentBytes(b[1..]) + y);
      PercentByteInjective(a[0], b[0]);
      PercentBytesPrefix(a[1..], x, b[1..], y);
      assert a == [a[0]] + a[1..] && b == [b[0]] + b[1..];
    }
  }

  lemma PercentByteShape(b: nat)
    requires b < 256
    ensures |PercentByte(b)| == 3 && PercentByte(b)[0] == '%'
  {
  }

  /** The first byte of a code point tells how many there are. */
  lemma LeadByte(c: char, d: char)
    requires Utf8(c)[0] == Utf8(d)[0]
    ensures |Utf8(c)| == |Utf8(d)|
  {
  }

  lemma Utf8Injective(c: char, d: char)
    requires Utf8(c) == Utf8(d)
    ensures c == d
  {
    LeadByte(c, d);
    var m, n := c as int, d as int;
    var a, b := Utf8(c), Utf8(d);
    assert forall i | 0 <= i < |a| :: a[i] == b[i];
    if |a| == 4 {
      Digits64(m / 64 / 64, n / 64 / 64);
    }
    if |a| >= 3 {
      Digits64(m / 64, n / 64);
    }
    if |a| >= 2 {
      Digits64(m, n);
    }
  }

  lemma Digits64(m: nat, n: nat)
    requires m / 64 == n / 64 && m % 64 == n % 64
    ensures m == n
  {
  }

  lemma FirstByte(b: seq<nat>, x: string)
    requires b != [] && forall i | 0 <= i < |b| :: b[i] < 256
    ensures |PercentBytes(b) + x| >= 3 && (PercentBytes(b) + x)[..3] == PercentByte(b[0])
  {
    hide PercentByte;
    PercentByteShape(b[0]);
    assert PercentBytes(b) + x == PercentByte(b[0]) + (PercentBytes(b[1..]) + x);
  }

  /** One escaped code point can be read off any text that starts with it. */
  lemma EscapeRunePrefix(c: char, x: string, d: char, y: string)
    requires EscapeRune(c) + x == EscapeRune(d) + y
    ensures c == d && x == y
  {
    hide Utf8, PercentBytes, PercentByte, IsSpace, IsControl;
    if Special(c) {
      FirstByte(Utf8(c), x);
      PercentByteShape(Utf8(c)[0]);
    }
    if Special(d) {
      FirstByte(Utf8(d), y);
      PercentByteShape(Utf8(d)[0]);
    }
    assert (EscapeRune(c) + x)[0] == (EscapeRune(d) + y)[0];
    if Special(c) && Special(d) {
      PercentByteInjective(Utf8(c)[0], Utf8(d)[0]);
      LeadByte(c, d);
      PercentBytesPrefix(Utf8(c), x, Utf8(d), y);
      Utf8Injective(c, d);
    } else {
      assert (EscapeRune(c) + x)[0] == if Special(c) then '%' else c;
      assert (EscapeRune(d) + y)[0] == if Special(d) then '%' else d;
      PrefixSplits([c], x, [d], y);
    }
  }

  lemma EscapeRuneNotEmpty(c: char)
    ensures EscapeRune(c) != ""
  {
    hide Utf8, PercentBytes, PercentByte, IsSpace, IsControl;
    if Special(c) {
      FirstByte(Utf8(c), "");
      assert PercentBytes(Utf8(c)) + "" == PercentBytes(Utf8(c));
    }
  }

  /** Distinct names have distinct ids. */
  lemma {:induction false} EscapeInjective(s: string, t: string)
    requires EscapeID(s) == EscapeID(t)
    ensures s == t
  {
    hide EscapeRune;
    if s == "" || t == "" {
      if s != "" { EscapeRuneNotEmpty(s[0]); }
      if t != "" { EscapeRuneNotEmpty(t[0]); }
    } else {
      EscapeRunePrefix(s[0], EscapeID(s[1..]), t[0], EscapeID(t[1..]));
      EscapeInjective(s[1..], t[1..]);
      assert s == [s[0]] + s[1..] && t == [t[0]] + t[1..];
    }
  }

  predicate Plain(s: string) {
    forall c | c in s :: c != ':' && c != '#' && c != '*'
  }

  lemma {:induction false} PercentBytesPlain(b: seq<nat>)
    requires forall i | 0 <= i < |b| :: b[i] < 256
    ensures Plain(PercentBytes(b))
  {
    if b != [] {
      PercentBytePlain(b[0]);
      PercentBytesPlain(b[1..]);
    }
  }

  lemma PercentBytePlain(b: nat)
    requires b < 256
    ensures Plain(PercentByte(b))
  {
    HexDigits(b / 16, b % 16);
    HexDigits(b % 16, b / 16);
  }

  /** An id contains none of the characters that have a meaning to the engine. */
  lemma {:induction false} EscapePlain(s: string)
    ensures Plain(EscapeID(s))
  {
    if s != "" {
      if Special(s[0]) {
        PercentBytesPlain(Utf8(s[0]));
      }
      EscapePlain(s[1..]);
    }
  }

  /** A name is its own id exactly when nothing in it is a percent sign, colon, hash, star, space or control character. */
  lemma {:induction false} KeptExactly(s: string)
    ensures EscapeID(s) == s <==> forall c | c in s :: c !in "%:#*" && !IsSpace(c) && !IsControl(c)
  {
    Grows(s);
  }

  lemma {:induction false} Grows(s: string)
    ensures |EscapeID(s)| >= |s|
    ensures EscapeID(s) == s <==> forall c | c in s :: !Special(c)
    ensures EscapeID(s) == s <==> |EscapeID(s)| == |s|
  {
    hide Utf8, IsSpace, IsControl;
    if s != "" {
      Grows(s[1..]);
      assert s == [s[0]] + s[1..];
      if Special(s[0]) {
        var b := Utf8(s[0]);
        assert |PercentBytes(b)| >= 3;
        assert s[0] in s;
      } else {
        assert EscapeID(s)[1..] == EscapeID(s[1..]);
      }
    }
  }

  function BackendAccessID(backend: string, access: string): string {
    EscapeID(EscapeID(backend) + ":" + EscapeID(access))
  }

  /** The text before the first colon and after it determine both parts. */
  lemma ColonSplits(a: string, x: string, b: string, y: string)
    requires Plain(a) && Plain(b) && a + ":" + x == b + ":" + y
    ensures a == b && x == y
  {
    var s := a + ":" + x;
    forall i | 0 <= i < |a| ensures s[i] != ':' { assert s[i] == a[i] && a[i] in a; }
    forall i | 0 <= i < |b| ensures s[i] != ':' { assert s[i] == b[i] && b[i] in b; }
    assert s[|a|] == ':' && s[|b|] == ':';
    assert a == s[..|a|] && b == s[..|b|] && x == s[|a| + 1..] && y == s[|b| + 1..];
  }

  /** Distinct pairs of backend and access classification have distinct ids. */
  lemma BackendAccessInjective(b: string, a: string, b': string, a': string)
    requires BackendAccessID(b, a) == BackendAccessID(b', a')
    ensures b == b' && a == a'
  {
    hide EscapeID;
    EscapeInjective(EscapeID(b) + ":" + EscapeID(a), EscapeID(b') + ":" + EscapeID(a'));
    EscapePlain(b);
    EscapePlain(b');
    ColonSplits(EscapeID(b), EscapeID(a), EscapeID(b'), EscapeID(a'));
    EscapeInjective(b, b');
    EscapeInjective(a, a');
  }
}
