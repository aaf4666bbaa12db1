// What several parts of ToolMesh rely on, above all string helpers of the Go standard library.
// A Dafny char is one Unicode code point, a Go string is its UTF-8 encoding.
module Text {

  datatype Option<+T> = None | Some(value: T)

  datatype Result<+T> = Ok(value: T) | Err

  type Byte = v: nat | v < 256

  predicate Distinct(keys: seq<string>) {
    forall i, j | 0 <= i < j < |keys| :: keys[i] != keys[j]
  }

  /** The number of bytes of c in UTF-8. */
  function RuneLen(c: char): (n: nat)
    ensures 1 <= n <= 4
  {
    if c as int < 0x80 then 1 else if c as int < 0x800 then 2 else if c as int < 0x10000 then 3 else 4
  }

  /** len(s): the number of bytes of s in UTF-8. */
  function ByteLen(s: string): (n: nat)
    ensures n >= |s|
  {
    if s == "" then 0 else RuneLen(s[0]) + ByteLen(s[1..])
  }

  predicate IsAscii(s: string) {
    forall c | c in s :: c as int < 0x80
  }

  lemma AsciiByteLen(s: string)
    requires IsAscii(s)
    ensures ByteLen(s) == |s|
  {
    if s != "" {
      assert s[0] in s && forall c | c in s[1..] :: c in s;
      AsciiByteLen(s[1..]);
    }
  }

  lemma {:induction false} ByteLenAppend(x: string, y: string)
    ensures ByteLen(x + y) == ByteLen(x) + ByteLen(y)
    decreases |x|
  {
    if x == "" {
      assert x + y == y;
    } else {
      assert (x + y)[1..] == x[1..] + y;
      ByteLenAppend(x[1..], y);
    }
  }

  lemma PrefixSplits<T>(a: seq<T>, x: seq<T>, b: seq<T>, y: seq<T>)
    requires |a| == |b| && a + x == b + y
    ensures a == b && x == y
  {
    assert a == (a + x)[..|a|] && b == (b + y)[..|b|];
    assert x == (a + x)[|a|..] && y == (b + y)[|b|..];
  }

  /** unicode.IsSpace. */
  predicate IsSpace(c: char) {
    var n := c as int;
    || 0x09 <= n <= 0x0D || n == 0x20 || n == 0x85 || n == 0xA0 || n == 0x1680
    || 0x2000 <= n <= 0x200A || n == 0x2028 || n == 0x2029 || n == 0x202F || n == 0x205F || n == 0x3000
  }

  /** unicode.IsControl: category Cc. */
  predicate IsControl(c: char) {
    c as int < 0x20 || 0x7F <= c as int < 0xA0
  }

  function TrimLeft(s: string): string {
    if s != "" && IsSpace(s[0]) then TrimLeft(s[1..]) else s
  }

  function TrimRight(s: string): string {
    if s != "" && IsSpace(s[|s| - 1]) then TrimRight(s[..|s| - 1]) else s
  }

  /** strings.TrimSpace. */
  function TrimSpace(s: string): string {
    TrimRight(TrimLeft(s))
  }

  // strings.ToLower and strings.ToUpper, code point by code point. Besides ASCII only the code
  // points whose image is ASCII are mapped: the Kelvin sign and the dotted and dotless i, and the
  // long s. Every other code point outside ASCII is left as it is, so it stays outside ASCII.
  function LowerRune(c: char): char {
    if 'A' <= c <= 'Z' then (c as int + 32) as char
    else if c == '\U{212A}' then 'k'
    else if c == '\U{0130}' then 'i'
    else c
  }

  function UpperRune(c: char): char {
    if 'a' <= c <= 'z' then (c as int - 32) as char
    else if c == '\U{0131}' then 'I'
    else if c == '\U{017F}' then 'S'
    else c
  }

  function ToLower(s: string): (t: string)
    ensures |t| == |s|
    ensures forall i | 0 <= i < |s| :: t[i] == LowerRune(s[i])
  {
    seq(|s|, i requires 0 <= i < |s| => LowerRune(s[i]))
  }

  function ToUpper(s: string): (t: string)
    ensures |t| == |s|
    ensures forall i | 0 <= i < |s| :: t[i] == UpperRune(s[i])
  {
    seq(|s|, i requires 0 <= i < |s| => UpperRune(s[i]))
  }

  /** White space around a string that has none at its ends is what TrimSpace drops. */
  lemma {:induction false} TrimSpaceOf(left: string, core: string, right: string)
    requires forall c | c in left + right :: IsSpace(c)
    requires core != "" && !IsSpace(core[0]) && !IsSpace(core[|core| - 1])
    ensures TrimSpace(left + core + right) == core
  {
    TrimLeftOf(left, core + right);
    assert left + core + right == left + (core + right);
    TrimRightOf(core, right);
  }

  lemma {:induction false} TrimLeftOf(left: string, core: string)
    requires forall c | c in left :: IsSpace(c)
    requires core != "" && !IsSpace(core[0])
    ensures TrimLeft(left + core) == core
  {
    if left == "" {
      assert left + core == core;
    } else {
      assert left[0] in left;
      assert (left + core)[1..] == left[1..] + core;
      TrimLeftOf(left[1..], core);
    }
  }

  lemma {:induction false} TrimRightOf(core: string, right: string)
    requires forall c | c in right :: IsSpace(c)
    requires core != "" && !IsSpace(core[|core| - 1])
    ensures TrimRight(core + right) == core
  {
    if right == "" {
      assert core + right == core;
    } else {
      assert right[|right| - 1] in right;
      assert (core + right)[..|core + right| - 1] == core + right[..|right| - 1];
      TrimRightOf(core, right[..|right| - 1]);
    }
  }

  /** Every string is space, something without space at its ends or nothing, and space again. */
  lemma SpaceAround(s: string) returns (left: string, core: string, right: string)
    ensures s == left + core + right && core == TrimSpace(s)
    ensures (forall c | c in left :: IsSpace(c)) && forall c | c in right :: IsSpace(c)
    ensures core != "" ==> !IsSpace(core[0]) && !IsSpace(core[|core| - 1])
  {
    left := TrimLeftIs(s);
    right := TrimRightIs(TrimLeft(s));
    core := TrimSpace(s);
  }

  lemma {:induction false} TrimLeftIs(s: string) returns (left: string)
    ensures s == left + TrimLeft(s) && (forall c | c in left :: IsSpace(c)) && (TrimLeft(s) != "" ==> !IsSpace(TrimLeft(s)[0]))
  {
    left := "";
    if s != "" && IsSpace(s[0]) {
      var rest := TrimLeftIs(s[1..]);
      left := [s[0]] + rest;
    }
  }

  lemma {:induction false} TrimRightIs(s: string) returns (right: string)
    ensures s == TrimRight(s) + right && (forall c | c in right :: IsSpace(c))
    ensures TrimRight(s) != "" ==> TrimRight(s)[0] == s[0] && !IsSpace(TrimRight(s)[|TrimRight(s)| - 1])
  {
    right := "";
    if s != "" && IsSpace(s[|s| - 1]) {
      var rest := TrimRightIs(s[..|s| - 1]);
      right := rest + [s[|s| - 1]];
      assert s == s[..|s| - 1] + [s[|s| - 1]];
    }
  }

  /** Only space is trimmed to nothing. */
  lemma TrimmedEmpty(s: string)
    ensures TrimSpace(s) == "" <==> forall c | c in s :: IsSpace(c)
  {
    var left, core, right := SpaceAround(s);
    if core != "" {
      assert s[|left|] == core[0] && core[0] in s;
    }
  }

  lemma TrimmedKeeps(s: string, c: char)
    requires !IsSpace(c)
    ensures c in TrimSpace(s) <==> c in s
  {
    var left, core, right := SpaceAround(s);
  }

  lemma {:induction false} TrimSpaceLeft(left: string, s: string)
    requires forall c | c in left :: IsSpace(c)
    ensures TrimSpace(left + s) == TrimSpace(s)
  {
    var l, core, r := SpaceAround(s);
    SameTrim(left + s, left + l, core, r);
    SameTrim(s, l, core, r);
  }

  lemma {:induction false} TrimSpaceRight(s: string, right: string)
    requires forall c | c in right :: IsSpace(c)
    ensures TrimSpace(s + right) == TrimSpace(s)
  {
    var l, core, r := SpaceAround(s);
    SameTrim(s + right, l, core, r + right);
    SameTrim(s, l, core, r);
  }

  lemma {:induction false} SameTrim(s: string, left: string, core: string, right: string)
    requires s == left + core + right && (forall c | c in left :: IsSpace(c)) && forall c | c in right :: IsSpace(c)
    requires core != "" ==> !IsSpace(core[0]) && !IsSpace(core[|core| - 1])
    ensures TrimSpace(s) == core
  {
    if core != "" {
      TrimSpaceOf(left, core, right);
    } else {
      TrimmedEmpty(s);
    }
  }

  predicate IsDigit(c: char) {
    '0' <= c <= '9'
  }

  /** strings.Index of one character; the length when it does not occur. */
  function IndexOf(s: string, c: char): (i: nat)
    ensures i <= |s| && c !in s[..i] && (i < |s| ==> s[i] == c)
  {
    if s == "" || s[0] == c then 0
    else
      var i := 1 + IndexOf(s[1..], c);
      assert s[..i] == [s[0]] + s[1..][..i - 1];
      i
  }

  lemma NotBefore(s: string, c: char, i: nat)
    requires i <= |s| && c !in s[..i]
    ensures forall k | 0 <= k < i :: s[k] != c
  {
    assert forall k | 0 <= k < i :: s[k] == s[..i][k];
  }

  lemma IndexOfIs(s: string, c: char, i: nat)
    requires i <= |s| && c !in s[..i] && (i < |s| ==> s[i] == c)
    ensures IndexOf(s, c) == i
  {
    NotBefore(s, c, i);
    NotBefore(s, c, IndexOf(s, c));
  }
}
