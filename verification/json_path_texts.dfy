// What an expression of the JSONPath dialect stands for, as a relation between texts and selectors.
// NewJSONPath and parseSegment in internal/dadl/jsonpath.go accept exactly the texts it relates.
module JsonPathTexts {
  import opened Text
  import opened JsonPath
  import opened JsonPathSyntax
  import Redact

  // ---------------------------------------------------------------------------------------------
  // Numbers
  // ---------------------------------------------------------------------------------------------

  function Pow10(n: nat): nat {
    if n == 0 then 1 else 10 * Pow10(n - 1)
  }

  /** The number that digits, most significant first, stand for; leading zeros add nothing. */
  function Worth(digits: string): nat
    requires AllDigits(digits)
  {
    if digits == "" then 0 else DigitWorth(digits[0]) * Pow10(|digits| - 1) + Worth(digits[1..])
  }

  function DigitWorth(c: char): nat
    requires IsDigit(c)
  {
    c as int - '0' as int
  }

  lemma {:induction false} WorthAppend(digits: string, c: char)
    requires AllDigits(digits) && IsDigit(c)
    ensures AllDigits(digits + [c]) && Worth(digits + [c]) == 10 * Worth(digits) + DigitWorth(c)
    decreases |digits|
  {
    hide DigitWorth;
    if digits == "" {
      assert [c][1..] == "" && "" + [c] == [c];
    } else {
      var d, rest := DigitWorth(digits[0]), digits[1..];
      WorthAppend(rest, c);
      assert (digits + [c])[0] == digits[0] && (digits + [c])[1..] == rest + [c];
      TenTimes(d, Pow10(|rest|), Worth(rest));
    }
  }

  lemma TenTimes(d: nat, p: nat, w: nat)
    ensures d * (10 * p) + 10 * w == 10 * (d * p + w)
  {
  }

  lemma {:induction false} MagnitudeIsWorth(digits: string)
    requires AllDigits(digits)
    ensures Magnitude(digits) == Worth(digits)
    decreases |digits|
  {
    if digits != "" {
      var n := |digits| - 1;
      MagnitudeIsWorth(digits[..n]);
      WorthAppend(digits[..n], digits[n]);
      assert digits == digits[..n] + [digits[n]];
    }
  }

  /** text is the number n: digits behind an optional sign, in the range of an int. */
  ghost predicate WritesNumber(text: string, n: int) {
    exists sign: string, digits: string :: IsNumber(text, sign, digits, n)
  }

  predicate IsNumber(text: string, sign: string, digits: string, n: int) {
    && text == sign + digits && (sign == "" || sign == "+" || sign == "-")
    && digits != "" && AllDigits(digits) && n == (if sign == "-" then -1 else 1) * Worth(digits)
    && -MAX_INT64 - 1 <= n <= MAX_INT64
  }

  lemma AtoiExactly(text: string, n: int)
    ensures Atoi(text) == Ok(n) <==> WritesNumber(text, n)
  {
    hide Magnitude, Worth;
    if Atoi(text) == Ok(n) {
      var signed := text != "" && IsSign(text[0]);
      var sign, digits := if signed then [text[0]] else "", if signed then text[1..] else text;
      MagnitudeIsWorth(digits);
      assert text == sign + digits;
      assert IsNumber(text, sign, digits, n);
    }
    if WritesNumber(text, n) {
      var sign, digits :| IsNumber(text, sign, digits, n);
      MagnitudeIsWorth(digits);
      assert IsDigit(digits[0]);
      if sign == "" {
        assert text == digits;
      } else {
        assert text[0] == sign[0] && text[1..] == digits;
      }
    }
  }

  // ---------------------------------------------------------------------------------------------
  // Parts
  // ---------------------------------------------------------------------------------------------

  /**
   * A part between dots: a star is every child; a text without a bracket is a name; a name or nothing before [*] is every
   * child of it, and before a number in brackets that element.
   */
  ghost predicate Writes(part: string, seg: Segment) {
    || (part == "*" && seg == Segment("", None, true))
    || (part != "" && part != "*" && '[' !in part && seg == Segment(part, None, false))
    || ('[' !in seg.field && part == seg.field + "[*]" && seg.index == None && seg.wildcard)
    || ('[' !in seg.field && seg.index.Some? && !seg.wildcard && exists text: string :: WritesIndex(part, seg, text))
  }

  ghost predicate WritesIndex(part: string, seg: Segment, text: string)
    requires seg.index.Some?
  {
    part == seg.field + "[" + text + "]" && WritesNumber(text, seg.index.value)
  }

  lemma SegmentExactly(part: string, seg: Segment)
    ensures ParseSegment(part) == Ok(seg) <==> Writes(part, seg)
  {
    if part == "" {
      NothingWritten(seg);
    } else if '[' in part {
      BracketExactly(part, seg);
    } else {
      NameExactly(part, seg);
    }
  }

  lemma NothingWritten(seg: Segment)
    ensures !Writes("", seg)
  {
    hide WritesNumber;
  }

  lemma NameExactly(part: string, seg: Segment)
    requires part != "" && '[' !in part
    ensures ParseSegment(part) == Ok(seg) <==> Writes(part, seg)
  {
    hide IndexOf, Atoi, WritesNumber;
    assert part[..|part|] == part;
    IndexOfIs(part, '[', |part|);
    if Writes(part, seg) {
      BracketIn(seg, part);
    }
  }

  lemma BracketIn(seg: Segment, part: string)
    ensures part == seg.field + "[*]" ==> '[' in part
    ensures seg.index.Some? ==> forall text :: WritesIndex(part, seg, text) ==> '[' in part
  {
    hide WritesNumber;
    if part == seg.field + "[*]" {
      assert part[|seg.field|] == '[';
    }
    if seg.index.Some? {
      forall text | WritesIndex(part, seg, text) ensures '[' in part {
        assert part[|seg.field|] == '[';
      }
    }
  }

  lemma BracketExactly(part: string, seg: Segment)
    requires '[' in part
    ensures ParseSegment(part) == Ok(seg) <==> Writes(part, seg)
  {
    hide Atoi, IndexOf, ParseSegment, WritesNumber;
    if ParseSegment(part) == Ok(seg) {
      var field, inside := BracketShape(part);
      BracketParses(field, inside);
      if inside == "*" {
        assert part == field + "[*]";
      } else {
        AtoiExactly(inside, seg.index.value);
        assert part == field + "[" + inside + "]";
        assert WritesIndex(part, seg, inside);
      }
    }
    if Writes(part, seg) {
      StarHasNoBracket();
      if seg.wildcard {
        assert part == seg.field + ("[" + "*" + "]");
        BracketParses(seg.field, "*");
      } else {
        var text :| WritesIndex(part, seg, text);
        NumberIsNoStar(text, seg.index.value);
        AtoiExactly(text, seg.index.value);
        assert part == seg.field + ("[" + text + "]");
        BracketParses(seg.field, text);
      }
    }
  }

  lemma StarHasNoBracket()
    ensures '[' !in "*"
  {
  }

  lemma NumberIsNoStar(text: string, n: int)
    requires WritesNumber(text, n)
    ensures text != "*"
  {
    var sign, digits :| IsNumber(text, sign, digits, n);
    assert IsDigit(text[|text| - 1]) by { assert text[|text| - 1] == digits[|digits| - 1]; }
  }

  /** What is accepted with a bracket ends with one. */
  lemma BracketShape(part: string) returns (field: string, inside: string)
    requires '[' in part && ParseSegment(part).Ok?
    ensures part == field + ("[" + inside + "]") && '[' !in field
  {
    hide Atoi, IndexOf;
    var i := IndexOf(part, '[');
    assert i < |part| by { assert part[..|part|] == part; }
    field := part[..i];
    var rest := part[i..];
    inside := rest[1..|rest| - 1];
    assert rest == "[" + inside + "]";
    assert part == field + rest;
  }

  // ---------------------------------------------------------------------------------------------
  // Expressions
  // ---------------------------------------------------------------------------------------------

  function Joined(parts: seq<string>): string
    requires parts != []
  {
    if |parts| == 1 then parts[0] else parts[0] + "." + Joined(parts[1..])
  }

  /** The path of an expression: what follows "$." or "$", or all of it. */
  predicate Rooted(expr: string, path: string) {
    || expr == "$." + path
    || (expr == "$" + path && !("." <= path))
    || (expr == path && !("$" <= path))
  }

  ghost predicate PartsWrite(parts: seq<string>, segs: seq<Segment>) {
    |parts| == |segs| && forall i | 0 <= i < |parts| :: '.' !in parts[i] && Writes(parts[i], segs[i])
  }

  /** The path is the parts with dots in between. */
  ghost predicate PathWrites(path: string, parts: seq<string>, segs: seq<Segment>) {
    parts != [] && path == Joined(parts) && PartsWrite(parts, segs)
  }

  /** expr stands for segs. */
  ghost predicate Denotes(expr: string, segs: seq<Segment>) {
    expr != "" && exists path: string :: Rooted(expr, path) && PathMeans(path, segs)
  }

  ghost predicate PathMeans(path: string, segs: seq<Segment>) {
    if path == "" then segs == [] else exists parts: seq<string> :: PathWrites(path, parts, segs)
  }

  lemma {:induction false} JoinedSplits(parts: seq<string>)
    requires parts != [] && forall part | part in parts :: '.' !in part
    ensures SplitDots(Joined(parts)) == parts
    decreases |parts|
  {
    hide IndexOf;
    var s, first := Joined(parts), parts[0];
    if |parts| == 1 {
      assert s[..|s|] == s;
      IndexOfIs(s, '.', |s|);
    } else {
      assert s[..|first|] == first && s[|first|] == '.' && s[|first| + 1..] == Joined(parts[1..]);
      IndexOfIs(s, '.', |first|);
      JoinedSplits(parts[1..]);
      assert parts == [first] + parts[1..];
    }
  }

  lemma {:induction false} SplitJoins(path: string)
    ensures Joined(SplitDots(path)) == path
    decreases |path|
  {
    hide IndexOf;
    var i := IndexOf(path, '.');
    if i < |path| {
      SplitJoins(path[i + 1..]);
      var parts := SplitDots(path);
      assert parts[1..] == SplitDots(path[i + 1..]);
      assert path == path[..i] + "." + path[i + 1..];
    }
  }

  lemma {:induction false} PartsExactly(parts: seq<string>, segs: seq<Segment>)
    requires forall part | part in parts :: '.' !in part
    ensures ParseParts(parts) == Ok(segs) <==> PartsWrite(parts, segs)
    decreases |parts|
  {
    hide ParseSegment, Writes;
    if parts != [] {
      assert forall part | part in parts[1..] :: part in parts;
      if segs != [] {
        SegmentExactly(parts[0], segs[0]);
        PartsExactly(parts[1..], segs[1..]);
        assert segs == [segs[0]] + segs[1..];
        PartsWriteCons(parts, segs);
      }
    }
  }

  lemma PartsWriteCons(parts: seq<string>, segs: seq<Segment>)
    requires parts != [] && segs != []
    ensures PartsWrite(parts, segs) <==> '.' !in parts[0] && Writes(parts[0], segs[0]) && PartsWrite(parts[1..], segs[1..])
  {
    hide Writes;
    if '.' !in parts[0] && Writes(parts[0], segs[0]) && PartsWrite(parts[1..], segs[1..]) {
      forall i | 0 <= i < |parts| ensures '.' !in parts[i] && Writes(parts[i], segs[i]) {
        if i > 0 {
          assert parts[i] == parts[1..][i - 1] && segs[i] == segs[1..][i - 1];
        }
      }
    }
  }

  lemma StripExactly(expr: string, path: string)
    ensures Rooted(expr, path) <==> path == StripRoot(expr)
  {
    if "$." <= expr {
      assert expr == "$." + expr[2..];
      assert path == expr[1..] ==> "." <= path;
    } else if "$" <= expr {
      assert expr == "$" + expr[1..];
    }
    if expr == "$" + path {
      assert expr[1..] == path;
    }
    if expr == "$." + path {
      assert expr[2..] == path;
    }
  }

  lemma PathWritesExactly(path: string, segs: seq<Segment>)
    ensures ParseParts(SplitDots(path)) == Ok(segs) <==> exists parts: seq<string> :: PathWrites(path, parts, segs)
  {
    hide ParseParts, SplitDots, PartsWrite, Joined;
    PartsHaveNoDots(path);
    SplitJoins(path);
    PartsExactly(SplitDots(path), segs);
    if ParseParts(SplitDots(path)) == Ok(segs) {
      assert PathWrites(path, SplitDots(path), segs);
    }
    if parts: seq<string> :| PathWrites(path, parts, segs) {
      NoDots(parts, segs);
      JoinedSplits(parts);
    }
  }

  lemma NoDots(parts: seq<string>, segs: seq<Segment>)
    requires PartsWrite(parts, segs)
    ensures forall part | part in parts :: '.' !in part
  {
    hide Writes;
  }

  /** For every text and every path: it is parsed as the path exactly when it stands for it. */
  lemma PathExactly(expr: string, segs: seq<Segment>)
    ensures PathOf(expr) == Ok(segs) <==> Denotes(expr, segs)
  {
    hide ParseParts, SplitDots, PathWrites, Rooted, StripRoot;
    StripExactly(expr, StripRoot(expr));
    PathWritesExactly(StripRoot(expr), segs);
    if expr != "" && PathMeans(StripRoot(expr), segs) {
      assert Denotes(expr, segs);
    }
    if Denotes(expr, segs) {
      var path :| Rooted(expr, path) && PathMeans(path, segs);
      StripExactly(expr, path);
    }
  }

  /** "$." and "$" may be left out. */
  lemma RootIsOptional(path: string)
    requires path != "" && path[0] != '.' && path[0] != '$'
    ensures PathOf("$." + path) == PathOf(path) && PathOf("$" + path) == PathOf(path)
  {
    hide ParseParts, SplitDots;
    assert ("$." + path)[2..] == path && ("$" + path)[1..] == path;
    assert ("$" + path)[1] == path[0];
  }

  // ---------------------------------------------------------------------------------------------
  // Every child of a member
  // ---------------------------------------------------------------------------------------------

  predicate PlainField(f: string) {
    f != "" && f != "*" && '.' !in f && '[' !in f
  }

  lemma ChildrenOf(f: string)
    requires PlainField(f)
    ensures PathOf("$." + f + ".*") == Ok([Segment(f, None, false), Segment("", None, true)])
    ensures PathOf("$." + f + "[*]") == Ok([Segment(f, None, true)])
  {
    hide PathOf, Writes;
    var segs := [Segment(f, None, false), Segment("", None, true)];
    var parts := [f, "*"];
    WritesForms(f);
    assert parts[1..] == ["*"] && Joined(parts) == f + "." + "*";
    assert PathWrites(f + ".*", parts, segs) by { assert f + ".*" == f + "." + "*"; }
    assert Rooted("$." + f + ".*", f + ".*") by { assert "$." + f + ".*" == "$." + (f + ".*"); }
    PathExactly("$." + f + ".*", segs);
    assert PathWrites(f + "[*]", [f + "[*]"], [Segment(f, None, true)]);
    assert Rooted("$." + f + "[*]", f + "[*]") by { assert "$." + f + "[*]" == "$." + (f + "[*]"); }
    PathExactly("$." + f + "[*]", [Segment(f, None, true)]);
  }

  lemma WritesForms(f: string)
    requires PlainField(f)
    ensures Writes(f, Segment(f, None, false)) && Writes("*", Segment("", None, true)) && Writes(f + "[*]", Segment(f, None, true))
    ensures '.' !in f + "[*]"
  {
    hide WritesNumber;
    assert '.' !in "[*]" && '[' !in "*";
    var name, star := Segment(f, None, false), Segment(f, None, true);
    assert star.field == f && star.wildcard && star.index.None?;
  }

  /** Both redact every child of the member, whatever it is, and nothing else. */
  lemma ChildrenAreRedacted(f: string, v: Json)
    requires PlainField(f)
    ensures PathOf("$." + f + ".*").Ok? && PathOf("$." + f + "[*]").Ok?
    ensures Redact.RedactValue(v, PathOf("$." + f + ".*").value) == WithoutChildren(v, f)
    ensures Redact.RedactValue(v, PathOf("$." + f + "[*]").value) == WithoutChildren(v, f)
  {
    hide PathOf;
    ChildrenOf(f);
    var a, b := [Segment(f, None, false), Segment("", None, true)], [Segment(f, None, true)];
    assert a[1..] == [Segment("", None, true)] && a[1..][1..] == [] && b[1..] == [];
    if v.Object? && f in v.members {
      ChildrenReplaced(v.members[f], Segment("", None, true));
      ChildrenReplaced(v.members[f], Segment(f, None, true));
    }
  }

  function WithoutChildren(v: Json, f: string): Json {
    if v.Object? && f in v.members then Object(v.members[f := AllReplaced(v.members[f])]) else v
  }

  function AllReplaced(v: Json): Json {
    match v
    case Array(items) => Array(seq(|items|, _ => Str("[REDACTED]")))
    case Object(members) => Object(map k | k in members :: Str("[REDACTED]"))
    case _ => v
  }

  lemma ChildrenReplaced(v: Json, seg: Segment)
    requires seg.wildcard
    ensures Redact.RedactSelected(v, seg, []) == AllReplaced(v)
  {
    if v.Array? {
      assert Redact.RedactSelected(v, seg, []).items == AllReplaced(v).items;
    }
  }
}
