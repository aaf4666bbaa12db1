// The JSONPath dialect: NewJSONPath and parseSegment in internal/dadl/jsonpath.go.
module JsonPathSyntax {
  import opened Text
  import opened JsonPath

  // ---------------------------------------------------------------------------------------------
  // strconv.Atoi
  // ---------------------------------------------------------------------------------------------

  const MAX_INT64: int := 0x7FFF_FFFF_FFFF_FFFF

  predicate AllDigits(s: string) {
    forall i | 0 <= i < |s| :: IsDigit(s[i])
  }

  function Magnitude(s: string): nat
    requires AllDigits(s)
  {
    if s == "" then 0 else 10 * Magnitude(s[..|s| - 1]) + (s[|s| - 1] as int - '0' as int)
  }

  predicate IsSign(c: char) {
    c == '-' || c == '+'
  }

  function Atoi(s: string): Result<int> {
    var signed := s != "" && IsSign(s[0]);
    var digits := if signed then s[1..] else s;
    if digits == "" || !AllDigits(digits) then Err
    else
      var m: int := Magnitude(digits);
      var n := if signed && s[0] == '-' then -m else m;
      if -MAX_INT64 - 1 <= n <= MAX_INT64 then Ok(n) else Err
  }

  function Decimal(n: nat): string {
    var last := [('0' as int + n % 10) as char];
    if n < 10 then last else Decimal(n / 10) + last
  }

  function IntText(n: int): string {
    if n < 0 then "-" + Decimal(-n) else Decimal(n)
  }

  lemma {:induction false} DecimalIs(n: nat)
    ensures Decimal(n) != "" && AllDigits(Decimal(n)) && Magnitude(Decimal(n)) == n
  {
    var s := Decimal(n);
    if n >= 10 {
      DecimalIs(n / 10);
      assert s[..|s| - 1] == Decimal(n / 10);
    } else {
      assert s[..|s| - 1] == "";
    }
  }

  lemma AtoiOfText(n: int)
    requires -MAX_INT64 - 1 <= n <= MAX_INT64
    ensures Atoi(IntText(n)) == Ok(n)
  {
    hide Magnitude, Decimal;
    if n < 0 {
      DecimalIs(-n);
      assert IntText(n)[1..] == Decimal(-n);
    } else {
      DecimalIs(n);
      assert IsDigit(IntText(n)[0]);
    }
  }

  // ---------------------------------------------------------------------------------------------
  // Parsing
  // ---------------------------------------------------------------------------------------------

  /** strings.Split(path, "."). */
  function SplitDots(path: string): (parts: seq<string>)
    ensures parts != []
    decreases |path|
  {
    var i := IndexOf(path, '.');
    if i == |path| then [path] else [path[..i]] + SplitDots(path[i + 1..])
  }

  function ParseSegment(s: string): Result<Segment> {
    if s == "" then Err
    else
      var bracket := IndexOf(s, '[');
      if bracket == |s| then
        if s == "*" then Ok(Segment("", None, true)) else Ok(Segment(s, None, false))
      else
        var field, rest := s[..bracket], s[bracket..];
        if rest[|rest| - 1] != ']' then Err
        else
          var idxStr := rest[1..|rest| - 1];
          if idxStr == "*" then Ok(Segment(field, None, true))
          else
            match Atoi(idxStr)
            case Err => Err
            case Ok(idx) => Ok(Segment(field, Some(idx), false))
  }

  function ParseParts(parts: seq<string>): Result<seq<Segment>> {
    if parts == [] then Ok([])
    else
      match ParseSegment(parts[0])
      case Err => Err
      case Ok(seg) =>
        match ParseParts(parts[1..])
        case Err => Err
        case Ok(rest) => Ok([seg] + rest)
  }

  function StripRoot(expr: string): string {
    if "$." <= expr then expr[2..] else if "$" <= expr then expr[1..] else expr
  }

  /** What NewJSONPath makes of an expression. */
  function PathOf(expr: string): Result<seq<Segment>> {
    if expr == "" then Err
    else if StripRoot(expr) == "" then Ok([])
    else ParseParts(SplitDots(StripRoot(expr)))
  }

  method NewJSONPath(expr: string) returns (r: Result<seq<Segment>>)
    ensures r == PathOf(expr)
  {
    hide ParseSegment, SplitDots;
    if expr == "" {
      return Err;
    }
    var path := expr;
    if "$." <= path {
      path := path[2..];
    } else if "$" <= path {
      path := path[1..];
    }
    if path == "" {
      return Ok([]);
    }
    var parts := SplitDots(path);
    var segments := [];
    assert parts[0..] == parts;
    assert forall rest: seq<Segment> :: segments + rest == rest;
    for i := 0 to |parts|
      invariant ParseParts(parts) == match ParseParts(parts[i..]) { case Ok(rest) => Ok(segments + rest) case Err => Err }
    {
      assert parts[i..][0] == parts[i] && parts[i..][1..] == parts[i + 1..];
      var seg := ParseSegment(parts[i]);
      if seg.Err? {
        return Err;
      }
      var before := segments;
      segments := segments + [seg.value];
      assert forall rest: seq<Segment> :: before + ([seg.value] + rest) == segments + rest;
    }
    assert parts[|parts|..] == [] && segments + [] == segments;
    return Ok(segments);
  }

  // ---------------------------------------------------------------------------------------------
  // The expressions of the dialect
  // ---------------------------------------------------------------------------------------------

  /** Segments that an expression can name: a field without dots and brackets, one bracket selector at most. */
  predicate InDialect(seg: Segment) {
    && '.' !in seg.field && '[' !in seg.field
    && (seg.index.Some? ==> !seg.wildcard && -MAX_INT64 - 1 <= seg.index.value <= MAX_INT64)
    && (seg.index.None? && !seg.wildcard ==> seg.field != "" && seg.field != "*")
  }

  function SegmentText(seg: Segment): string {
    seg.field + if seg.wildcard then "[*]" else if seg.index.Some? then "[" + IntText(seg.index.value) + "]" else ""
  }

  function PathText(segs: seq<Segment>): string {
    if segs == [] then "$" else "$." + JoinSegments(segs)
  }

  function JoinSegments(segs: seq<Segment>): string
    requires segs != []
  {
    if |segs| == 1 then SegmentText(segs[0]) else SegmentText(segs[0]) + "." + JoinSegments(segs[1..])
  }

  lemma {:induction false} DecimalPlain(n: nat)
    ensures forall c | c in Decimal(n) :: IsDigit(c)
  {
    if n >= 10 {
      DecimalPlain(n / 10);
    }
  }

  lemma SegmentTextParses(seg: Segment)
    requires InDialect(seg)
    ensures ParseSegment(SegmentText(seg)) == Ok(seg) && '.' !in SegmentText(seg) && SegmentText(seg) != ""
  {
    hide Atoi, IndexOf, IntText, ParseSegment;
    if seg.index.Some? {
      IndexTextPlain(seg.index.value);
      AtoiOfText(seg.index.value);
      BracketParses(seg.field, IntText(seg.index.value));
    } else if seg.wildcard {
      BracketParses(seg.field, "*");
      assert "[*]" == "[" + "*" + "]";
    } else {
      FieldParses(seg.field);
      assert SegmentText(seg) == seg.field;
    }
  }

  lemma FieldParses(field: string)
    requires '[' !in field && field != "" && field != "*"
    ensures ParseSegment(field) == Ok(Segment(field, None, false))
  {
    hide Atoi, IndexOf;
    assert field[..|field|] == field;
    IndexOfIs(field, '[', |field|);
  }

  /** A field followed by a bracket is split where it was put together. */
  lemma BracketParses(field: string, inside: string)
    requires '[' !in field
    ensures var s := field + ("[" + inside + "]");
            && s != "" && ParseSegment(s) == if inside == "*" then Ok(Segment(field, None, true))
               else match Atoi(inside) { case Err => Err case Ok(idx) => Ok(Segment(field, Some(idx), false)) }
  {
    hide Atoi, IndexOf;
    var rest := "[" + inside + "]";
    var s := field + rest;
    assert s[..|field|] == field && s[|field|..] == rest;
    IndexOfIs(s, '[', |field|);
    assert rest[1..|rest| - 1] == inside;
  }

  lemma IndexTextPlain(n: int)
    ensures '.' !in IntText(n) && IntText(n) != "*"
  {
    hide Decimal;
    DecimalPlain(if n < 0 then -n else n);
    DecimalIs(if n < 0 then -n else n);
    if n >= 0 {
      assert IsDigit(IntText(n)[0]);
    } else {
      assert |IntText(n)| > 1;
    }
  }

  lemma {:induction false} JoinedParses(segs: seq<Segment>)
    requires segs != [] && forall seg | seg in segs :: InDialect(seg)
    ensures ParseParts(SplitDots(JoinSegments(segs))) == Ok(segs) && JoinSegments(segs) != ""
    decreases |segs|
  {
    hide ParseSegment, SegmentText, InDialect, IndexOf;
    var s, first := JoinSegments(segs), SegmentText(segs[0]);
    SegmentTextParses(segs[0]);
    if |segs| == 1 {
      IndexOfIs(s, '.', |s|) by { assert s[..|s|] == s; }
      assert ParseParts([s][1..]) == Ok([]);
      assert segs == [segs[0]] + [];
    } else {
      assert s[..|first|] == first && s[|first|] == '.';
      IndexOfIs(s, '.', |first|);
      assert s[|first| + 1..] == JoinSegments(segs[1..]);
      JoinedParses(segs[1..]);
      var tail := SplitDots(JoinSegments(segs[1..]));
      assert SplitDots(s) == [first] + tail;
      assert ([first] + tail)[1..] == tail;
      assert segs == [segs[0]] + segs[1..];
    }
  }

  /** Every path of the dialect has an expression, and parsing it gives the path back. */
  lemma PathTextParses(segs: seq<Segment>)
    requires forall seg | seg in segs :: InDialect(seg)
    ensures PathOf(PathText(segs)) == Ok(segs)
  {
    hide ParseParts, SplitDots, JoinSegments;
    if segs != [] {
      JoinedParses(segs);
      assert PathText(segs)[2..] == JoinSegments(segs);
    } else {
      assert PathText(segs)[1..] == "";
    }
  }

  lemma {:induction false} PartsHaveNoDots(path: string)
    ensures forall part | part in SplitDots(path) :: '.' !in part
    decreases |path|
  {
    hide IndexOf;
    var i := IndexOf(path, '.');
    if i < |path| {
      PartsHaveNoDots(path[i + 1..]);
    } else {
      assert path[..i] == path;
    }
  }

  lemma SegmentInDialect(s: string)
    requires '.' !in s && ParseSegment(s).Ok?
    ensures InDialect(ParseSegment(s).value)
  {
    hide IndexOf, Magnitude;
    var i := IndexOf(s, '[');
    assert s[..i] + s[i..] == s;
  }

  lemma {:induction false} PartsInDialect(parts: seq<string>)
    requires (forall part | part in parts :: '.' !in part) && ParseParts(parts).Ok?
    ensures forall seg | seg in ParseParts(parts).value :: InDialect(seg)
    ensures |ParseParts(parts).value| == |parts| && forall part | part in parts :: part != ""
    decreases |parts|
  {
    hide InDialect;
    if parts != [] {
      assert parts == [parts[0]] + parts[1..];
      SegmentInDialect(parts[0]);
      PartsInDialect(parts[1..]);
    }
  }

  /** Nothing outside the dialect is accepted. */
  lemma AcceptedInDialect(expr: string)
    requires PathOf(expr).Ok?
    ensures forall seg | seg in PathOf(expr).value :: InDialect(seg)
  {
    hide ParseParts, SplitDots, InDialect;
    if StripRoot(expr) != "" {
      PartsHaveNoDots(StripRoot(expr));
      PartsInDialect(SplitDots(StripRoot(expr)));
    }
  }

  lemma {:induction false} TwoDots(a: string, b: string)
    ensures "" in SplitDots(a + ".." + b)
    decreases |a|
  {
    var s := a + ".." + b;
    var i := IndexOf(s, '.');
    assert s[|a|] == '.';
    if i < |a| {
      var rest := a[i + 1..];
      assert s[i + 1..] == rest + ".." + b;
      TwoDots(rest, b);
    } else {
      assert i == |a| by { NotBefore(s, '.', i); }
      var t := s[i + 1..];
      assert t == "." + b;
      IndexOfIs(t, '.', 0);
      assert SplitDots(t)[0] == "";
      assert SplitDots(s)[1] == SplitDots(t)[0];
    }
  }

  /** Wherever two dots stand in a row, with or without a leading $, the expression is rejected. */
  lemma DescendantRejected(a: string, b: string)
    ensures PathOf(a + ".." + b) == Err
  {
    hide ParseParts, SplitDots;
    var expr := a + ".." + b;
    var path := StripRoot(expr);
    if a == "$" {
      assert expr[2..] == "." + b;
      LeadingDot(path);
    } else if "$." <= a {
      assert expr[2..] == a[2..] + ".." + b;
      TwoDots(a[2..], b);
    } else if "$" <= a {
      assert expr[1] == a[1] && expr[1..] == a[1..] + ".." + b;
      TwoDots(a[1..], b);
    } else {
      assert expr[0] == if a == "" then '.' else a[0];
      TwoDots(a, b);
    }
    PartsHaveNoDots(path);
    if PathOf(expr).Ok? {
      PartsInDialect(SplitDots(path));
    }
  }

  lemma LeadingDot(path: string)
    requires path != "" && path[0] == '.'
    ensures "" in SplitDots(path)
  {
    IndexOfIs(path, '.', 0);
    assert SplitDots(path)[0] == "";
  }
}
