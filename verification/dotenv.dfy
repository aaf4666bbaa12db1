// The .env parser: internal/credentials/dotenv.go. A char stands for one byte of the file.
module Dotenv {
  import opened Text

  // ---------------------------------------------------------------------------------------------
  // String helpers of the Go standard library
  // ---------------------------------------------------------------------------------------------

  predicate Blank(c: char) {
    c == ' ' || c == '\t'
  }

  function TrimBlankLeft(s: string): string {
    if s != "" && Blank(s[0]) then TrimBlankLeft(s[1..]) else s
  }

  function TrimBlankRight(s: string): string {
    if s != "" && Blank(s[|s| - 1]) then TrimBlankRight(s[..|s| - 1]) else s
  }

  /** strings.TrimSuffix(line, "\r"). */
  function TrimCR(line: string): string {
    if line != "" && line[|line| - 1] == '\r' then line[..|line| - 1] else line
  }

  /** strings.Split(text, "\n"). */
  function SplitLines(text: string): (lines: seq<string>)
    ensures lines != []
    decreases |text|
  {
    var i := IndexOf(text, '\n');
    if i == |text| then [text] else [text[..i]] + SplitLines(text[i + 1..])
  }

  /** strings.ReplaceAll(s, `\n`, "\n"). */
  function BreakLines(s: string): string {
    if |s| < 2 then s
    else if s[0] == '\\' && s[1] == 'n' then "\n" + BreakLines(s[2..])
    else [s[0]] + BreakLines(s[1..])
  }

  // ---------------------------------------------------------------------------------------------
  // Names and unquoted values
  // ---------------------------------------------------------------------------------------------

  predicate NameStart(c: char) {
    c == '_' || 'A' <= c <= 'Z' || 'a' <= c <= 'z'
  }

  /** [A-Za-z_][A-Za-z0-9_]* */
  predicate ValidName(s: string) {
    s != "" && NameStart(s[0]) && forall j | 0 <= j < |s| :: NameStart(s[j]) || IsDigit(s[j])
  }

  method ValidEnvName(s: string) returns (ok: bool)
    ensures ok <==> ValidName(s)
  {
    if s == "" {
      return false;
    }
    for j := 0 to |s|
      invariant forall k | 0 <= k < j :: NameStart(s[k]) || (IsDigit(s[k]) && k > 0)
    {
      var c := s[j];
      if !(NameStart(c) || (IsDigit(c) && j > 0)) {
        return false;
      }
    }
    return true;
  }

  /** A # that a blank precedes. */
  predicate StartsComment(raw: string, j: nat) {
    1 <= j < |raw| && raw[j] == '#' && Blank(raw[j - 1])
  }

  /** Where the first comment from j on starts; the length when there is none. */
  function CommentFrom(raw: string, j: nat): (k: nat)
    requires j <= |raw|
    ensures j <= k <= |raw| && (forall i | j <= i < k :: !StartsComment(raw, i)) && (k < |raw| ==> StartsComment(raw, k))
    decreases |raw| - j
  {
    if j == |raw| || StartsComment(raw, j) then j else CommentFrom(raw, j + 1)
  }

  function Unquoted(raw: string): string {
    BreakLines(TrimBlankRight(TrimBlankLeft(raw[..CommentFrom(raw, 0)])))
  }

  lemma CommentAt(raw: string, k: nat)
    requires k <= |raw| && (forall i | 0 <= i < k :: !StartsComment(raw, i)) && (k < |raw| ==> StartsComment(raw, k))
    ensures CommentFrom(raw, 0) == k
  {
  }

  method UnquotedValue(raw0: string) returns (v: string)
    ensures v == Unquoted(raw0)
  {
    var raw := raw0;
    var j := 1;
    while j < |raw|
      invariant 1 <= j && raw == raw0 && forall i | 0 <= i < j && i < |raw| :: !StartsComment(raw, i)
    {
      if raw[j] == '#' && (raw[j - 1] == ' ' || raw[j - 1] == '\t') {
        raw := raw[..j];
        CommentAt(raw0, j);
        return BreakLines(TrimBlankRight(TrimBlankLeft(raw)));
      }
      j := j + 1;
    }
    CommentAt(raw0, |raw0|);
    assert raw0[..|raw0|] == raw0;
    return BreakLines(TrimBlankRight(TrimBlankLeft(raw)));
  }

  // ---------------------------------------------------------------------------------------------
  // The closing quote
  // ---------------------------------------------------------------------------------------------

  /** How many backslashes stand right before j. */
  function Backslashes(body: string, j: nat): nat
    requires j <= |body|
  {
    if j > 0 && body[j - 1] == '\\' then 1 + Backslashes(body, j - 1) else 0
  }

  /** Inside double quotes an odd number of backslashes escapes what follows them. */
  predicate Escaped(body: string, quote: char, j: nat)
    requires j <= |body|
  {
    quote == '"' && Backslashes(body, j) % 2 == 1
  }

  /** Where body is closed: at a quote that is not escaped. */
  predicate Closes(body: string, quote: char, j: nat) {
    j < |body| && body[j] == quote && !Escaped(body, quote, j)
  }

  /** The first place from j on where body is closed; the length when there is none. */
  function FirstClose(body: string, quote: char, j: nat): (e: nat)
    requires j <= |body|
    ensures j <= e <= |body| && (forall k | j <= k < e :: !Closes(body, quote, k)) && (e < |body| ==> Closes(body, quote, e))
    decreases |body| - j
  {
    if j == |body| || Closes(body, quote, j) then j else FirstClose(body, quote, j + 1)
  }

  lemma {:induction false} NextBackslashes(body: string, j: nat)
    requires j < |body|
    ensures Backslashes(body, j + 1) == if body[j] == '\\' then 1 + Backslashes(body, j) else 0
  {
  }

  /** closingQuote stops exactly at the first quote that is not escaped. */
  method ClosingQuote(body: string, quote: char) returns (e: int)
    requires quote == '"' || quote == '\''
    ensures e == if FirstClose(body, quote, 0) < |body| then FirstClose(body, quote, 0) else -1
  {
    var j := 0;
    while j < |body|
      invariant 0 <= j && (j <= |body| ==> !Escaped(body, quote, j))
      invariant forall k | 0 <= k < j && k < |body| :: !Closes(body, quote, k)
    {
      NextBackslashes(body, j);
      if j + 1 < |body| {
        NextBackslashes(body, j + 1);
      }
      if body[j] == quote {
        assert Closes(body, quote, j);
        return j;
      } else if body[j] == '\\' && quote == '"' {
        j := j + 1;
      }
      j := j + 1;
    }
    return -1;
  }

  // ---------------------------------------------------------------------------------------------
  // Escapes
  // ---------------------------------------------------------------------------------------------

  /** What a backslash and c stand for. */
  function Expand(c: char): string {
    if c == 'n' then "\n" else if c == 'r' then "\r" else if c == 't' then "\t"
    else if c == '"' || c == '\\' || c == '$' then [c]
    else ['\\', c]
  }

  function Unescape(s: string): string {
    if s == "" then ""
    else if s[0] != '\\' || |s| == 1 then [s[0]] + Unescape(s[1..])
    else Expand(s[1]) + Unescape(s[2..])
  }

  lemma {:induction false} NothingToUnescape(s: string)
    requires '\\' !in s
    ensures Unescape(s) == s
  {
    if s != "" {
      NothingToUnescape(s[1..]);
      assert s == [s[0]] + s[1..];
    }
  }

  method UnescapeDoubleQuoted(s: string) returns (r: string)
    ensures r == Unescape(s)
  {
    if '\\' !in s {
      NothingToUnescape(s);
      return s;
    }
    r := "";
    var j := 0;
    assert s[0..] == s;
    while j < |s|
      invariant 0 <= j <= |s| && r + Unescape(s[j..]) == Unescape(s)
    {
      UnescapeStep(s, j, r);
      if s[j] != '\\' || j + 1 == |s| {
        r := r + [s[j]];
        j := j + 1;
      } else {
        j := j + 1;
        if s[j] == 'n' {
          r := r + "\n";
        } else if s[j] == 'r' {
          r := r + "\r";
        } else if s[j] == 't' {
          r := r + "\t";
        } else if s[j] == '"' || s[j] == '\\' || s[j] == '$' {
          r := r + [s[j]];
        } else {
          r := r + ['\\', s[j]];
        }
        j := j + 1;
      }
    }
    assert s[|s|..] == "" && r + "" == r;
  }

  lemma {:induction false} UnescapeStep(s: string, j: nat, r: string)
    requires j < |s|
    ensures r + Unescape(s[j..]) == if s[j] != '\\' || j + 1 == |s| then (r + [s[j]]) + Unescape(s[j + 1..])
                                    else (r + Expand(s[j + 1])) + Unescape(s[j + 2..])
  {
    assert s[j..][1..] == s[j + 1..];
    if j + 1 < |s| {
      assert s[j..][2..] == s[j + 2..];
    }
  }

  // ---------------------------------------------------------------------------------------------
  // The parser
  // ---------------------------------------------------------------------------------------------

  datatype Problem = NoEquals | InvalidName | Unterminated | TrailingText

  /** The variables, or the line that is wrong and why. */
  datatype Parsed = Parsed(vars: map<string, string>) | Failed(line: nat, problem: Problem)

  /** A quoted value that begins with body and may go on in the lines after line at. */
  datatype Quote = Closed(body: string, last: nat) | Broken(problem: Problem)

  function Quoted(lines: seq<string>, at: nat, body: string, quote: char): (q: Quote)
    requires at < |lines|
    ensures q.Closed? ==> at <= q.last < |lines|
    decreases |lines| - at
  {
    var end := FirstClose(body, quote, 0);
    if end < |body| then
      var rest := TrimBlankLeft(body[end + 1..]);
      if rest != "" && rest[0] != '#' then Broken(TrailingText) else Closed(body[..end], at)
    else if at + 1 == |lines| then Broken(Unterminated)
    else Quoted(lines, at + 1, body + "\n" + TrimCR(lines[at + 1]), quote)
  }

  /** Quoted when the body is closed in this line. */
  lemma {:induction false} QuotedCloses(lines: seq<string>, at: nat, body: string, quote: char)
    requires at < |lines| && FirstClose(body, quote, 0) < |body|
    ensures var end := FirstClose(body, quote, 0);
            var rest := TrimBlankLeft(body[end + 1..]);
            Quoted(lines, at, body, quote) == if rest != "" && rest[0] != '#' then Broken(TrailingText) else Closed(body[..end], at)
  {
  }

  /** Quoted when it is not. */
  lemma {:induction false} QuotedGoesOn(lines: seq<string>, at: nat, body: string, quote: char)
    requires at < |lines| && FirstClose(body, quote, 0) == |body|
    ensures Quoted(lines, at, body, quote)
         == if at + 1 == |lines| then Broken(Unterminated)
            else Quoted(lines, at + 1, body + "\n" + TrimCR(lines[at + 1]), quote)
  {
  }

  function Stripped(line: string): string {
    TrimBlankLeft(TrimCR(line))
  }

  function WithoutExport(line: string): string {
    if "export" <= line && |line| > 6 && Blank(line[6]) then TrimBlankLeft(line[6..]) else line
  }

  /** What a line is: nothing, wrong, or the start of an entry; value begins with its quote. */
  datatype Line = Nothing | Wrong(problem: Problem) | Plain(key: string, raw: string) | Quotes(key: string, value: string)

  function LineOf(text: string): (l: Line)
    ensures l.Quotes? ==> l.value != "" && (l.value[0] == '"' || l.value[0] == '\'')
  {
    var line := Stripped(text);
    if line == "" || line[0] == '#' then Nothing
    else
      var decl := WithoutExport(line);
      var eq := IndexOf(decl, '=');
      if eq == |decl| then Wrong(NoEquals)
      else
        var key, raw := TrimBlankRight(decl[..eq]), decl[eq + 1..];
        if !ValidName(key) then Wrong(InvalidName)
        else
          var value := TrimBlankLeft(raw);
          if value == "" || (value[0] != '"' && value[0] != '\'') then Plain(key, raw) else Quotes(key, value)
  }

  function ParseFrom(lines: seq<string>, i: nat, vars: map<string, string>): Parsed
    requires i <= |lines|
    decreases |lines| - i
  {
    if i == |lines| then Parsed(vars)
    else
      match LineOf(lines[i])
      case Nothing => ParseFrom(lines, i + 1, vars)
      case Wrong(problem) => Failed(i + 1, problem)
      case Plain(key, raw) => ParseFrom(lines, i + 1, vars[key := Unquoted(raw)])
      case Quotes(key, value) =>
        match Quoted(lines, i, value[1..], value[0])
        case Broken(problem) => Failed(i + 1, problem)
        case Closed(body, last) => ParseFrom(lines, last + 1, vars[key := if value[0] == '"' then Unescape(body) else body])
  }

  const BOM := "\U{EF}\U{BB}\U{BF}"

  /** What parseDotenv makes of a file. */
  function ParsedOf(data: string): Parsed {
    ParseFrom(SplitLines(if BOM <= data then data[3..] else data), 0, map[])
  }

  method ParseDotenv(data: string) returns (r: Parsed)
    ensures r == ParsedOf(data)
  {
    hide IndexOf, TrimBlankLeft, TrimBlankRight, TrimCR, ValidName, Unquoted, Quoted, WithoutExport, SplitLines, Unescape;
    var lines := SplitLines(if BOM <= data then data[3..] else data);
    var vars: map<string, string> := map[];
    var i := 0;
    while i < |lines|
      invariant 0 <= i <= |lines| && ParseFrom(lines, 0, map[]) == ParseFrom(lines, i, vars)
    {
      var lineNo := i + 1;
      var line := TrimBlankLeft(TrimCR(lines[i]));
      if line == "" || line[0] == '#' {
        i := i + 1;
        continue;
      }
      line := WithoutExport(line);
      var eq := IndexOf(line, '=');
      if eq == |line| {
        return Failed(lineNo, NoEquals);
      }
      var key, raw := TrimBlankRight(line[..eq]), line[eq + 1..];
      var valid := ValidEnvName(key);
      if !valid {
        return Failed(lineNo, InvalidName);
      }
      var value := TrimBlankLeft(raw);
      if value == "" || (value[0] != '"' && value[0] != '\'') {
        var v := UnquotedValue(raw);
        vars := vars[key := v];
        i := i + 1;
        continue;
      }
      var q;
      q, i := ReadQuoted(lines, i, value[1..], value[0]);
      if q.Broken? {
        return Failed(lineNo, q.problem);
      }
      var body := q.body;
      if value[0] == '"' {
        body := UnescapeDoubleQuoted(body);
      }
      vars := vars[key := body];
      i := i + 1;
    }
    return Parsed(vars);
  }

  /** The inner loop: lines are appended to the body until it is closed. */
  method ReadQuoted(lines: seq<string>, start: nat, first: string, quote: char) returns (q: Quote, i: nat)
    requires start < |lines| && (quote == '"' || quote == '\'')
    ensures q == Quoted(lines, start, first, quote) && (q.Closed? ==> i == q.last)
  {
    hide TrimCR, FirstClose;
    i := start;
    var body := first;
    var end := ClosingQuote(body, quote);
    while end < 0
      invariant start <= i < |lines| && Quoted(lines, start, first, quote) == Quoted(lines, i, body, quote)
      invariant end == if FirstClose(body, quote, 0) < |body| then FirstClose(body, quote, 0) else -1
      decreases |lines| - i
    {
      QuotedGoesOn(lines, i, body, quote);
      if i + 1 >= |lines| {
        return Broken(Unterminated), i;
      }
      i := i + 1;
      body := body + "\n" + TrimCR(lines[i]);
      end := ClosingQuote(body, quote);
    }
    q := CloseQuote(lines, i, body, quote, end);
  }

  /** A comment may follow the closing quote, nothing else. */
  method CloseQuote(lines: seq<string>, at: nat, body: string, quote: char, end: nat) returns (q: Quote)
    requires at < |lines| && end == FirstClose(body, quote, 0) < |body|
    ensures q == Quoted(lines, at, body, quote) && (q.Closed? ==> q.last == at)
  {
    hide TrimBlankLeft, FirstClose;
    QuotedCloses(lines, at, body, quote);
    var rest := TrimBlankLeft(body[end + 1..]);
    if rest != "" && rest[0] != '#' {
      return Broken(TrailingText);
    }
    return Closed(body[..end], at);
  }

  // ---------------------------------------------------------------------------------------------
  // Backslashes, line breaks and lines
  // ---------------------------------------------------------------------------------------------

  lemma {:induction false} SamePrefix(p: string, s: string, j: nat)
    requires p <= s && j <= |p|
    ensures Backslashes(p, j) == Backslashes(s, j)
  {
    if j > 0 {
      SamePrefix(p, s, j - 1);
    }
  }

  /** A value on one line, as sops writes it: line breaks become backslash and n. */
  function OneLineOf(v: string): string {
    if v == "" then "" else (if v[0] == '\n' then "\\n" else [v[0]]) + OneLineOf(v[1..])
  }

  /** v holds a backslash and an n that are no line break. */
  predicate Ambiguous(v: string) {
    exists i | 0 <= i < |v| - 1 :: v[i] == '\\' && v[i + 1] == 'n'
  }

  /** Line breaks come back exactly when nothing else looks like one. */
  lemma {:induction false} LineBreaksExactly(v: string)
    ensures BreakLines(OneLineOf(v)) == v <==> !Ambiguous(v)
  {
    if Ambiguous(v) {
      BreaksShorten(v);
    } else {
      BreaksReturn(v);
    }
  }

  lemma {:induction false} BreaksReturn(v: string)
    requires !Ambiguous(v)
    ensures BreakLines(OneLineOf(v)) == v
  {
    if v != "" {
      var rest := v[1..];
      assert !Ambiguous(rest) by {
        assert forall i | 0 <= i < |rest| :: rest[i] == v[i + 1];
      }
      BreaksReturn(rest);
      assert v == [v[0]] + rest;
      if v[0] == '\n' {
        assert OneLineOf(v)[2..] == OneLineOf(rest);
      } else {
        assert OneLineOf(v)[1..] == OneLineOf(rest);
        assert rest != "" && OneLineOf(rest)[0] == 'n' ==> v[1] == 'n';
      }
    }
  }

  lemma {:induction false} BreaksShorten(v: string)
    ensures |BreakLines(OneLineOf(v))| <= |v|
    ensures Ambiguous(v) ==> |BreakLines(OneLineOf(v))| < |v|
    decreases |v|
  {
    if v != "" {
      var rest := v[1..];
      if v[0] == '\\' && rest != "" && rest[0] == 'n' {
        assert OneLineOf(v) == ['\\', 'n'] + OneLineOf(rest[1..]);
        assert OneLineOf(v)[2..] == OneLineOf(rest[1..]);
        BreaksShorten(rest[1..]);
      } else {
        if i :| 0 <= i < |v| - 1 && v[i] == '\\' && v[i + 1] == 'n' {
          assert rest[i - 1] == '\\' && rest[i - 1 + 1] == 'n';
        }
        BreaksShorten(rest);
        if v[0] == '\n' {
          assert OneLineOf(v)[2..] == OneLineOf(rest);
        } else {
          assert OneLineOf(v)[1..] == OneLineOf(rest);
          assert rest != "" && OneLineOf(rest)[0] == 'n' ==> rest[0] == 'n';
        }
      }
    }
  }

  // Lines of a text that is put together.

  lemma {:induction false} SplitJoined(a: string, b: string)
    ensures SplitLines(a + "\n" + b) == SplitLines(a) + SplitLines(b)
    decreases |a|
  {
    hide IndexOf;
    var s := a + "\n" + b;
    var i := IndexOf(a, '\n');
    assert s[..i] == a[..i];
    if i == |a| {
      assert a[..i] == a;
      IndexOfIs(s, '\n', i);
      assert s[i + 1..] == b;
    } else {
      IndexOfIs(s, '\n', i);
      assert s[i + 1..] == a[i + 1..] + "\n" + b;
      SplitJoined(a[i + 1..], b);
    }
  }

  lemma {:induction false} OneLine(a: string)
    requires '\n' !in a
    ensures SplitLines(a) == [a]
  {
    hide IndexOf;
    assert a[..|a|] == a;
    IndexOfIs(a, '\n', |a|);
  }

  lemma {:induction false} SplitPrefixed(p: string, a: string)
    requires '\n' !in p
    ensures SplitLines(p + a) == [p + SplitLines(a)[0]] + SplitLines(a)[1..]
  {
    hide IndexOf;
    var i := IndexOf(a, '\n');
    var s := p + a;
    assert s[..|p| + i] == p + a[..i];
    IndexOfIs(s, '\n', |p| + i);
    if i < |a| {
      assert s[|p| + i + 1..] == a[i + 1..];
    } else {
      assert a[..i] == a;
    }
  }

  /** Lines, each with the line break before it. */
  function Tail(lines: seq<string>): string {
    if lines == [] then "" else "\n" + (lines[0] + Tail(lines[1..]))
  }

  lemma {:induction false} FirstLine(text: string)
    requires IndexOf(text, '\n') < |text|
    ensures var j := IndexOf(text, '\n');
            && SplitLines(text)[0] == text[..j] && SplitLines(text)[1..] == SplitLines(text[j + 1..])
            && text == text[..j] + ("\n" + text[j + 1..])
  {
    hide IndexOf;
  }

  lemma {:induction false} LinesOf(text: string)
    ensures text == SplitLines(text)[0] + Tail(SplitLines(text)[1..])
    decreases |text|
  {
    hide IndexOf;
    var j := IndexOf(text, '\n');
    if j < |text| {
      var more := text[j + 1..];
      LinesOf(more);
      FirstLine(text);
      var lines := SplitLines(more);
      assert Tail(lines) == "\n" + (lines[0] + Tail(lines[1..])) == "\n" + more;
    } else {
      assert text[..j] == text;
    }
  }

  /** part are the lines from i on. */
  predicate Stands(lines: seq<string>, i: nat, part: seq<string>) {
    i + |part| <= |lines| && lines[i..i + |part|] == part
  }

  lemma StandsApart(lines: seq<string>, i: nat, a: seq<string>, b: seq<string>)
    requires Stands(lines, i, a + b)
    ensures Stands(lines, i, a) && Stands(lines, i + |a|, b)
  {
    var part := lines[i..i + |a| + |b|];
    assert lines[i..i + |a|] == part[..|a|] == a;
    assert lines[i + |a|..i + |a| + |b|] == part[|a|..] == b;
  }

  lemma StandsFirst(lines: seq<string>, i: nat, part: seq<string>)
    requires Stands(lines, i, part) && part != []
    ensures i < |lines| && lines[i] == part[0] && Stands(lines, i + 1, part[1..])
  {
    assert part == [part[0]] + part[1..];
    StandsApart(lines, i, [part[0]], part[1..]);
    assert lines[i..i + 1][0] == part[0];
  }
}
