// Every file is one of the forms or has one of the faults, so what the parser makes of it is exact; and files that are
// written as entries, which parse to what was written: internal/credentials/dotenv.go.
module DotenvExact {
  import opened Text
  import opened Dotenv
  import opened DotenvForms

  // ---------------------------------------------------------------------------------------------
  // Every file is one of these
  // ---------------------------------------------------------------------------------------------

  lemma {:induction false} LeadingBlanks(s: string) returns (blanks: string, rest: string)
    ensures s == blanks + rest && AllBlank(blanks) && (rest != "" ==> !AllBlank([rest[0]]))
  {
    blanks, rest := "", s;
    if s != "" {
      BlankAlone(s[0]);
      if Blank(s[0]) {
        var more;
        more, rest := LeadingBlanks(s[1..]);
        blanks := [s[0]] + more;
      }
    }
  }

  lemma {:induction false} TrailingBlanks(s: string) returns (rest: string, blanks: string)
    ensures s == rest + blanks && AllBlank(blanks) && (rest != "" ==> !AllBlank([rest[|rest| - 1]]))
  {
    rest, blanks := s, "";
    if s != "" {
      var last := s[|s| - 1];
      BlankAlone(last);
      if Blank(last) {
        var more;
        rest, more := TrailingBlanks(s[..|s| - 1]);
        blanks := more + [last];
        assert s == s[..|s| - 1] + [last];
      }
    }
  }

  /** A line and what follows it. */
  predicate LineThen(s: string, line: string, rest: string) {
    s == line + rest && '\n' !in line && (rest == "" || rest[0] == '\n')
  }

  lemma CutLine(s: string) returns (line: string, rest: string)
    ensures LineThen(s, line, rest)
  {
    var i := IndexOf(s, '\n');
    line, rest := s[..i], s[i..];
  }

  /** The pieces up to a quote, to a backslash at the end or to the end. */
  lemma {:induction false} CutPieces(s: string) returns (pieces: seq<Piece>, rest: string)
    ensures s == PiecesText(pieces) + rest && PiecesFit(pieces)
    ensures rest == "" || rest == "\\" || rest[0] == '"'
    decreases |s|
  {
    pieces, rest := [], s;
    if s != "" && s[0] != '"' && s != "\\" {
      var p, n := if s[0] == '\\' then Backslashed(s[1]) else Char(s[0]), if s[0] == '\\' then 2 else 1;
      var more;
      more, rest := CutPieces(s[n..]);
      pieces := [p] + more;
      assert pieces[1..] == more;
      assert s == s[..n] + s[n..];
    }
  }

  /** A text in parts between backslash and n. */
  lemma {:induction false} CutParts(s: string) returns (parts: seq<string>)
    requires '\n' !in s
    ensures parts != [] && s == Join(parts, "\\n") && forall part | part in parts :: '\n' !in part && NoPair(part)
    decreases |s|
  {
    if NoPair(s) {
      parts := [s];
    } else {
      var i := FirstPair(s, 0);
      var more := CutParts(s[i + 2..]);
      parts := [s[..i]] + more;
      assert parts[1..] == more;
      assert s == s[..i] + "\\n" + s[i + 2..];
    }
  }

  lemma FirstPair(s: string, j: nat) returns (i: nat)
    requires !NoPair(s) && j < |s| && forall k | 0 <= k < j && k + 1 < |s| :: !(s[k] == '\\' && s[k + 1] == 'n')
    ensures i + 1 < |s| && s[i] == '\\' && s[i + 1] == 'n' && NoPair(s[..i])
    decreases |s| - j
  {
    if j + 1 < |s| && s[j] == '\\' && s[j + 1] == 'n' {
      i := j;
    } else {
      i := FirstPair(s, j + 1);
    }
  }

  /** What a text begins with: a form, or a fault. */
  datatype Begin = Good(form: Form, rest: string) | Bad(fault: Fault, rest: string)

  predicate Begins(text: string, b: Begin) {
    match b
    case Good(f, rest) => Fits(f) && text == FormText(f) + rest && (rest == "" || rest[0] == '\n')
    case Bad(f, rest) => FaultFits(f) && text == FaultText(f) + rest && FaultRest(f, rest)
  }

  lemma BeginOf(text: string) returns (b: Begin)
    ensures Begins(text, b)
  {
    hide StartFits, StartText, Begins;
    var line, rest := CutLine(text);
    var indent, said := LeadingBlanks(line);
    if said == "" || said[0] == '#' {
      b := Good(Skipped(indent, said), rest);
      SkippedBegins(text, indent, said, rest);
    } else if '=' !in said {
      b := Bad(WithoutEquals(indent, said), rest);
      NoEqualsBegins(text, indent, said, rest);
    } else {
      var start, after := CutStart(indent, said);
      if !IsName(start.key) {
        b := Bad(NoName(start, after), rest);
        NoNameBegins(text, start, after, rest);
      } else {
        assert text == StartText(start) + (after + rest);
        b := EntryBegins(text, start, after, rest);
      }
    }
  }

  lemma SkippedBegins(text: string, indent: string, comment: string, rest: string)
    requires LineThen(text, indent + comment, rest) && AllBlank(indent) && (comment == "" || comment[0] == '#')
    ensures Begins(text, Good(Skipped(indent, comment), rest))
  {
  }

  lemma NoEqualsBegins(text: string, indent: string, said: string, rest: string)
    requires LineThen(text, indent + said, rest) && AllBlank(indent)
    requires said != "" && !AllBlank([said[0]]) && said[0] != '#' && '=' !in said
    ensures Begins(text, Bad(WithoutEquals(indent, said), rest))
  {
  }

  lemma NoNameBegins(text: string, start: Start, after: string, rest: string)
    requires LineThen(text, StartText(start) + after, rest) && StartFits(start) && !IsName(start.key)
    ensures Begins(text, Bad(NoName(start, after), rest))
  {
    hide StartFits, StartText, IsName;
  }

  /** A line with an equals sign begins with a key, of whatever kind. */
  lemma CutStart(indent: string, said: string) returns (start: Start, after: string)
    requires AllBlank(indent) && said != "" && !AllBlank([said[0]]) && said[0] != '#' && '=' in said && '\n' !in said
    ensures StartFits(start) && indent + said == StartText(start) + after
  {
    hide AllBlank, LikeExport, Tight;
    var exported, decl := CutExport(said);
    var key, gap;
    key, gap, after := CutKey(decl);
    start := Start(indent, exported, key, gap);
    assert '\n' !in key;
    if exported.None? {
      assert said == (key + gap) + ("=" + after);
      ExportAhead(said, key + gap, "=" + after);
      assert key != "" ==> key[0] == said[0];
    }
    StartCut(start, decl, after);
  }

  lemma StartCut(start: Start, decl: string, after: string)
    requires decl == start.key + start.gap + "=" + after
    ensures StartText(start) + after
         == start.indent + ((if start.exported.Some? then "export" + start.exported.value else "") + decl)
  {
  }

  lemma CutExport(said: string) returns (exported: Option<string>, decl: string)
    requires said != "" && !AllBlank([said[0]]) && '=' in said
    ensures said == (if exported.Some? then "export" + exported.value else "") + decl
    ensures '=' in decl && !AllBlank([decl[0]])
    ensures match exported case None => decl == said && !LikeExport(said) case Some(blanks) => blanks != "" && AllBlank(blanks)
  {
    exported, decl := None, said;
    if LikeExport(said) {
      var blanks;
      blanks, decl := LeadingBlanks(said[6..]);
      exported := Some(blanks);
      assert said == "export" + (blanks + decl);
      assert '=' !in "export";
      assert blanks != "" by { assert AllBlank([said[6..][0]]); }
    }
  }

  lemma CutKey(decl: string) returns (key: string, gap: string, after: string)
    requires '=' in decl && !AllBlank([decl[0]])
    ensures decl == key + gap + "=" + after && AllBlank(gap) && '=' !in key && Tight(key) && (key == "" ==> gap == "")
  {
    hide IndexOf, Tight;
    var eq := IndexOf(decl, '=');
    assert decl[..|decl|] == decl;
    key, gap := TrailingBlanks(decl[..eq]);
    after := decl[eq + 1..];
    KeyFits(decl, key, gap, after);
  }

  lemma ExportAhead(said: string, head: string, after: string)
    requires said == head + after && !LikeExport(said)
    ensures !LikeExport(head)
  {
    if |head| > 6 {
      assert said[..6] == head[..6] && said[6] == head[6];
    }
  }

  lemma KeyFits(decl: string, key: string, gap: string, after: string)
    requires decl == key + gap + "=" + after && !AllBlank([decl[0]]) && AllBlank(gap)
    requires key != "" ==> !AllBlank([key[|key| - 1]])
    ensures (key == "" ==> gap == "") && Tight(key)
  {
    hide TrimBlankLeft;
    if key == "" {
      assert '=' in ['='];
      assert decl == gap + ("=" + after) && decl == "" + decl;
      TrimLeadOf(gap, "=" + after);
      TrimLeadOf("", decl);
    } else {
      assert decl[0] == key[0];
    }
  }

  /** What follows the equals sign begins with a value, or with a quoted one that is wrong. */
  lemma EntryBegins(text: string, start: Start, after: string, rest: string) returns (b: Begin)
    requires StartFits(start) && IsName(start.key) && text == StartText(start) + (after + rest) && LineThen(after + rest, after, rest)
    ensures Begins(text, b)
  {
    hide StartFits, StartText, IsName, Begins;
    var lead, value := LeadingBlanks(after);
    if value == "" || (value[0] != '"' && value[0] != '\'') {
      b := BareBegins(text, start, lead, value, rest);
    } else {
      var inside := value[1..] + rest;
      assert value + rest == [value[0]] + inside;
      assert text == StartText(start) + (lead + ([value[0]] + inside));
      if value[0] == '\'' {
        b := SingleBegins(text, start, lead, inside);
      } else {
        b := DoubleBegins(text, start, lead, inside);
      }
    }
  }

  lemma SingleBegins(text: string, start: Start, lead: string, inside: string) returns (b: Begin)
    requires StartFits(start) && IsName(start.key) && AllBlank(lead) && text == StartText(start) + (lead + ("'" + inside))
    ensures Begins(text, b)
  {
    hide StartFits, StartText, IsName, Begins;
    var i := IndexOf(inside, '\'');
    if i == |inside| {
      assert inside[..i] == inside;
      b := OpenBegins(text, start, lead, Body.Single(inside), "");
    } else {
      var after := inside[i + 1..];
      assert inside == inside[..i] + "'" + after;
      assert text == StartText(start) + lead + ("'" + inside[..i] + "'") + after;
      b := ClosedBegins(text, start, lead, Body.Single(inside[..i]), after);
    }
  }

  lemma DoubleBegins(text: string, start: Start, lead: string, inside: string) returns (b: Begin)
    requires StartFits(start) && IsName(start.key) && AllBlank(lead) && text == StartText(start) + (lead + ("\"" + inside))
    ensures Begins(text, b)
  {
    hide StartFits, StartText, IsName, Begins, PiecesText, PiecesFit;
    var pieces, more := CutPieces(inside);
    if more == "" || more == "\\" {
      assert text == StartText(start) + lead + ("\"" + PiecesText(pieces)) + more;
      b := OpenBegins(text, start, lead, Body.Double(pieces), more);
    } else {
      var after := more[1..];
      assert more == "\"" + after;
      assert text == StartText(start) + lead + ("\"" + PiecesText(pieces) + "\"") + after;
      b := ClosedBegins(text, start, lead, Body.Double(pieces), after);
    }
  }

  lemma OpenBegins(text: string, start: Start, lead: string, body: Body, dangling: string) returns (b: Begin)
    requires QuotedFits(start, lead, body) && (dangling == "" || (dangling == "\\" && body.Double?))
    requires text == StartText(start) + lead + OpenText(body) + dangling
    ensures Begins(text, b)
  {
    hide StartText, OpenText, QuotedFits;
    b := Bad(NeverClosed(start, lead, body, dangling), "");
    assert text + "" == text;
  }

  lemma ClosedBegins(text: string, start: Start, lead: string, body: Body, after: string) returns (b: Begin)
    requires QuotedFits(start, lead, body) && text == StartText(start) + lead + BodyText(body) + after
    ensures Begins(text, b)
  {
    hide StartFits, StartText, IsName, BodyText, PiecesFit;
    var line, rest := CutLine(after);
    var trail, said := LeadingBlanks(line);
    var front := StartText(start) + lead + BodyText(body);
    assert text == front + trail + said + rest;
    if said == "" || said[0] == '#' {
      b := Good(Entry(start, lead, body, trail, said), rest);
    } else {
      b := Bad(MoreText(start, lead, body, trail, said), rest);
    }
  }

  lemma BareBegins(text: string, start: Start, blanks: string, value: string, rest: string) returns (b: Begin)
    requires StartFits(start) && IsName(start.key) && AllBlank(blanks)
    requires text == StartText(start) + (blanks + value + rest) && LineThen(blanks + value + rest, blanks + value, rest)
    requires value != "" ==> !AllBlank([value[0]]) && value[0] != '"' && value[0] != '\''
    ensures Begins(text, b)
  {
    hide StartFits, StartText, IsName, CommentFrom, StartsComment, AllBlank, Tight, NoPair, NoCommentIn, Begins;
    var after := blanks + value;
    var k := CommentFrom(after, 0);
    var kept, comment := after[..k], after[k..];
    var lead, middle := LeadingBlanks(kept);
    var said, trail := TrailingBlanks(middle);
    assert after == lead + said + trail + comment;
    assert '\n' !in said && '\n' !in comment;
    var parts := CutParts(said);
    var f := Entry(start, lead, Body.Bare(parts), trail, comment);
    b := Good(f, rest);
    SaidBegins(blanks, value, lead, said, trail + comment, middle, trail);
    NoCommentKept(after, k, lead, said, trail);
    assert comment != "" ==> comment[0] == after[k];
    assert BareFits(f) by { hide Join; }
    GoodBegins(text, f, said, rest);
  }

  lemma GoodBegins(text: string, f: Form, said: string, rest: string)
    requires f.Entry? && f.body.Bare? && StartFits(f.start) && IsName(f.start.key) && AllBlank(f.lead) && AllBlank(f.trail)
    requires IsComment(f.comment) && BareFits(f) && said == BodyText(f.body)
    requires text == StartText(f.start) + (f.lead + said + f.trail + f.comment + rest) && (rest == "" || rest[0] == '\n')
    ensures Begins(text, Good(f, rest))
  {
    hide StartFits, IsName, AllBlank, BareFits, StartText;
  }

  lemma SaidBegins(blanks: string, value: string, lead: string, said: string, after: string, middle: string, trail: string)
    requires AllBlank(blanks) && AllBlank(lead) && blanks + value == lead + said + after && middle == said + trail
    requires value != "" ==> !AllBlank([value[0]]) && value[0] != '"' && value[0] != '\''
    requires (middle != "" ==> !AllBlank([middle[0]])) && (said != "" ==> !AllBlank([said[|said| - 1]]))
    ensures Tight(said) && (said != "" ==> said[0] != '"' && said[0] != '\'')
  {
    hide TrimBlankLeft;
    if said != "" {
      assert middle[0] == said[0];
      TrimLeadOf(blanks, value);
      assert lead + said + after == lead + (said + after);
      TrimLeadOf(lead, said + after);
    }
  }

  lemma NoCommentKept(after: string, k: nat, lead: string, said: string, trail: string)
    requires k == CommentFrom(after, 0) && after[..k] == lead + said + trail && AllBlank(lead)
    requires trail == "" && said != "" ==> !AllBlank([said[|said| - 1]])
    ensures NoCommentIn(lead + said)
    ensures k < |after| ==> after[k] == '#' && (trail != "" || (said == "" && lead != ""))
  {
    hide CommentFrom, StartsComment, AllBlank;
    var front := lead + said;
    assert |front| <= k && after[..|front|] == front by {
      assert after[..k][..|front|] == front;
    }
    NoneInFront(after, front);
    if k < |after| {
      CommentBehind(after, k, lead, said, trail);
    }
  }

  lemma NoneInFront(after: string, front: string)
    requires front <= after && forall i | 0 <= i < |front| :: !StartsComment(after, i)
    ensures NoCommentIn(front)
  {
    forall i | 0 < i < |front| && front[i] == '#' ensures !AllBlank([front[i - 1]]) {
      assert !StartsComment(after, i);
      BlankAlone(front[i - 1]);
    }
  }

  lemma CommentBehind(after: string, k: nat, lead: string, said: string, trail: string)
    requires k < |after| && after[..k] == lead + said + trail && StartsComment(after, k)
    requires trail == "" && said != "" ==> !AllBlank([said[|said| - 1]])
    ensures after[k] == '#' && (trail != "" || (said == "" && lead != ""))
  {
    if trail == "" && said != "" {
      var last := after[..k][k - 1];
      assert last == after[k - 1];
      BlankAlone(last);
    }
  }

  /** Every text is a row of forms, or one that a fault ends. */
  lemma {:induction false} ReadText(text: string) returns (forms: seq<Form>, fault: Option<Fault>, rest: string)
    ensures AllFit(forms)
    ensures match fault
            case None => text + "\n" == FormsText(forms)
            case Some(f) => FaultFits(f) && FaultRest(f, rest) && text == FormsText(forms) + (FaultText(f) + rest)
    decreases |text|
  {
    hide Fits, FormText, FaultFits, FaultText;
    var b := BeginOf(text);
    if b.Bad? {
      forms, fault, rest := [], Some(b.fault), b.rest;
      assert text == "" + (FaultText(b.fault) + rest);
    } else {
      if b.rest == "" {
        forms, fault, rest := [b.form], None, "";
        assert forms[1..] == [] && text == FormText(b.form);
      } else {
        var more;
        more, fault, rest := ReadText(b.rest[1..]);
        forms := [b.form] + more;
        assert forms[1..] == more && text == FormText(b.form) + "\n" + b.rest[1..];
      }
    }
  }

  /** Every file is the stored form of some text. */
  lemma EveryFileStored(data: string)
    ensures exists text: string :: Stored(data, text)
  {
    hide SplitLines, Join, TrimCR, EndsAs;
    assert BOM == MARK;
    var raws := SplitLines(BodyOf(data));
    var lines := Contents(raws);
    JoinSplit(BodyOf(data));
    var mark := if BOM <= data then MARK else "";
    assert data == mark + BodyOf(data);
    forall k | 0 <= k < |raws| ensures '\n' !in raws[k] && EndsAs(raws[k], lines[k]) {
      assert raws[k] in raws;
      EndsExactly(raws[k], lines[k]);
    }
    assert LinesStored(raws, lines) && StoredAs(data, Join(lines, "\n"), mark, raws, lines);
    assert Stored(data, Join(lines, "\n"));
  }

  lemma {:induction false} JoinSplit(text: string)
    ensures Join(SplitLines(text), "\n") == text && forall line | line in SplitLines(text) :: '\n' !in line
    decreases |text|
  {
    hide IndexOf;
    var j := IndexOf(text, '\n');
    if j < |text| {
      JoinSplit(text[j + 1..]);
      FirstLine(text);
      var lines := SplitLines(text);
      assert lines == [text[..j]] + lines[1..] && lines[1..] == SplitLines(text[j + 1..]);
    } else {
      assert text[..j] == text;
    }
  }

  // ---------------------------------------------------------------------------------------------
  // What the parser makes of a file
  // ---------------------------------------------------------------------------------------------

  /** The file holds forms that say vars. */
  ghost predicate Says(data: string, vars: map<string, string>) {
    exists forms: seq<Form> | AllFit(forms) :: Holds(data, forms) && VarsFrom(forms, map[]) == vars
  }

  /** The file holds forms and then, from this line on, a fault of this kind. */
  ghost predicate IsFaulty(data: string, line: nat, problem: Problem) {
    exists forms: seq<Form>, fault: Fault | AllFit(forms) && FaultFits(fault) ::
      FaultyAt(data, forms, fault, line) && ProblemOf(fault) == problem
  }

  ghost predicate FaultyAt(data: string, forms: seq<Form>, fault: Fault, line: nat)
    requires AllFit(forms) && FaultFits(fault)
  {
    HoldsFault(data, forms, fault) && line == 1 + multiset(FormsText(forms))['\n']
  }

  lemma SaysOrIsFaulty(data: string) returns (r: Parsed)
    ensures match r case Parsed(vars) => Says(data, vars) case Failed(line, problem) => IsFaulty(data, line, problem)
  {
    hide Stored, Fits, FaultFits, FormsText, VarsFrom;
    EveryFileStored(data);
    var text: string :| Stored(data, text);
    var forms, fault, rest := ReadText(text);
    if fault.Some? {
      assert HoldsFault(data, forms, fault.value);
      var line := 1 + multiset(FormsText(forms))['\n'];
      assert FaultyAt(data, forms, fault.value, line);
      r := Failed(line, ProblemOf(fault.value));
    } else {
      assert Holds(data, forms);
      r := Parsed(VarsFrom(forms, map[]));
    }
  }

  /** For every file: the result is vars exactly when the file holds forms, and nothing else, that say vars. */
  lemma ParsesExactly(data: string, vars: map<string, string>)
    ensures ParsedOf(data) == Parsed(vars) <==> Says(data, vars)
  {
    hide ParsedOf;
    BothHold(data);
    var r := SaysOrIsFaulty(data);
  }

  /** For every file: an error names this line and problem exactly when a fault of this kind begins there, after forms only. */
  lemma FailsExactly(data: string, line: nat, problem: Problem)
    ensures ParsedOf(data) == Failed(line, problem) <==> IsFaulty(data, line, problem)
  {
    hide ParsedOf;
    BothHold(data);
    var r := SaysOrIsFaulty(data);
  }

  lemma BothHold(data: string)
    ensures forall vars | Says(data, vars) :: ParsedOf(data) == Parsed(vars)
    ensures forall line, problem | IsFaulty(data, line, problem) :: ParsedOf(data) == Failed(line, problem)
  {
    hide ParsedOf, Holds, HoldsFault, Fits, FaultFits, FormsText, VarsFrom;
    forall vars | Says(data, vars) ensures ParsedOf(data) == Parsed(vars) {
      var forms: seq<Form> :| AllFit(forms) && Holds(data, forms) && VarsFrom(forms, map[]) == vars;
      FormsAreRead(data, forms);
    }
    forall line, problem | IsFaulty(data, line, problem) ensures ParsedOf(data) == Failed(line, problem) {
      var forms: seq<Form>, fault: Fault :| AllFit(forms) && FaultFits(fault) && FaultyAt(data, forms, fault, line) && ProblemOf(fault) == problem;
      FaultIsReported(data, forms, fault);
    }
  }

  // ---------------------------------------------------------------------------------------------
  // Writing a file
  // ---------------------------------------------------------------------------------------------

  datatype Style = NoQuotes | SingleQuotes | DoubleQuotes

  /** A variable and how it is written. */
  datatype Item = Item(key: string, value: string, style: Style)

  /** How a character is written between double quotes. */
  function EscapeChar(c: char): Piece {
    if c == '\n' then Backslashed('n') else if c == '\r' then Backslashed('r')
    else if c == '"' || c == '\\' then Backslashed(c) else Char(c)
  }

  function Escape(v: string): seq<Piece> {
    seq(|v|, i requires 0 <= i < |v| => EscapeChar(v[i]))
  }

  /** Nothing of the text is trimmed, read as a quote or cut off as a comment. */
  predicate PlainText(t: string) {
    && (t != "" ==> t[0] != '"' && t[0] != '\'' && t[|t| - 1] != '\r')
    && Tight(t) && NoCommentIn(t)
  }

  /** No carriage return at the end of a line. */
  predicate NoCR(text: string) {
    forall i | 0 <= i < |text| && text[i] == '\r' :: i + 1 < |text| && text[i + 1] != '\n'
  }

  /**
   * Any value can be written between double quotes; between single quotes it must not hold one, nor a CR before a line
   * break; without quotes it must be plain and unambiguous.
   */
  predicate Writable(item: Item) {
    && IsName(item.key)
    && match item.style
       case NoQuotes => !Ambiguous(item.value) && PlainText(OneLineOf(item.value))
       case SingleQuotes => '\'' !in item.value && NoCR(item.value + "'")
       case DoubleQuotes => true
  }

  /** An entry without anything around it. */
  function Written(item: Item): Form {
    Entry(Start("", None, item.key, ""), "", WrittenBody(item), "", "")
  }

  function WrittenBody(item: Item): Body {
    match item.style
    case NoQuotes => Body.Bare(SplitLines(item.value))
    case SingleQuotes => Body.Single(item.value)
    case DoubleQuotes => Body.Double(Escape(item.value))
  }

  function ItemText(item: Item): string {
    item.key + "=" + match item.style
                     case NoQuotes => OneLineOf(item.value)
                     case SingleQuotes => "'" + item.value + "'"
                     case DoubleQuotes => "\"" + PiecesText(Escape(item.value)) + "\""
  }

  function FileText(items: seq<Item>): string {
    if items == [] then "" else ItemText(items[0]) + "\n" + FileText(items[1..])
  }

  function ItemVars(items: seq<Item>, vars: map<string, string>): map<string, string>
    decreases |items|
  {
    if items == [] then vars else ItemVars(items[1..], vars[items[0].key := items[0].value])
  }

  lemma {:induction false} EscapeMeans(v: string)
    ensures PiecesFit(Escape(v)) && PiecesValue(Escape(v)) == v && '\r' !in PiecesText(Escape(v))
  {
    if v != "" {
      assert Escape(v)[0] == EscapeChar(v[0]) && Escape(v)[1..] == Escape(v[1..]);
      EscapeMeans(v[1..]);
      assert v == [v[0]] + v[1..];
    }
  }

  lemma {:induction false} OneLineParts(v: string)
    requires !Ambiguous(v)
    ensures Join(SplitLines(v), "\\n") == OneLineOf(v) && forall part | part in SplitLines(v) :: '\n' !in part && NoPair(part)
    decreases |v|
  {
    hide IndexOf;
    var j := IndexOf(v, '\n');
    NotBefore(v, '\n', j);
    assert NoPair(v[..j]);
    OneLineFront(v, j);
    if j < |v| {
      var rest := v[j + 1..];
      assert !Ambiguous(rest) by {
        assert forall i | 0 <= i < |rest| :: rest[i] == v[j + 1 + i];
      }
      OneLineParts(rest);
      FirstLine(v);
      var parts := SplitLines(v);
      assert parts == [v[..j]] + parts[1..] && parts[1..] == SplitLines(rest);
      assert v[j..][1..] == rest;
    } else {
      assert v[..j] == v && v[j..] == "";
    }
  }

  lemma {:induction false} OneLineFront(v: string, j: nat)
    requires j <= |v| && forall k | 0 <= k < j :: v[k] != '\n'
    ensures OneLineOf(v) == v[..j] + OneLineOf(v[j..])
  {
    if j > 0 {
      OneLineFront(v[1..], j - 1);
      assert v[1..][j - 1..] == v[j..] && v[..j] == [v[0]] + v[1..][..j - 1];
    } else {
      assert v[0..] == v;
    }
  }

  /** An entry as it is written is a form that says its value. */
  lemma WrittenFits(item: Item)
    requires Writable(item)
    ensures var f := Written(item); Fits(f) && FormText(f) == ItemText(item) && BodyValue(f.body) == item.value
  {
    hide IsName, StartFits, StartText, BareFits, BodyFits, BodyText, BodyValue, WrittenBody, PlainText, OneLineOf, Ambiguous, PiecesText;
    WrittenStart(item);
    WrittenInside(item);
    var f := Written(item);
    assert FormText(f) == item.key + "=" + "" + BodyText(f.body) + "" + "" == item.key + "=" + BodyText(f.body);
  }

  /** The body on its own. */
  lemma WrittenInside(item: Item)
    requires Writable(item)
    ensures var f := Written(item);
            && (if f.body.Bare? then BareFits(f) && f.body.parts != [] else BodyFits(f.body))
            && ItemText(item) == item.key + "=" + BodyText(f.body) && BodyValue(f.body) == item.value
  {
    hide Join, IsName, BareFits, PiecesText, PiecesFit, PiecesValue, SplitLines, PlainText, OneLineOf, Ambiguous, NoCR;
    match item.style
    case NoQuotes => WrittenBare(item);
    case SingleQuotes =>
    case DoubleQuotes => EscapeMeans(item.value);
  }

  lemma WrittenStart(item: Item)
    requires IsName(item.key)
    ensures StartFits(Written(item).start) && StartText(Written(item).start) == item.key + "="
  {
    hide IsName;
    NameFits(item.key);
  }

  lemma WrittenBare(item: Item)
    requires Writable(item) && item.style.NoQuotes?
    ensures var f := Written(item);
            BareFits(f) && BodyText(f.body) == OneLineOf(item.value) && BodyValue(f.body) == item.value
  {
    hide Join, IsName, NoPair, SplitLines, OneLineOf, Ambiguous, Tight, NoCommentIn;
    OneLineParts(item.value);
    JoinSplit(item.value);
    assert "" + OneLineOf(item.value) == OneLineOf(item.value);
  }

  lemma NameFits(key: string)
    requires IsName(key)
    ensures Tight(key) && '=' !in key && '\n' !in key && '\r' !in key && key[0] != '#' && !LikeExport(key + "")
  {
    NameExactly(key);
    hide IsLetter;
    assert forall j | 0 <= j < |key| :: !Blank(key[j]);
    BlankAlone(key[0]);
    BlankAlone(key[|key| - 1]);
    assert key + "" == key;
    if |key| > 6 {
      BlankAlone(key[6]);
    }
  }

  lemma {:induction false} OneLineHasNoBreak(v: string)
    ensures '\n' !in OneLineOf(v)
  {
    if v != "" {
      OneLineHasNoBreak(v[1..]);
    }
  }

  /** No line that is written ends with a carriage return. */
  lemma ItemHasNoCR(item: Item)
    requires Writable(item)
    ensures NoCR(ItemText(item))
  {
    hide IsName, PlainText, OneLineOf, PiecesText, NoCR, Ambiguous;
    NameFits(item.key);
    match item.style
    case NoQuotes =>
      OneLineHasNoCR(item.value);
      NoCRBehind(item.key + "=", OneLineOf(item.value));
    case SingleQuotes =>
      NoCRBehind(item.key + "='", item.value + "'");
      assert ItemText(item) == (item.key + "='") + (item.value + "'");
    case DoubleQuotes =>
      EscapeMeans(item.value);
      WithoutCR(ItemText(item));
  }

  lemma WithoutCR(text: string)
    requires '\r' !in text
    ensures NoCR(text)
  {
  }

  lemma OneLineHasNoCR(v: string)
    requires PlainText(OneLineOf(v))
    ensures NoCR(OneLineOf(v))
  {
    OneLineHasNoBreak(v);
    hide OneLineOf, Tight, NoCommentIn;
  }

  lemma NoCRBehind(front: string, text: string)
    requires '\r' !in front && NoCR(text)
    ensures NoCR(front + text)
  {
    var all := front + text;
    forall i | 0 <= i < |all| && all[i] == '\r' ensures i + 1 < |all| && all[i + 1] != '\n' {
      assert i >= |front| && all[i] == text[i - |front|];
    }
  }

  lemma {:induction false} FileHasNoCR(items: seq<Item>)
    requires forall item | item in items :: Writable(item)
    ensures NoCR(FileText(items))
  {
    hide Writable, ItemText;
    if items != [] {
      ItemHasNoCR(items[0]);
      FileHasNoCR(items[1..]);
      NoCRAcross(ItemText(items[0]), FileText(items[1..]));
    }
  }

  lemma NoCRAcross(a: string, b: string)
    requires NoCR(a) && NoCR(b)
    ensures NoCR(a + "\n" + b)
  {
    var all := a + "\n" + b;
    forall i | 0 <= i < |all| && all[i] == '\r' ensures i + 1 < |all| && all[i + 1] != '\n' {
      assert i < |a| ==> a[i] == all[i];
      assert i > |a| ==> b[i - |a| - 1] == all[i];
    }
  }

  lemma {:induction false} LinesKeepEnd(text: string)
    requires NoCR(text)
    ensures forall line | line in SplitLines(text) :: line != "" ==> line[|line| - 1] != '\r'
    decreases |text|
  {
    hide IndexOf;
    var j := IndexOf(text, '\n');
    if j < |text| {
      var rest := text[j + 1..];
      assert forall i | 0 <= i < |rest| :: rest[i] == text[j + 1 + i];
      LinesKeepEnd(text[j + 1..]);
      assert forall line | line in SplitLines(text) :: line == text[..j] || line in SplitLines(text[j + 1..]);
    }
  }

  lemma FileIsStored(items: seq<Item>)
    requires forall item | item in items :: Writable(item)
    ensures Stored(FileText(items), FileText(items))
  {
    hide SplitLines, Join, Writable, FileText, NoCR;
    var text := FileText(items);
    FileHasNoCR(items);
    NoMark(items);
    StoredAsIs(text);
  }

  lemma StoredAsIs(text: string)
    requires NoCR(text) && !(MARK <= text)
    ensures Stored(text, text)
  {
    hide SplitLines, Join, NoCR;
    var lines := SplitLines(text);
    JoinSplit(text);
    LinesKeepEnd(text);
    assert text == "" + text;
    assert LinesStored(lines, lines) && StoredAs(text, text, "", lines, lines);
  }

  lemma NoMark(items: seq<Item>)
    requires forall item | item in items :: Writable(item)
    ensures !(MARK <= FileText(items))
  {
    hide Writable, ItemText;
    if items != [] {
      KeyFirst(items[0]);
    }
  }

  lemma KeyFirst(item: Item)
    requires Writable(item)
    ensures ItemText(item) != "" && ItemText(item)[0] != MARK[0]
  {
    NameExactly(item.key);
    assert ItemText(item)[0] == item.key[0];
  }

  function WrittenAll(items: seq<Item>): (forms: seq<Form>)
    requires forall item | item in items :: Writable(item)
  {
    if items == [] then [Skipped("", "")] else [Written(items[0])] + WrittenAll(items[1..])
  }

  lemma {:induction false} WrittenAllFit(items: seq<Item>, vars: map<string, string>)
    requires forall item | item in items :: Writable(item)
    ensures var forms := WrittenAll(items);
            AllFit(forms) && FormsText(forms) == FileText(items) + "\n" && VarsFrom(forms, vars) == ItemVars(items, vars)
    decreases |items|
  {
    hide Writable, Fits, FormText, ItemText;
    var forms := WrittenAll(items);
    if items == [] {
      EmptyLine();
      assert forms[1..] == [];
    } else {
      WrittenFits(items[0]);
      assert forms[1..] == WrittenAll(items[1..]);
      WrittenAllFit(items[1..], vars[items[0].key := items[0].value]);
      assert FormsText(forms) == ItemText(items[0]) + "\n" + (FileText(items[1..]) + "\n");
    }
  }

  lemma EmptyLine()
    ensures Fits(Skipped("", "")) && FormText(Skipped("", "")) == ""
  {
  }

  /** Parsing a file of entries gives the variables back. */
  lemma RoundTrip(items: seq<Item>)
    requires forall item | item in items :: Writable(item)
    ensures ParsedOf(FileText(items)) == Parsed(ItemVars(items, map[]))
  {
    hide ParsedOf, Writable, FileText, FormsText, ItemVars, VarsFrom, Stored, WrittenAll, Fits;
    WrittenAllFit(items, map[]);
    FileIsStored(items);
    FormsAreRead(FileText(items), WrittenAll(items));
  }
}
