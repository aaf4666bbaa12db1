// What a .env file may look like and what it then says: internal/credentials/dotenv.go, against the description in front of
// parseDotenv. The forms and faults name no function of the parser; the lemmas that follow relate the two.
module DotenvForms {
  import opened Text
  import opened Dotenv

  // ---------------------------------------------------------------------------------------------
  // The forms
  // ---------------------------------------------------------------------------------------------

  const CAPITALS := "ABCDEFGHIJKLMNOPQRSTUVWXYZ"
  const SMALL_LETTERS := "abcdefghijklmnopqrstuvwxyz"
  const DIGITS := "0123456789"

  predicate IsLetter(c: char) {
    c in CAPITALS || c in SMALL_LETTERS || c == '_'
  }

  predicate IsName(s: string) {
    s != "" && IsLetter(s[0]) && forall c | c in s :: IsLetter(c) || c in DIGITS
  }

  predicate AllBlank(s: string) {
    forall c | c in s :: c == ' ' || c == '\t'
  }

  predicate IsComment(s: string) {
    s == "" || (s[0] == '#' && '\n' !in s)
  }

  /** A text without blanks at its ends. */
  predicate Tight(s: string) {
    s != "" ==> !AllBlank([s[0]]) && !AllBlank([s[|s| - 1]])
  }

  predicate LikeExport(s: string) {
    |s| > 6 && s[..6] == "export" && AllBlank([s[6]])
  }

  /** What stands before a value: an indent, perhaps export with blanks, the key, a gap and the equals sign. */
  datatype Start = Start(indent: string, exported: Option<string>, key: string, gap: string)

  function StartText(h: Start): string {
    h.indent + (if h.exported.Some? then "export" + h.exported.value else "") + h.key + h.gap + "="
  }

  /** The key is what it seems to be, a name or not: no comment, and no export of another key. */
  predicate StartFits(h: Start) {
    && AllBlank(h.indent) && AllBlank(h.gap) && (h.key == "" ==> h.gap == "")
    && Tight(h.key) && '=' !in h.key && '\n' !in h.key
    && match h.exported
       case None => !LikeExport(h.key + h.gap) && (h.key != "" ==> h.key[0] != '#')
       case Some(blanks) => blanks != "" && AllBlank(blanks)
  }

  /** A character of a double-quoted value, alone or behind a backslash. */
  datatype Piece = Char(c: char) | Backslashed(c: char)

  const ESCAPES := map['n' := "\n", 'r' := "\r", 't' := "\t", '"' := "\"", '\\' := "\\", '$' := "$"]

  predicate PiecesFit(pieces: seq<Piece>) {
    forall p: Piece | p in pieces && p.Char? :: p.c != '"' && p.c != '\\'
  }

  function PiecesText(pieces: seq<Piece>): string {
    if pieces == [] then ""
    else (if pieces[0].Char? then [pieces[0].c] else ['\\', pieces[0].c]) + PiecesText(pieces[1..])
  }

  function PieceValue(p: Piece): string {
    if p.Char? then [p.c] else if p.c in ESCAPES then ESCAPES[p.c] else ['\\', p.c]
  }

  function PiecesValue(pieces: seq<Piece>): string {
    if pieces == [] then "" else PieceValue(pieces[0]) + PiecesValue(pieces[1..])
  }

  function Join(parts: seq<string>, between: string): string
    requires parts != []
  {
    if |parts| == 1 then parts[0] else parts[0] + between + Join(parts[1..], between)
  }

  /** A value without quotes, in parts with backslash and n in between; between single quotes; between double quotes. */
  datatype Body = Bare(parts: seq<string>) | Single(text: string) | Double(pieces: seq<Piece>)

  function BodyText(b: Body): string
    requires b.Bare? ==> b.parts != []
  {
    match b
    case Bare(parts) => Join(parts, "\\n")
    case Single(text) => "'" + text + "'"
    case Double(pieces) => "\"" + PiecesText(pieces) + "\""
  }

  function BodyValue(b: Body): string
    requires b.Bare? ==> b.parts != []
  {
    match b
    case Bare(parts) => Join(parts, "\n")
    case Single(text) => text
    case Double(pieces) => PiecesValue(pieces)
  }

  /** A blank or comment line, or an entry: blanks around the value and a comment after it. */
  datatype Form = Skipped(indent: string, comment: string)
                | Entry(start: Start, lead: string, body: Body, trail: string, comment: string)

  predicate NoPair(s: string) {
    forall i | 0 <= i < |s| - 1 :: !(s[i] == '\\' && s[i + 1] == 'n')
  }

  /** No comment begins in s. */
  predicate NoCommentIn(s: string) {
    forall i | 0 < i < |s| && s[i] == '#' :: !AllBlank([s[i - 1]])
  }

  /** Only a blank lets a comment follow a value without quotes. */
  predicate BareFits(f: Form)
    requires f.Entry? && f.body.Bare?
  {
    && f.body.parts != [] && (forall part | part in f.body.parts :: '\n' !in part && NoPair(part))
    && var text := Join(f.body.parts, "\\n");
       && Tight(text) && (text != "" ==> text[0] != '"' && text[0] != '\'')
       && NoCommentIn(f.lead + text)
       && (f.comment != "" ==> f.trail != "" || (text == "" && f.lead != ""))
  }

  /** Nothing between the quotes ends them. */
  predicate BodyFits(b: Body) {
    match b
    case Bare(_) => false
    case Single(text) => '\'' !in text
    case Double(pieces) => PiecesFit(pieces)
  }

  predicate Fits(f: Form) {
    match f
    case Skipped(indent, comment) => AllBlank(indent) && IsComment(comment)
    case Entry(start, lead, body, trail, comment) =>
      && StartFits(start) && IsName(start.key) && AllBlank(lead) && AllBlank(trail) && IsComment(comment)
      && if body.Bare? then BareFits(f) else BodyFits(body)
  }

  function FormText(f: Form): string
    requires Fits(f)
  {
    match f
    case Skipped(indent, comment) => indent + comment
    case Entry(start, lead, body, trail, comment) => StartText(start) + lead + BodyText(body) + trail + comment
  }

  predicate AllFit(forms: seq<Form>) {
    forall f | f in forms :: Fits(f)
  }

  /** The forms one after the other, each ended by a line break. */
  function FormsText(forms: seq<Form>): string
    requires AllFit(forms)
  {
    if forms == [] then "" else FormText(forms[0]) + "\n" + FormsText(forms[1..])
  }

  /** A later entry wins. */
  function VarsFrom(forms: seq<Form>, vars: map<string, string>): map<string, string>
    requires AllFit(forms)
    decreases |forms|
  {
    if forms == [] then vars else VarsFrom(forms[1..], VarsAfter(forms[0], vars))
  }

  function VarsAfter(f: Form, vars: map<string, string>): map<string, string>
    requires Fits(f)
  {
    if f.Skipped? then vars else vars[f.start.key := BodyValue(f.body)]
  }

  // What is wrong with a file.

  /**
   * A line without an equals sign; a key that is no name; a quote that nothing closes; a text that is no comment after the
   * closing quote.
   */
  datatype Fault = WithoutEquals(indent: string, text: string)
                 | NoName(start: Start, rest: string)
                 | NeverClosed(start: Start, lead: string, body: Body, dangling: string)
                 | MoreText(start: Start, lead: string, body: Body, trail: string, text: string)

  predicate QuotedFits(start: Start, lead: string, body: Body) {
    StartFits(start) && IsName(start.key) && AllBlank(lead) && BodyFits(body)
  }

  /** The text begins with something else than a blank or a comment, and stands in one line. */
  predicate OtherText(text: string) {
    text != "" && '\n' !in text && !AllBlank([text[0]]) && text[0] != '#'
  }

  predicate FaultFits(f: Fault) {
    match f
    case WithoutEquals(indent, text) => AllBlank(indent) && OtherText(text) && '=' !in text
    case NoName(start, rest) => StartFits(start) && !IsName(start.key) && '\n' !in rest
    case NeverClosed(start, lead, body, dangling) =>
      QuotedFits(start, lead, body) && (dangling == "" || (dangling == "\\" && body.Double?))
    case MoreText(start, lead, body, trail, text) => QuotedFits(start, lead, body) && AllBlank(trail) && OtherText(text)
  }

  /** The text of a quoted value without its closing quote. */
  function OpenText(b: Body): string
    requires !b.Bare?
  {
    if b.Single? then "'" + b.text else "\"" + PiecesText(b.pieces)
  }

  function FaultText(f: Fault): string
    requires FaultFits(f)
  {
    match f
    case WithoutEquals(indent, text) => indent + text
    case NoName(start, rest) => StartText(start) + rest
    case NeverClosed(start, lead, body, dangling) => StartText(start) + lead + OpenText(body) + dangling
    case MoreText(start, lead, body, trail, text) => StartText(start) + lead + BodyText(body) + trail + text
  }

  function ProblemOf(f: Fault): Problem {
    match f
    case WithoutEquals(_, _) => NoEquals
    case NoName(_, _) => InvalidName
    case NeverClosed(_, _, _, _) => Unterminated
    case MoreText(_, _, _, _, _) => TrailingText
  }

  // The file.

  const MARK: string := [0xEF as char, 0xBB as char, 0xBF as char]

  /** A line as it is stored: one carriage return may stand at its end. */
  predicate EndsAs(raw: string, line: string) {
    raw == line + "\r" || (raw == line && (line != "" ==> line[|line| - 1] != '\r'))
  }

  predicate StoredAs(data: string, text: string, mark: string, raws: seq<string>, lines: seq<string>)
    requires raws != [] && lines != []
  {
    && data == mark + Join(raws, "\n") && (mark == MARK || (mark == "" && !(MARK <= data)))
    && text == Join(lines, "\n")
  }

  /** The file is the text, perhaps behind a byte order mark and with carriage returns before line breaks or at the end. */
  ghost predicate Stored(data: string, text: string) {
    exists mark: string, raws: seq<string>, lines: seq<string> ::
      raws != [] && LinesStored(raws, lines) && StoredAs(data, text, mark, raws, lines)
  }

  predicate LinesStored(raws: seq<string>, lines: seq<string>) {
    |raws| == |lines| && forall k | 0 <= k < |raws| :: '\n' !in raws[k] && EndsAs(raws[k], lines[k])
  }

  /** The file holds these forms and nothing else; the last line break may be missing. */
  ghost predicate Holds(data: string, forms: seq<Form>)
    requires AllFit(forms)
  {
    exists text: string :: Stored(data, text) && text + "\n" == FormsText(forms)
  }

  /** The file holds these forms, then the fault, and then anything in new lines; after an open quote nothing more. */
  ghost predicate HoldsFault(data: string, forms: seq<Form>, fault: Fault)
    requires AllFit(forms) && FaultFits(fault)
  {
    exists rest: string :: FaultRest(fault, rest) && Stored(data, FormsText(forms) + (FaultText(fault) + rest))
  }

  predicate FaultRest(fault: Fault, rest: string) {
    rest == "" || (rest[0] == '\n' && !fault.NeverClosed?)
  }

  // ---------------------------------------------------------------------------------------------
  // Names and blanks
  // ---------------------------------------------------------------------------------------------

  lemma CapitalExactly(c: char)
    ensures c in CAPITALS <==> 'A' <= c <= 'Z'
  {
  }

  lemma SmallLetterExactly(c: char)
    ensures c in SMALL_LETTERS <==> 'a' <= c <= 'z'
  {
  }

  lemma DigitExactly(c: char)
    ensures c in DIGITS <==> IsDigit(c)
  {
  }

  lemma NameExactly(s: string)
    ensures IsName(s) <==> ValidName(s)
  {
    hide IsLetter, NameStart, IsDigit;
    forall c: char ensures (IsLetter(c) <==> NameStart(c)) && (c in DIGITS <==> IsDigit(c)) {
      LetterExactly(c);
      DigitExactly(c);
    }
    NameByCharacters(s);
  }

  lemma LetterExactly(c: char)
    ensures IsLetter(c) <==> NameStart(c)
  {
    CapitalExactly(c);
    SmallLetterExactly(c);
  }

  lemma NameByCharacters(s: string)
    requires forall c: char :: (IsLetter(c) <==> NameStart(c)) && (c in DIGITS <==> IsDigit(c))
    ensures IsName(s) <==> ValidName(s)
  {
    hide IsLetter, NameStart, IsDigit;
    if ValidName(s) {
      forall c | c in s ensures IsLetter(c) || c in DIGITS {
        var j :| 0 <= j < |s| && s[j] == c;
        assert NameStart(s[j]) || IsDigit(s[j]);
      }
    }
    if IsName(s) {
      forall j | 0 <= j < |s| ensures NameStart(s[j]) || IsDigit(s[j]) {
        assert s[j] in s;
      }
    }
  }

  lemma {:induction false} TrimLeadOf(blanks: string, s: string)
    requires AllBlank(blanks) && (s != "" ==> !AllBlank([s[0]]))
    ensures TrimBlankLeft(blanks + s) == s
  {
    if blanks == "" {
      assert blanks + s == s;
      assert s != "" ==> s[0] in [s[0]];
    } else {
      assert blanks[0] in blanks;
      assert (blanks + s)[1..] == blanks[1..] + s;
      assert forall c | c in blanks[1..] :: c in blanks;
      TrimLeadOf(blanks[1..], s);
    }
  }

  lemma {:induction false} TrimTrailOf(s: string, blanks: string)
    requires AllBlank(blanks) && (s != "" ==> !AllBlank([s[|s| - 1]]))
    ensures TrimBlankRight(s + blanks) == s
  {
    if blanks == "" {
      assert s + blanks == s;
    } else {
      assert blanks[|blanks| - 1] in blanks;
      var fewer := blanks[..|blanks| - 1];
      assert (s + blanks)[..|s + blanks| - 1] == s + fewer && blanks == fewer + [blanks[|blanks| - 1]];
      forall c | c in fewer ensures c == ' ' || c == '\t' {
        assert c in blanks;
      }
      TrimTrailOf(s, fewer);
    }
  }

  // ---------------------------------------------------------------------------------------------
  // The line that starts an entry
  // ---------------------------------------------------------------------------------------------

  /** What follows indent and export. */
  function Declared(h: Start, after: string): string {
    h.key + h.gap + "=" + after
  }

  lemma DeclaredBegins(h: Start, after: string)
    requires StartFits(h)
    ensures Declared(h, after) != "" && !AllBlank([Declared(h, after)[0]])
    ensures h.exported.None? ==> Declared(h, after)[0] != '#'
  {
    if h.key != "" {
      assert Declared(h, after)[0] == h.key[0];
    } else {
      assert Declared(h, after) == "=" + after;
      assert '=' in ['='];
    }
  }

  lemma StrippedStart(h: Start, after: string)
    requires StartFits(h)
    ensures var line := if h.exported.Some? then "export" + h.exported.value + Declared(h, after) else Declared(h, after);
            TrimBlankLeft(StartText(h) + after) == line && line != "" && line[0] != '#'
  {
    hide TrimBlankLeft;
    DeclaredBegins(h, after);
    var line := if h.exported.Some? then "export" + h.exported.value + Declared(h, after) else Declared(h, after);
    assert StartText(h) + after == h.indent + line;
    assert line[0] != '#' && !AllBlank([line[0]]) by {
      if h.exported.Some? {
        assert line[0] == 'e' && 'e' in ['e'];
      }
    }
    TrimLeadOf(h.indent, line);
  }

  lemma ExportDropped(h: Start, after: string)
    requires StartFits(h) && h.exported.Some?
    ensures WithoutExport("export" + h.exported.value + Declared(h, after)) == Declared(h, after)
  {
    hide TrimBlankLeft;
    DeclaredBegins(h, after);
    var line := "export" + h.exported.value + Declared(h, after);
    assert h.exported.value[0] in h.exported.value && line[6] == h.exported.value[0];
    assert line[..6] == "export" && line[6..] == h.exported.value + Declared(h, after);
    TrimLeadOf(h.exported.value, Declared(h, after));
  }

  lemma BlankAlone(c: char)
    ensures AllBlank([c]) <==> Blank(c)
  {
    assert c in [c];
  }

  lemma ExportSeen(head: string, after: string)
    requires '=' !in head
    ensures var line := head + "=" + after;
            "export" <= line && |line| > 6 && Blank(line[6]) <==> LikeExport(head)
  {
    var line := head + "=" + after;
    assert line[|head|] == '=';
    if |head| > 6 {
      assert line[..6] == head[..6] && line[6] == head[6];
      BlankAlone(head[6]);
    } else if |head| < 6 {
      assert "export"[|head|] != '=';
    }
  }

  lemma NothingDropped(h: Start, after: string)
    requires StartFits(h) && h.exported.None?
    ensures WithoutExport(Declared(h, after)) == Declared(h, after)
  {
    hide TrimBlankLeft;
    ExportSeen(h.key + h.gap, after);
  }

  lemma KeyCut(h: Start, after: string)
    requires StartFits(h)
    ensures var decl, eq := Declared(h, after), |h.key + h.gap|;
            && IndexOf(decl, '=') == eq < |decl| && decl[eq + 1..] == after && TrimBlankRight(decl[..eq]) == h.key
  {
    hide IndexOf, TrimBlankRight;
    var decl, head := Declared(h, after), h.key + h.gap;
    assert decl[..|head|] == head && decl[|head| + 1..] == after;
    assert '=' !in head;
    IndexOfIs(decl, '=', |head|);
    TrimTrailOf(h.key, h.gap);
  }

  /** The line is taken apart where it was put together. */
  lemma StartParses(raw: string, h: Start, after: string)
    requires StartFits(h) && TrimCR(raw) == StartText(h) + after
    ensures var value := TrimBlankLeft(after);
            LineOf(raw) == if !ValidName(h.key) then Wrong(InvalidName)
                           else if value == "" || (value[0] != '"' && value[0] != '\'') then Plain(h.key, after)
                           else Quotes(h.key, value)
  {
    hide TrimCR, TrimBlankLeft, TrimBlankRight, WithoutExport, IndexOf, ValidName, StartFits, StartText, Declared;
    StrippedStart(h, after);
    if h.exported.Some? {
      ExportDropped(h, after);
    } else {
      NothingDropped(h, after);
    }
    KeyCut(h, after);
  }

  // ---------------------------------------------------------------------------------------------
  // Values without quotes
  // ---------------------------------------------------------------------------------------------

  lemma {:induction false} BreakBetween(part: string, rest: string)
    requires NoPair(part)
    ensures BreakLines(part + "\\n" + rest) == part + "\n" + BreakLines(rest)
  {
    var s := part + "\\n" + rest;
    if part == "" {
      assert s[0] == '\\' && s[1] == 'n' && s[2..] == rest;
    } else {
      var others := part[1..];
      assert NoPair(others) by {
        assert forall i | 0 <= i < |others| :: others[i] == part[i + 1];
      }
      assert s[1] == if others == "" then '\\' else others[0];
      OneKept(s, part[0], others + "\\n" + rest);
      BreakBetween(others, rest);
      assert part == [part[0]] + others;
    }
  }

  lemma OneKept(s: string, c: char, rest: string)
    requires s == [c] + rest && !(c == '\\' && rest != "" && rest[0] == 'n')
    ensures BreakLines(s) == [c] + BreakLines(rest)
  {
    assert s[1..] == rest;
  }

  lemma {:induction false} NoBreakIn(part: string)
    requires NoPair(part)
    ensures BreakLines(part) == part
  {
    if |part| >= 2 {
      assert forall i | 0 <= i < |part| - 1 :: part[1..][i] == part[i + 1];
      NoBreakIn(part[1..]);
    }
  }

  lemma {:induction false} BreaksBetween(parts: seq<string>)
    requires parts != [] && forall part | part in parts :: NoPair(part)
    ensures BreakLines(Join(parts, "\\n")) == Join(parts, "\n")
  {
    hide BreakLines, NoPair;
    if |parts| == 1 {
      NoBreakIn(parts[0]);
    } else {
      BreakBetween(parts[0], Join(parts[1..], "\\n"));
      BreaksBetween(parts[1..]);
    }
  }

  /** A value without quotes is what stands between the blanks. */
  lemma BareMeans(f: Form)
    requires Fits(f) && f.Entry? && f.body.Bare?
    ensures var after := f.lead + BodyText(f.body) + f.trail + f.comment; var value := TrimBlankLeft(after);
            (value == "" || (value[0] != '"' && value[0] != '\'')) && Unquoted(after) == BodyValue(f.body)
  {
    hide TrimBlankLeft, TrimBlankRight, BreakLines, Join, NoPair, StartFits, IsName;
    var text := BodyText(f.body);
    var kept := f.lead + text + f.trail;
    var after := kept + f.comment;
    NoCommentBefore(f);
    CommentAt(after, |kept|);
    assert after[..|kept|] == kept;
    assert kept == f.lead + (text + f.trail);
    BlankStart(f);
    if text == "" {
      TrimOnly(f.lead + f.trail);
      assert kept == f.lead + f.trail;
    } else {
      TrimLeadOf(f.lead, text + f.trail);
      TrimTrailOf(text, f.trail);
    }
    BreaksBetween(f.body.parts);
  }

  lemma TrimOnly(blanks: string)
    requires AllBlank(blanks)
    ensures TrimBlankRight(TrimBlankLeft(blanks)) == ""
  {
    hide TrimBlankLeft;
    assert blanks + "" == blanks;
    TrimLeadOf(blanks, "");
  }

  lemma NoCommentBefore(f: Form)
    requires Fits(f) && f.Entry? && f.body.Bare?
    ensures var kept := f.lead + BodyText(f.body) + f.trail; var after := kept + f.comment;
            (forall i | 0 <= i < |kept| :: !StartsComment(after, i)) && (|kept| < |after| ==> StartsComment(after, |kept|))
  {
    hide Join, NoPair, StartFits, IsName;
    var text := BodyText(f.body);
    var front := f.lead + text;
    var kept := front + f.trail;
    var after := kept + f.comment;
    forall i | 0 <= i < |kept| ensures !StartsComment(after, i) {
      if i < |front| {
        assert after[i] == front[i] && (i > 0 ==> after[i - 1] == front[i - 1]);
        if i > 0 {
          BlankAlone(front[i - 1]);
        }
      } else {
        assert after[i] in f.trail;
      }
    }
    if f.comment != "" {
      assert after[|kept|] == '#';
      assert f.trail != "" ==> kept[|kept| - 1] in f.trail;
      assert f.trail == "" ==> kept[|kept| - 1] in f.lead;
    }
  }

  lemma BlankStart(f: Form)
    requires Fits(f) && f.Entry? && f.body.Bare?
    ensures var value := TrimBlankLeft(f.lead + BodyText(f.body) + f.trail + f.comment);
            value == "" || (value[0] != '"' && value[0] != '\'')
  {
    hide TrimBlankLeft, Join, NoPair, StartFits, IsName;
    var text := BodyText(f.body);
    var after := f.lead + text + f.trail + f.comment;
    if text == "" {
      assert after == (f.lead + f.trail) + f.comment;
      assert '#' in ['#'];
      TrimLeadOf(f.lead + f.trail, f.comment);
    } else {
      assert after == f.lead + (text + f.trail + f.comment);
      TrimLeadOf(f.lead, text + f.trail + f.comment);
    }
  }

  // ---------------------------------------------------------------------------------------------
  // Values between quotes
  // ---------------------------------------------------------------------------------------------

  lemma {:induction false} PiecesMean(pieces: seq<Piece>)
    requires PiecesFit(pieces)
    ensures Unescape(PiecesText(pieces)) == PiecesValue(pieces)
  {
    hide Unescape;
    if pieces == [] {
      EmptyText();
    } else {
      assert pieces[0] in pieces && forall p | p in pieces[1..] :: p in pieces;
      PieceMeans(pieces[0], PiecesText(pieces[1..]));
      PiecesMean(pieces[1..]);
    }
  }

  lemma EmptyText()
    ensures Unescape("") == ""
  {
  }

  lemma PieceMeans(p: Piece, rest: string)
    requires p.Char? ==> p.c != '\\'
    ensures Unescape((if p.Char? then [p.c] else ['\\', p.c]) + rest) == PieceValue(p) + Unescape(rest)
  {
    var u := if p.Char? then [p.c] else ['\\', p.c];
    assert (u + rest)[|u|..] == rest;
  }

  /** The pieces close nothing, and escape nothing behind them. */
  lemma {:induction false} PiecesStayOpen(before: string, pieces: seq<Piece>, after: string)
    requires PiecesFit(pieces) && !Escaped(before, '"', |before|)
    ensures var end := |before + PiecesText(pieces)|; var all := before + PiecesText(pieces) + after;
            (forall k | |before| <= k < end :: !Closes(all, '"', k)) && !Escaped(all, '"', end)
    decreases |pieces|
  {
    hide Closes;
    var all := before + PiecesText(pieces) + after;
    if pieces == [] {
      assert before + PiecesText(pieces) == before;
      SamePrefix(before, all, |before|);
    } else {
      assert pieces[0] in pieces && forall p | p in pieces[1..] :: p in pieces;
      var u := if pieces[0].Char? then [pieces[0].c] else ['\\', pieces[0].c];
      var more := PiecesText(pieces[1..]);
      PieceStaysOpen(before, pieces[0], more + after);
      assert before + (u + (more + after)) == all;
      assert before + u + more == before + PiecesText(pieces);
      PiecesStayOpen(before + u, pieces[1..], after);
      assert before + u + more + after == all;
    }
  }

  lemma PieceStaysOpen(before: string, p: Piece, after: string)
    requires !Escaped(before, '"', |before|) && (p.Char? ==> p.c != '"' && p.c != '\\')
    ensures var u := if p.Char? then [p.c] else ['\\', p.c]; var next := before + u;
            !Escaped(next, '"', |next|) && forall k | |before| <= k < |next| :: !Closes(before + (u + after), '"', k)
  {
    var u := if p.Char? then [p.c] else ['\\', p.c];
    var next := before + u;
    var all := before + (u + after);
    assert next + after == all;
    SamePrefix(before, all, |before|);
    SamePrefix(next, all, |next|);
    NextBackslashes(all, |before|);
    if |u| == 2 {
      NextBackslashes(all, |before| + 1);
    }
    assert forall k | |before| <= k < |next| :: all[k] == u[k - |before|];
  }

  function QuoteOf(b: Body): char {
    if b.Single? then '\'' else '"'
  }

  /** What stands between the quotes. */
  function Inside(b: Body): string
    requires !b.Bare?
  {
    if b.Single? then b.text else PiecesText(b.pieces)
  }

  lemma BodyCloses(b: Body, after: string)
    requires BodyFits(b)
    ensures FirstClose(Inside(b) + [QuoteOf(b)] + after, QuoteOf(b), 0) == |Inside(b)|
  {
    hide FirstClose;
    var inside, quote := Inside(b), QuoteOf(b);
    var all := inside + [quote] + after;
    assert all[|inside|] == quote;
    if b.Single? {
      assert forall k | 0 <= k < |inside| :: all[k] == inside[k];
    } else {
      PiecesStayOpen("", b.pieces, [quote] + after);
      assert "" + inside == inside && inside + ([quote] + after) == all;
    }
    FirstCloseIs(all, quote, |inside|);
  }

  lemma BodyStaysOpen(b: Body, dangling: string)
    requires BodyFits(b) && (dangling == "" || (dangling == "\\" && b.Double?))
    ensures FirstClose(Inside(b) + dangling, QuoteOf(b), 0) == |Inside(b) + dangling|
  {
    hide FirstClose;
    var inside, quote := Inside(b), QuoteOf(b);
    var all := inside + dangling;
    if b.Double? {
      PiecesStayOpen("", b.pieces, dangling);
      assert "" + inside == inside;
    }
    FirstCloseIs(all, quote, |all|);
  }

  lemma FirstCloseIs(body: string, quote: char, e: nat)
    requires e <= |body| && (forall k | 0 <= k < e :: !Closes(body, quote, k)) && (e < |body| ==> Closes(body, quote, e))
    ensures FirstClose(body, quote, 0) == e
  {
  }

  function Contents(raws: seq<string>): (lines: seq<string>)
    ensures |lines| == |raws| && forall k | 0 <= k < |raws| :: lines[k] == TrimCR(raws[k])
  {
    seq(|raws|, k requires 0 <= k < |raws| => TrimCR(raws[k]))
  }

  /** A value between quotes that span lines is put together again, and what follows it is looked at. */
  lemma {:induction false} QuotedEnds(raws: seq<string>, at: nat, body: string, quote: char, v: string, after: string, more: seq<string>)
    requires at < |raws| && Stands(Contents(raws), at + 1, more) && body + Tail(more) == v + [quote] + after
    requires quote != '\n' && '\n' !in after && FirstClose(v + [quote] + after, quote, 0) == |v|
    ensures var t := TrimBlankLeft(after);
            Quoted(raws, at, body, quote) == if t != "" && t[0] != '#' then Broken(TrailingText) else Closed(v, at + |more|)
    decreases |more|
  {
    hide FirstClose, TrimBlankLeft, TrimCR;
    var all := v + [quote] + after;
    if more == [] {
      assert body == all;
      assert body[|v| + 1..] == after && body[..|v|] == v;
      QuotedCloses(raws, at, body, quote);
    } else {
      StandsFirst(Contents(raws), at + 1, more);
      var next := body + "\n" + more[0];
      assert next + Tail(more[1..]) == all;
      assert all[|body|] == '\n' by { assert (body + Tail(more))[|body|] == '\n'; }
      assert |body| <= |v| by {
        assert forall j | |v| <= j < |all| :: all[j] == ([quote] + after)[j - |v|];
      }
      ShorterIsOpen(body, quote, all);
      QuotedGoesOn(raws, at, body, quote);
      QuotedEnds(raws, at + 1, next, quote, v, after, more[1..]);
    }
  }

  /** A quote that nothing closes is looked for to the end of the file. */
  lemma {:induction false} QuotedNeverEnds(raws: seq<string>, at: nat, body: string, quote: char, more: seq<string>)
    requires at + 1 + |more| == |raws| && Stands(Contents(raws), at + 1, more)
    requires FirstClose(body + Tail(more), quote, 0) == |body + Tail(more)|
    ensures Quoted(raws, at, body, quote) == Broken(Unterminated)
    decreases |more|
  {
    hide FirstClose, TrimCR;
    ShorterIsOpen(body, quote, body + Tail(more));
    QuotedGoesOn(raws, at, body, quote);
    if more != [] {
      StandsFirst(Contents(raws), at + 1, more);
      var next := body + "\n" + more[0];
      assert next + Tail(more[1..]) == body + Tail(more);
      QuotedNeverEnds(raws, at + 1, next, quote, more[1..]);
    }
  }

  /** What is cut off before the first closing quote is not closed. */
  lemma ShorterIsOpen(body: string, quote: char, all: string)
    requires body <= all && |body| <= FirstClose(all, quote, 0)
    ensures FirstClose(body, quote, 0) == |body|
  {
    forall k | 0 <= k < |body| ensures !Closes(body, quote, k) {
      SamePrefix(body, all, k);
      assert !Closes(all, quote, k);
    }
  }

  // ---------------------------------------------------------------------------------------------
  // Forms and faults among the lines of a file
  // ---------------------------------------------------------------------------------------------

  lemma BlanksStayInLine(s: string)
    requires AllBlank(s)
    ensures '\n' !in s
  {
  }

  lemma StartStaysInLine(h: Start)
    requires StartFits(h)
    ensures '\n' !in StartText(h)
  {
    BlanksStayInLine(h.indent);
    BlanksStayInLine(h.gap);
    if h.exported.Some? {
      BlanksStayInLine(h.exported.value);
      assert '\n' !in "export";
    }
  }

  lemma {:induction false} JoinStaysInLine(parts: seq<string>, between: string)
    requires parts != [] && '\n' !in between && forall part | part in parts :: '\n' !in part
    ensures '\n' !in Join(parts, between)
  {
    if |parts| > 1 {
      JoinStaysInLine(parts[1..], between);
    }
  }

  lemma OnlyLine(raws: seq<string>, i: nat, line: string)
    requires '\n' !in line && Stands(Contents(raws), i, SplitLines(line))
    ensures SplitLines(line) == [line] && i < |raws| && TrimCR(raws[i]) == line
  {
    hide SplitLines, TrimCR, Stands;
    OneLine(line);
    StandsFirst(Contents(raws), i, [line]);
  }

  /** A blank or comment line says nothing. */
  lemma SkippedParses(raws: seq<string>, i: nat, vars: map<string, string>, f: Form)
    requires Fits(f) && f.Skipped? && Stands(Contents(raws), i, SplitLines(FormText(f)))
    ensures |SplitLines(FormText(f))| == 1 && i < |raws| && ParseFrom(raws, i, vars) == ParseFrom(raws, i + 1, vars)
  {
    hide SplitLines, Stands, TrimCR, TrimBlankLeft;
    BlanksStayInLine(f.indent);
    OnlyLine(raws, i, f.indent + f.comment);
    assert '#' in ['#'];
    TrimLeadOf(f.indent, f.comment);
  }

  lemma BareParses(raws: seq<string>, i: nat, vars: map<string, string>, f: Form)
    requires Fits(f) && f.Entry? && f.body.Bare? && Stands(Contents(raws), i, SplitLines(FormText(f)))
    ensures |SplitLines(FormText(f))| == 1 && i < |raws| && ParseFrom(raws, i, vars) == ParseFrom(raws, i + 1, VarsAfter(f, vars))
  {
    hide SplitLines, Stands, TrimCR, TrimBlankLeft, LineOf, Unquoted, StartFits, StartText, IsName, Join;
    var after := f.lead + BodyText(f.body) + f.trail + f.comment;
    StartStaysInLine(f.start);
    BlanksStayInLine(f.lead);
    BlanksStayInLine(f.trail);
    assert '\n' !in "\\n";
    JoinStaysInLine(f.body.parts, "\\n");
    assert FormText(f) == StartText(f.start) + after;
    OnlyLine(raws, i, FormText(f));
    BareMeans(f);
    NameExactly(f.start.key);
    StartParses(raws[i], f.start, after);
  }

  /** A line with an opening quote, and what follows it to the end of its lines. */
  lemma QuoteParses(raws: seq<string>, i: nat, start: Start, lead: string, body: Body, inside: string)
    requires QuotedFits(start, lead, body)
    requires Stands(Contents(raws), i, SplitLines(StartText(start) + lead + [QuoteOf(body)] + inside))
    ensures var pieces := SplitLines(inside);
            && |SplitLines(StartText(start) + lead + [QuoteOf(body)] + inside)| == |pieces|
            && i + |pieces| <= |raws| && Stands(Contents(raws), i + 1, pieces[1..])
            && LineOf(raws[i]) == Quotes(start.key, [QuoteOf(body)] + pieces[0])
  {
    hide SplitLines, Stands, TrimCR, TrimBlankLeft, LineOf, StartFits, StartText, IsName;
    var quote := QuoteOf(body);
    var head := StartText(start) + lead + [quote];
    var pieces := SplitLines(inside);
    StartStaysInLine(start);
    BlanksStayInLine(lead);
    SplitPrefixed(head, inside);
    var own := SplitLines(head + inside);
    assert own[0] == head + pieces[0] && own[1..] == pieces[1..];
    StandsWithin(Contents(raws), i, own);
    StandsFirst(Contents(raws), i, own);
    var after := lead + ([quote] + pieces[0]);
    assert own[0] == StartText(start) + after;
    BlankAlone(quote);
    assert ([quote] + pieces[0])[0] == quote;
    TrimLeadOf(lead, [quote] + pieces[0]);
    NameExactly(start.key);
    StartParses(raws[i], start, after);
  }

  lemma StandsWithin(lines: seq<string>, i: nat, part: seq<string>)
    requires Stands(lines, i, part)
    ensures i + |part| <= |lines|
  {
  }

  /** What the parser makes of a quoted value with a text after its closing quote. */
  lemma ClosedParses(raws: seq<string>, i: nat, vars: map<string, string>, start: Start, lead: string, body: Body, after: string)
    requires QuotedFits(start, lead, body) && '\n' !in after
    requires Stands(Contents(raws), i, SplitLines(StartText(start) + lead + BodyText(body) + after))
    ensures var n := |SplitLines(StartText(start) + lead + BodyText(body) + after)|; var t := TrimBlankLeft(after);
            && 0 < n && i + n <= |raws|
            && ParseFrom(raws, i, vars) == if t != "" && t[0] != '#' then Failed(i + 1, TrailingText)
                                           else ParseFrom(raws, i + n, vars[start.key := BodyValue(body)])
  {
    hide SplitLines, Stands, TrimCR, TrimBlankLeft, LineOf, StartFits, StartText, IsName, Quoted, FirstClose, Unescape;
    var quote, v := QuoteOf(body), Inside(body);
    var inside := v + [quote] + after;
    assert StartText(start) + lead + BodyText(body) + after == StartText(start) + lead + [quote] + inside;
    QuoteParses(raws, i, start, lead, body, inside);
    var pieces := SplitLines(inside);
    LinesOf(inside);
    BodyCloses(body, after);
    QuotedEnds(raws, i, pieces[0], quote, v, after, pieces[1..]);
    var value := [quote] + pieces[0];
    assert value[1..] == pieces[0] && value[0] == quote;
    BodyMeans(body);
  }

  lemma BodyMeans(b: Body)
    requires BodyFits(b)
    ensures BodyValue(b) == if QuoteOf(b) == '"' then Unescape(Inside(b)) else Inside(b)
  {
    hide Unescape;
    if b.Double? {
      PiecesMean(b.pieces);
    }
  }

  lemma FormParses(raws: seq<string>, i: nat, vars: map<string, string>, f: Form)
    requires Fits(f) && Stands(Contents(raws), i, SplitLines(FormText(f)))
    ensures var n := |SplitLines(FormText(f))|;
            i + n <= |raws| && ParseFrom(raws, i, vars) == ParseFrom(raws, i + n, VarsAfter(f, vars))
  {
    hide SplitLines, Stands, TrimBlankLeft, ParseFrom, StartFits, StartText, IsName, BodyText, BodyFits, BareFits;
    if f.Skipped? {
      SkippedParses(raws, i, vars, f);
    } else if f.body.Bare? {
      BareParses(raws, i, vars, f);
    } else {
      var after := f.trail + f.comment;
      BlanksStayInLine(f.trail);
      assert '\n' !in after;
      assert FormText(f) == StartText(f.start) + f.lead + BodyText(f.body) + after;
      ClosedParses(raws, i, vars, f.start, f.lead, f.body, after);
      CommentTrimmed(f.trail, f.comment);
    }
  }

  lemma CommentTrimmed(trail: string, comment: string)
    requires AllBlank(trail) && IsComment(comment)
    ensures TrimBlankLeft(trail + comment) == comment
  {
    hide TrimBlankLeft;
    assert '#' in ['#'];
    TrimLeadOf(trail, comment);
  }

  /** Every fault is reported with its line and its kind. */
  lemma FaultParses(raws: seq<string>, i: nat, vars: map<string, string>, f: Fault)
    requires FaultFits(f) && Stands(Contents(raws), i, SplitLines(FaultText(f)))
    requires f.NeverClosed? ==> i + |SplitLines(FaultText(f))| == |raws|
    ensures i < |raws| && ParseFrom(raws, i, vars) == Failed(i + 1, ProblemOf(f))
  {
    hide SplitLines, Stands, TrimBlankLeft, ParseFrom, StartFits, StartText, IsName, BodyText, PiecesFit;
    match f
    case WithoutEquals(indent, text) => NoEqualsParses(raws, i, vars, indent, text);
    case NoName(start, rest) => NoNameParses(raws, i, vars, start, rest);
    case NeverClosed(start, lead, body, dangling) => OpenParses(raws, i, vars, start, lead, body, dangling);
    case MoreText(start, lead, body, trail, text) =>
      var after := trail + text;
      BlanksStayInLine(trail);
      assert FaultText(f) == StartText(start) + lead + BodyText(body) + after;
      ClosedParses(raws, i, vars, start, lead, body, after);
      TrimLeadOf(trail, text);
  }

  lemma NoEqualsParses(raws: seq<string>, i: nat, vars: map<string, string>, indent: string, text: string)
    requires AllBlank(indent) && OtherText(text) && '=' !in text
    requires Stands(Contents(raws), i, SplitLines(indent + text))
    ensures i < |raws| && ParseFrom(raws, i, vars) == Failed(i + 1, NoEquals)
  {
    hide SplitLines, Stands, TrimCR, TrimBlankLeft, IndexOf;
    BlanksStayInLine(indent);
    OnlyLine(raws, i, indent + text);
    TrimLeadOf(indent, text);
    ExportKeepsNoEquals(text);
    var decl := WithoutExport(text);
    assert decl[..|decl|] == decl;
    IndexOfIs(decl, '=', |decl|);
  }

  lemma ExportKeepsNoEquals(text: string)
    ensures '=' in WithoutExport(text) ==> '=' in text
  {
    hide TrimBlankLeft;
    if "export" <= text && |text| > 6 {
      TrimKeeps(text[6..]);
    }
  }

  lemma {:induction false} TrimKeeps(s: string)
    ensures '=' in TrimBlankLeft(s) ==> '=' in s
  {
    if s != "" {
      TrimKeeps(s[1..]);
    }
  }

  lemma NoNameParses(raws: seq<string>, i: nat, vars: map<string, string>, start: Start, rest: string)
    requires StartFits(start) && !IsName(start.key) && '\n' !in rest
    requires Stands(Contents(raws), i, SplitLines(StartText(start) + rest))
    ensures i < |raws| && ParseFrom(raws, i, vars) == Failed(i + 1, InvalidName)
  {
    hide SplitLines, Stands, TrimCR, TrimBlankLeft, LineOf, StartFits, StartText, IsName;
    StartStaysInLine(start);
    OnlyLine(raws, i, StartText(start) + rest);
    NameExactly(start.key);
    StartParses(raws[i], start, rest);
  }

  lemma OpenParses(raws: seq<string>, i: nat, vars: map<string, string>, start: Start, lead: string, body: Body, dangling: string)
    requires QuotedFits(start, lead, body) && (dangling == "" || (dangling == "\\" && body.Double?))
    requires Stands(Contents(raws), i, SplitLines(StartText(start) + lead + OpenText(body) + dangling))
    requires i + |SplitLines(StartText(start) + lead + OpenText(body) + dangling)| == |raws|
    ensures i < |raws| && ParseFrom(raws, i, vars) == Failed(i + 1, Unterminated)
  {
    hide SplitLines, Stands, TrimCR, TrimBlankLeft, LineOf, StartFits, StartText, IsName, Quoted, FirstClose;
    var quote, inside := QuoteOf(body), Inside(body) + dangling;
    assert StartText(start) + lead + OpenText(body) + dangling == StartText(start) + lead + [quote] + inside;
    QuoteParses(raws, i, start, lead, body, inside);
    var pieces := SplitLines(inside);
    LinesOf(inside);
    BodyStaysOpen(body, dangling);
    QuotedNeverEnds(raws, i, pieces[0], quote, pieces[1..]);
    var value := [quote] + pieces[0];
    assert value[1..] == pieces[0] && value[0] == quote;
  }

  /** Forms at the front of the lines that are left. */
  lemma {:induction false} FormsParse(raws: seq<string>, i: nat, vars: map<string, string>, forms: seq<Form>, after: string)
    requires AllFit(forms) && Stands(Contents(raws), i, SplitLines(FormsText(forms) + after))
    ensures var n := multiset(FormsText(forms))['\n'];
            && Stands(Contents(raws), i + n, SplitLines(after)) && i + n < |raws|
            && ParseFrom(raws, i, vars) == ParseFrom(raws, i + n, VarsFrom(forms, vars))
            && |SplitLines(FormsText(forms) + after)| == n + |SplitLines(after)|
    decreases |forms|
  {
    hide SplitLines, Stands, ParseFrom, Fits, FormText, VarsAfter;
    if forms == [] {
      assert FormsText(forms) + after == after;
      StandsWithin(Contents(raws), i, SplitLines(after));
    } else {
      var f, rest := forms[0], forms[1..];
      var own := SplitLines(FormText(f));
      assert FormsText(forms) + after == FormText(f) + "\n" + (FormsText(rest) + after);
      SplitJoined(FormText(f), FormsText(rest) + after);
      StandsApart(Contents(raws), i, own, SplitLines(FormsText(rest) + after));
      FormParses(raws, i, vars, f);
      FormsParse(raws, i + |own|, VarsAfter(f, vars), rest, after);
      LinesCounted(FormText(f));
      assert multiset(FormsText(forms)) == multiset(FormText(f)) + multiset{'\n'} + multiset(FormsText(rest));
    }
  }

  lemma {:induction false} LinesCounted(text: string)
    ensures |SplitLines(text)| == 1 + multiset(text)['\n']
    decreases |text|
  {
    hide IndexOf;
    var j := IndexOf(text, '\n');
    if j < |text| {
      LinesCounted(text[j + 1..]);
      assert text == text[..j] + ['\n'] + text[j + 1..];
      assert multiset(text) == multiset(text[..j]) + multiset{'\n'} + multiset(text[j + 1..]);
    } else {
      assert text[..j] == text;
    }
  }

  // ---------------------------------------------------------------------------------------------
  // Files
  // ---------------------------------------------------------------------------------------------

  function BodyOf(data: string): string {
    if BOM <= data then data[3..] else data
  }

  lemma {:induction false} SplitJoin(lines: seq<string>)
    requires lines != [] && forall line | line in lines :: '\n' !in line
    ensures SplitLines(Join(lines, "\n")) == lines
  {
    hide IndexOf, SplitLines;
    OneLine(lines[0]);
    if |lines| > 1 {
      SplitJoined(lines[0], Join(lines[1..], "\n"));
      SplitJoin(lines[1..]);
      assert lines == [lines[0]] + lines[1..];
    }
  }

  lemma EndsExactly(raw: string, line: string)
    ensures EndsAs(raw, line) <==> TrimCR(raw) == line
  {
    if raw != "" && raw[|raw| - 1] == '\r' {
      assert raw == raw[..|raw| - 1] + "\r";
    }
  }

  /** The lines of a stored text. */
  lemma StoredLines(data: string, text: string)
    requires Stored(data, text)
    ensures SplitLines(text) == Contents(SplitLines(BodyOf(data)))
  {
    hide SplitLines, Join, TrimCR, EndsAs;
    var mark, raws, lines :| raws != [] && LinesStored(raws, lines) && StoredAs(data, text, mark, raws, lines);
    assert BOM == MARK;
    assert BodyOf(data) == Join(raws, "\n");
    forall k | 0 <= k < |raws| ensures '\n' !in lines[k] && TrimCR(raws[k]) == lines[k] {
      EndsExactly(raws[k], lines[k]);
      NoBreakAdded(raws[k], lines[k]);
    }
    SplitJoin(raws);
    SplitJoin(lines);
    assert Contents(raws) == lines;
  }

  lemma NoBreakAdded(raw: string, line: string)
    requires EndsAs(raw, line) && '\n' !in raw
    ensures '\n' !in line
  {
  }

  /** A file of forms parses to what they say. */
  lemma FormsAreRead(data: string, forms: seq<Form>)
    requires AllFit(forms) && Holds(data, forms)
    ensures ParsedOf(data) == Parsed(VarsFrom(forms, map[]))
  {
    hide SplitLines, ParseFrom, Fits, Stored, FormText, VarsAfter;
    var text: string :| Stored(data, text) && text + "\n" == FormsText(forms);
    var raws := SplitLines(BodyOf(data));
    StoredLines(data, text);
    assert text + "\n" == FormsText(forms) + "";
    SplitJoined(text, "");
    OneLine("");
    LastForm(raws, text, forms);
  }

  lemma LastForm(raws: seq<string>, text: string, forms: seq<Form>)
    requires AllFit(forms) && text + "\n" == FormsText(forms) && SplitLines(text) == Contents(raws)
    ensures ParseFrom(raws, 0, map[]) == Parsed(VarsFrom(forms, map[]))
  {
    hide SplitLines, ParseFrom, Fits, FormText, VarsAfter, FormsText, VarsFrom, Contents;
    assert forms != [] by { EmptyForms(); }
    var front, last := forms[..|forms| - 1], forms[|forms| - 1];
    assert forms == front + [last];
    assert last in forms && forall f | f in front :: f in forms;
    FormsTextAppend(front, last);
    CutBreak(text, FormsText(front), FormText(last));
    AllStand(Contents(raws));
    FormsParse(raws, 0, map[], front, FormText(last));
    FormParses(raws, multiset(FormsText(front))['\n'], VarsFrom(front, map[]), last);
    VarsAppend(front, last, map[]);
    ParsedAtEnd(raws, VarsFrom(forms, map[]));
  }

  lemma EmptyForms()
    ensures FormsText([]) == ""
  {
  }

  lemma CutBreak(text: string, front: string, last: string)
    requires text + "\n" == front + (last + "\n")
    ensures text == front + last
  {
    assert text == (text + "\n")[..|text|];
    assert front + last == (front + (last + "\n"))[..|front + last|];
  }

  lemma ParsedAtEnd(raws: seq<string>, vars: map<string, string>)
    ensures ParseFrom(raws, |raws|, vars) == Parsed(vars)
  {
  }

  lemma {:induction false} FormsTextAppend(forms: seq<Form>, last: Form)
    requires AllFit(forms) && Fits(last)
    ensures AllFit(forms + [last]) && FormsText(forms + [last]) == FormsText(forms) + (FormText(last) + "\n")
  {
    hide Fits, FormText;
    if forms == [] {
      assert forms + [last] == [last] && [last][1..] == [];
    } else {
      assert (forms + [last])[1..] == forms[1..] + [last];
      FormsTextAppend(forms[1..], last);
    }
  }

  lemma {:induction false} VarsAppend(forms: seq<Form>, last: Form, vars: map<string, string>)
    requires AllFit(forms) && Fits(last)
    ensures AllFit(forms + [last]) && VarsFrom(forms + [last], vars) == VarsAfter(last, VarsFrom(forms, vars))
    decreases |forms|
  {
    hide Fits, VarsAfter;
    if forms == [] {
      assert forms + [last] == [last] && [last][1..] == [];
    } else {
      assert (forms + [last])[1..] == forms[1..] + [last];
      VarsAppend(forms[1..], last, VarsAfter(forms[0], vars));
    }
  }

  /** A file of forms with a fault is refused with the line in which the fault begins and its kind. */
  lemma FaultIsReported(data: string, forms: seq<Form>, fault: Fault)
    requires AllFit(forms) && FaultFits(fault) && HoldsFault(data, forms, fault)
    ensures ParsedOf(data) == Failed(1 + multiset(FormsText(forms))['\n'], ProblemOf(fault))
  {
    hide SplitLines, ParseFrom, Fits, Stored, FaultFits, FaultText, FormsText, Stands;
    var rest: string :| FaultRest(fault, rest) && Stored(data, FormsText(forms) + (FaultText(fault) + rest));
    var front, after := FormsText(forms), FaultText(fault) + rest;
    var raws := SplitLines(BodyOf(data));
    StoredLines(data, front + after);
    AllStand(Contents(raws));
    FormsParse(raws, 0, map[], forms, after);
    var n := multiset(front)['\n'];
    if rest == "" {
      assert after == FaultText(fault);
    } else {
      assert after == FaultText(fault) + "\n" + rest[1..];
      SplitJoined(FaultText(fault), rest[1..]);
      StandsApart(Contents(raws), n, SplitLines(FaultText(fault)), SplitLines(rest[1..]));
    }
    FaultParses(raws, n, VarsFrom(forms, map[]), fault);
  }

  lemma AllStand(lines: seq<string>)
    ensures Stands(lines, 0, lines)
  {
    assert lines[0..|lines|] == lines;
  }
}
