/** What reframing guarantees: it loses no character, undoes the corruption it is meant for, and
    finds nothing more to repair in its own output. */
module RowReframingFacts {
  import opened PyText
  import opened Json
  import opened JsonSpelling
  import opened JsonRoundTrip
  import opened JsonGrammar
  import opened Lexing
  import opened RowReframing

  // ---------------------------------------------------------------------------------------
  // Reading marks as a scanner run

  function OriginalChar(m: Mark): char { if m.Kept? then m.c else '\n' }

  function After(marks: seq<Mark>, st: Lex): Lex {
    if marks == [] then st else After(marks[1..], Step(BOTH, st, OriginalChar(marks[0])))
  }

  function StartedAfter(marks: seq<Mark>, st: Lex, started: bool): bool {
    if marks == [] then started
    else StartedAfter(marks[1..], Step(BOTH, st, OriginalChar(marks[0])), Starts(st, started, OriginalChar(marks[0])))
  }

  /** The scanner, in state (`st`, `started`), reads the marks' characters as these very marks
      and without ending a row. */
  predicate Scans(marks: seq<Mark>, st: Lex, started: bool) {
    marks != [] ==>
      var c := OriginalChar(marks[0]);
      !EndsRow(st, started, c) && marks[0] == MarkOf(st, c)
      && Scans(marks[1..], Step(BOTH, st, c), Starts(st, started, c))
  }

  /** ... and stands where the next newline ends the row. */
  predicate Ends(marks: seq<Mark>, st: Lex, started: bool) {
    var last := After(marks, st);
    Scans(marks, st, started) && last.Outside() && last.depth == 0 && StartedAfter(marks, st, started)
  }

  lemma {:induction false} ScansAppend(a: seq<Mark>, b: seq<Mark>, st: Lex, started: bool)
    ensures After(a + b, st) == After(b, After(a, st))
    ensures StartedAfter(a + b, st, started) == StartedAfter(b, After(a, st), StartedAfter(a, st, started))
    ensures Scans(a + b, st, started) <==> Scans(a, st, started) && Scans(b, After(a, st), StartedAfter(a, st, started))
  {
    if a == [] {
      assert a + b == b;
    } else {
      var c := OriginalChar(a[0]);
      assert (a + b)[1..] == a[1..] + b;
      ScansAppend(a[1..], b, Step(BOTH, st, c), Starts(st, started, c));
    }
  }

  /** Characters that scan as given marks are cut as these marks. */
  lemma {:induction false} CutScans(text: string, k: nat, marks: seq<Mark>, st: Lex, started: bool)
    requires OccursAt(text, k, Original(marks)) && Scans(marks, st, started)
    ensures Cut(text, k, st, started)
      == Glue(marks, Cut(text, k + |marks|, After(marks, st), StartedAfter(marks, st, started)))
    decreases |marks|
  {
    if marks == [] {
      GlueNothing(Cut(text, k, st, started));
    } else {
      var c := OriginalChar(marks[0]);
      assert Original(marks) == [c] + Original(marks[1..]);
      OccursAtSplit(text, k, [c], Original(marks[1..]));
      assert text[k] == text[k..k + 1][0];
      CutScans(text, k + 1, marks[1..], Step(BOTH, st, c), Starts(st, started, c));
      CutStepGlue(text, k, marks, st, started);
    }
  }

  lemma CutStepGlue(text: string, k: nat, marks: seq<Mark>, st: Lex, started: bool)
    requires marks != [] && k < |text| && text[k] == OriginalChar(marks[0]) && k + |marks| <= |text|
    requires !EndsRow(st, started, text[k]) && marks[0] == MarkOf(st, text[k])
    requires Cut(text, k + 1, Step(BOTH, st, text[k]), Starts(st, started, text[k]))
      == Glue(marks[1..], Cut(text, k + |marks|, After(marks, st), StartedAfter(marks, st, started)))
    ensures Cut(text, k, st, started)
      == Glue(marks, Cut(text, k + |marks|, After(marks, st), StartedAfter(marks, st, started)))
  {
    hide Step, After, StartedAfter, Starts, EndsRow, MarkOf, Glue;
    GlueTwice([marks[0]], marks[1..], Cut(text, k + |marks|, After(marks, st), StartedAfter(marks, st, started)));
    assert [marks[0]] + marks[1..] == marks;
  }

  function Originals(pieces: seq<seq<Mark>>): seq<string> {
    if pieces == [] then [] else [Original(pieces[0])] + Originals(pieces[1..])
  }

  /** Pieces that scan from a fresh start, all but the last ending their row. */
  predicate GoodPieces(pieces: seq<seq<Mark>>) {
    pieces != [] && Scans(pieces[0], START, false)
    && (|pieces| > 1 ==> Ends(pieces[0], START, false) && GoodPieces(pieces[1..]))
  }

  /** Such pieces, joined by newlines, are cut apart again exactly. */
  lemma {:induction false} CutJoined(text: string, k: nat, pieces: seq<seq<Mark>>)
    requires GoodPieces(pieces) && k <= |text| && text[k..] == Join(Originals(pieces), "\n")
    ensures Cut(text, k, START, false) == pieces
    decreases |pieces|
  {
    hide Scans, After, StartedAfter, Original, Rows, Repairs, AllRepairs;
    var p := pieces[0];
    var n := k + |p|;
    if |pieces| == 1 {
      assert Originals(pieces) == [Original(p)];
      assert OccursAt(text, k, Original(p)) && n == |text|;
      CutScans(text, k, p, START, false);
      assert p + [] == p;
    } else {
      var rest := Join(Originals(pieces[1..]), "\n");
      assert Originals(pieces) == [Original(p)] + Originals(pieces[1..]);
      assert text[k..] == Original(p) + "\n" + rest;
      JoinedParts(text, k, Original(p), rest);
      CutJoined(text, n + 1, pieces[1..]);
      CutFirst(text, k, p, pieces[1..]);
      assert pieces == [p] + pieces[1..];
    }
  }

  lemma CutFirst(text: string, k: nat, p: seq<Mark>, rest: seq<seq<Mark>>)
    requires OccursAt(text, k, Original(p)) && Ends(p, START, false)
    requires k + |p| < |text| && text[k + |p|] == '\n' && Cut(text, k + |p| + 1, START, false) == rest
    ensures Cut(text, k, START, false) == [p] + rest
  {
    hide Scans, After, StartedAfter, Original, Rows, Repairs, AllRepairs;
    CutScans(text, k, p, START, false);
    GlueWhole(p, rest);
  }

  lemma JoinedParts(text: string, k: nat, first: string, rest: string)
    requires k <= |text| && text[k..] == first + "\n" + rest
    ensures OccursAt(text, k, first) && k + |first| < |text| && text[k + |first|] == '\n'
    ensures text[k + |first| + 1..] == rest
  {
    assert text[k..][..|first|] == first;
    assert text[k + |first|] == text[k..][|first|];
    assert text[k..][|first| + 1..] == rest;
  }

  // ---------------------------------------------------------------------------------------
  // Conservation

  /** No character is lost or made up: the pieces as they were read, joined by the newlines
      that separated them, are the text. */
  lemma {:induction false} CutConserves(text: string, i: nat, st: Lex, started: bool)
    requires i <= |text|
    ensures Join(Originals(Cut(text, i, st, started)), "\n") == text[i..]
    decreases |text| - i
  {
    if i < |text| {
      var c := text[i];
      if EndsRow(st, started, c) {
        var rest := Cut(text, i + 1, START, false);
        CutConserves(text, i + 1, START, false);
        assert ([[]] + rest)[1..] == rest;
        assert text[i..] == [c] + text[i + 1..];
        JoinCons("", Originals(rest));
      } else {
        var rest := Cut(text, i + 1, Step(BOTH, st, c), Starts(st, started, c));
        CutConserves(text, i + 1, Step(BOTH, st, c), Starts(st, started, c));
        var m := MarkOf(st, c);
        assert Original([m] + rest[0]) == [c] + Original(rest[0]);
        GlueOriginals(m, rest);
        assert text[i..] == [c] + text[i + 1..];
        JoinFirst([c], Original(rest[0]), Originals(rest[1..]));
      }
    }
  }

  lemma GlueOriginals(m: Mark, rest: seq<seq<Mark>>)
    requires rest != []
    ensures Originals(Glue([m], rest)) == [[OriginalChar(m)] + Original(rest[0])] + Originals(rest[1..])
    ensures Originals(rest) == [Original(rest[0])] + Originals(rest[1..])
  {
    var g := Glue([m], rest);
    assert ([m] + rest[0])[1..] == rest[0];
    assert g[1..] == rest[1..];
  }

  lemma JoinCons(first: string, rows: seq<string>)
    requires rows != []
    ensures Join([first] + rows, "\n") == first + "\n" + Join(rows, "\n")
  {
    assert ([first] + rows)[1..] == rows;
  }

  lemma JoinFirst(a: string, b: string, rows: seq<string>)
    ensures Join([a + b] + rows, "\n") == a + Join([b] + rows, "\n")
  {
    if rows != [] {
      JoinCons(a + b, rows);
      JoinCons(b, rows);
      assert a + b + "\n" + Join(rows, "\n") == a + (b + "\n" + Join(rows, "\n"));
    }
  }

  lemma ReframingConserves(text: string)
    ensures Join(Originals(Pieces(text)), "\n") == text
  {
    CutConserves(text, 0, START, false);
    assert text[0..] == text;
  }

  lemma {:induction false} RepairsAreNewlines(marks: seq<Mark>)
    ensures Repairs(marks) <= Newlines(Original(marks))
  {
    if marks != [] {
      RepairsAreNewlines(marks[1..]);
      assert Original(marks) == [OriginalChar(marks[0])] + Original(marks[1..]);
    }
  }

  /** So many rows and repairs have room in the text: but for a row at its end, each takes a
      newline. */
  predicate HasRoom(text: string, rows: nat, repairs: nat) {
    && rows <= Newlines(text) + 1 && rows + repairs <= Newlines(text) + 1
    && (rows == Newlines(text) + 1 ==> text != "" && text[|text| - 1] != '\n')
  }

  lemma RoomBehind(first: string, rest: string, row: nat, repaired: nat, rows: nat, repairs: nat)
    requires row <= 1 && repaired <= Newlines(first) && HasRoom(rest, rows, repairs)
    ensures HasRoom(first + "\n" + rest, row + rows, repaired + repairs)
  {
    NewlineBetween(first, rest);
    hide Newlines;
  }

  lemma PieceTakes(pieces: seq<seq<Mark>>)
    requires pieces != []
    ensures |Rows(pieces)| == |RowOf(Render(pieces[0]))| + |Rows(pieces[1..])| && |RowOf(Render(pieces[0]))| <= 1
    ensures AllRepairs(pieces) == Repairs(pieces[0]) + AllRepairs(pieces[1..])
    ensures Originals(pieces) == [Original(pieces[0])] + Originals(pieces[1..])
  {
    hide Render, Strip, Original, Repairs;
  }

  /** Every piece but the last brings the newline that ended it; a last piece that makes a row
      brings characters of its own. */
  lemma {:induction false} PiecesTakeNewlines(pieces: seq<seq<Mark>>)
    requires pieces != []
    ensures HasRoom(Join(Originals(pieces), "\n"), |Rows(pieces)|, AllRepairs(pieces))
    decreases |pieces|
  {
    hide *;
    var first := Original(pieces[0]);
    PieceTakes(pieces);
    RepairsAreNewlines(pieces[0]);
    if |pieces| == 1 {
      assert pieces[1..] == [];
      NoPieces();
      assert Originals(pieces) == [first] + [] == [first];
      JoinOne(first);
      LastRoom(pieces[0]);
    } else {
      PiecesTakeNewlines(pieces[1..]);
      OriginalsNotEmpty(pieces[1..]);
      JoinCons(first, Originals(pieces[1..]));
      RoomBehind(first, Join(Originals(pieces[1..]), "\n"), |RowOf(Render(pieces[0]))|, Repairs(pieces[0]),
                 |Rows(pieces[1..])|, AllRepairs(pieces[1..]));
    }
  }

  lemma OriginalsNotEmpty(pieces: seq<seq<Mark>>)
    requires pieces != []
    ensures Originals(pieces) != []
  {
  }

  lemma LastRoom(p: seq<Mark>)
    requires Repairs(p) <= Newlines(Original(p)) && |RowOf(Render(p))| <= 1
    ensures HasRoom(Original(p), |RowOf(Render(p))|, Repairs(p))
  {
    LastPiece(p);
    hide Original, Render, Repairs, Newlines, RowOf;
  }

  lemma JoinOne(row: string)
    ensures Join([row], "\n") == row
  {
  }

  lemma NewlineBetween(a: string, b: string)
    ensures Newlines(a + "\n" + b) == Newlines(a) + 1 + Newlines(b)
  {
    NewlinesAppend(a + "\n", b);
    NewlinesAppend(a, "\n");
    assert Newlines("\n") == 1;
  }

  lemma LastPiece(p: seq<Mark>)
    ensures RowOf(Render(p)) != [] && Newlines(Original(p)) == 0
      ==> Original(p) != "" && Original(p)[|Original(p)| - 1] != '\n'
  {
    var text := Original(p);
    if p == [] {
      assert Strip("") == "";
    } else if text[|text| - 1] == '\n' {
      assert text == text[..|text| - 1] + "\n";
      NewlinesAppend(text[..|text| - 1], "\n");
      assert Newlines("\n") == 1;
    }
  }

  /** What ends a physical line: a carriage return with a newline behind it is one break. */
  const BREAKS := {"\n", "\r\n", "\r", "\U{B}", "\U{C}", "\U{1C}", "\U{1D}", "\U{1E}", "\U{85}", "\U{2028}", "\U{2029}"}

  predicate Unbroken(s: string) { forall k :: 0 <= k < |s| ==> [s[k]] !in BREAKS }

  datatype TextLine = TextLine(body: string, brk: string) {
    predicate Valid() { Unbroken(body) && brk in BREAKS }
    function Text(): string { body + brk }
  }

  /** Lines of text; none makes a pair of the break before it. */
  predicate AllTextLines(lines: seq<TextLine>) {
    && (forall k :: 0 <= k < |lines| ==> lines[k].Valid())
    && forall k :: 0 < k < |lines| && lines[k - 1].brk == "\r" ==> lines[k].Text()[0] != '\n'
  }

  function TextOf(lines: seq<TextLine>, last: string): string {
    if lines == [] then last else lines[0].Text() + TextOf(lines[1..], last)
  }

  lemma BreaksExactly(c: char)
    ensures IsLineBreak(c) <==> [c] in BREAKS
  {
  }

  lemma {:induction false} LineEnds(s: string, i: nat, e: nat)
    requires i <= e <= |s| && (e < |s| ==> IsLineBreak(s[e])) && forall k :: i <= k < e ==> !IsLineBreak(s[k])
    ensures BreakFrom(s, i) == e
    decreases e - i
  {
    hide IsLineBreak;
    if i < e {
      LineEnds(s, i + 1, e);
    }
  }

  /** Where a line of a text, its break and the rest stand. */
  lemma LineStands(s: string, i: nat, line: TextLine, rest: string)
    requires i <= |s| && s[i..] == line.Text() + rest
    ensures var e, n := i + |line.body|, i + |line.Text()|;
      && e <= n <= |s| && s[n..] == rest && (n < |s| ==> rest != "" && s[n] == rest[0])
      && (forall k :: i <= k < e ==> s[k] == line.body[k - i])
      && forall k :: e <= k < n ==> s[k] == line.brk[k - e]
  {
    var t := line.Text() + rest;
    assert forall k :: i <= k < |s| ==> s[k] == s[i..][k - i] == t[k - i];
  }

  lemma BreakStarts(brk: string)
    requires brk in BREAKS
    ensures brk != "" && IsLineBreak(brk[0])
    ensures brk == "\r\n" || (|brk| == 1 && (brk[0] == '\r' ==> brk == "\r"))
  {
  }

  lemma BodyUnbroken(s: string, i: nat, e: nat, body: string)
    requires Unbroken(body) && i <= e <= |s| && e == i + |body| && forall k :: i <= k < e ==> s[k] == body[k - i]
    ensures forall k :: i <= k < e ==> !IsLineBreak(s[k])
  {
    forall k | i <= k < e ensures !IsLineBreak(s[k]) {
      BreaksExactly(body[k - i]);
    }
  }

  lemma BreakPassed(s: string, e: nat, n: nat, brk: string)
    requires brk in BREAKS && n == e + |brk| <= |s| && forall k :: e <= k < n ==> s[k] == brk[k - e]
    requires brk == "\r" && n < |s| ==> s[n] != '\n'
    ensures e < n && IsLineBreak(s[e]) && AfterBreak(s, e) == n
  {
    BreakStarts(brk);
    hide BREAKS;
    assert s[e] == brk[0];
    assert brk == "\r\n" ==> s[e + 1] == brk[1];
  }

  /** One line of a text counts as one, and the rest of it goes on counting. */
  lemma LineCounted(s: string, i: nat, line: TextLine, rest: string)
    requires line.Valid() && i <= |s| && s[i..] == line.Text() + rest
    requires line.brk == "\r" && rest != "" ==> rest[0] != '\n'
    ensures i + |line.Text()| <= |s| && s[i + |line.Text()|..] == rest
    ensures LinesFrom(s, i) == 1 + LinesFrom(s, i + |line.Text()|)
  {
    hide BREAKS, Unbroken, BreakFrom, AfterBreak, LinesFrom, IsLineBreak;
    var e, n := i + |line.body|, i + |line.Text()|;
    LineStands(s, i, line, rest);
    BodyUnbroken(s, i, e, line.body);
    BreakPassed(s, e, n, line.brk);
    LineEnds(s, i, e);
    OneLine(s, i, e, n);
  }

  lemma OneLine(s: string, i: nat, e: nat, n: nat)
    requires i <= e < |s| && BreakFrom(s, i) == e && AfterBreak(s, e) == n
    ensures LinesFrom(s, i) == 1 + LinesFrom(s, n)
  {
    hide BreakFrom, AfterBreak;
  }

  lemma LastLineCounted(s: string, i: nat, last: string)
    requires Unbroken(last) && i <= |s| && s[i..] == last
    ensures LinesFrom(s, i) == if last == "" then 0 else 1
  {
    hide BREAKS;
    assert forall k :: i <= k < |s| ==> s[k] == s[i..][k - i];
    BodyUnbroken(s, i, |s|, last);
    LineEnds(s, i, |s|);
  }

  lemma LinesBehindFirst(lines: seq<TextLine>, last: string)
    requires AllTextLines(lines) && lines != [] && Unbroken(last)
    ensures AllTextLines(lines[1..]) && lines[0].Valid() && TextOf(lines, last) == lines[0].Text() + TextOf(lines[1..], last)
    ensures var rest := TextOf(lines[1..], last); lines[0].brk == "\r" && rest != "" ==> rest[0] != '\n'
  {
    if |lines| > 1 {
      BreakStarts(lines[1].brk);
      hide BREAKS;
      assert TextOf(lines[1..], last)[0] == lines[1].Text()[0];
    } else {
      BreaksExactly('\n');
      assert last != "" ==> [last[0]] !in BREAKS;
    }
  }

  lemma {:induction false} LinesCounted(s: string, i: nat, lines: seq<TextLine>, last: string)
    requires AllTextLines(lines) && Unbroken(last) && i <= |s| && s[i..] == TextOf(lines, last)
    ensures LinesFrom(s, i) == |lines| + if last == "" then 0 else 1
    decreases |lines|
  {
    hide AllTextLines, Unbroken, LinesFrom, BREAKS;
    if lines == [] {
      LastLineCounted(s, i, last);
    } else {
      LinesBehindFirst(lines, last);
      LineCounted(s, i, lines[0], TextOf(lines[1..], last));
      LinesCounted(s, i + |lines[0].Text()|, lines[1..], last);
    }
  }

  /** The physical lines are the lines of the text by any of the breaks, the last one with or
      without a break. */
  lemma PhysicalLinesExactly(lines: seq<TextLine>, last: string)
    requires AllTextLines(lines) && Unbroken(last)
    ensures PhysicalLines(TextOf(lines, last)) == |lines| + if last == "" then 0 else 1
  {
    var s := TextOf(lines, last);
    assert s[0..] == s;
    LinesCounted(s, 0, lines, last);
  }

  /** The figures of the report fit together: reframing never makes more rows than the text has
      physical lines, nor repairs more newlines than rows leave over. */
  lemma ReportFits(text: string)
    ensures |LogicalRows(text)| <= PhysicalLines(text)
    ensures |LogicalRows(text)| + AllRepairs(Pieces(text)) <= PhysicalLines(text) + 1
  {
    ReframingConserves(text);
    PiecesTakeNewlines(Pieces(text));
    NewlinesEndLines(text, 0);
    assert text[0..] == text;
  }

  // ---------------------------------------------------------------------------------------
  // Repair inverts corruption

  /** Replaces the `\n` escapes inside strings of `row` that start at a picked position by
      physical newlines. */
  function Break(row: string, i: nat, st: Lex, picks: set<nat>): seq<Mark>
    requires i <= |row|
    decreases |row| - i
  {
    if i == |row| then []
    else if i in picks && NewlineEscape(row, i, st) then [Repaired] + Break(row, i + 2, st, picks)
    else [Kept(row[i])] + Break(row, i + 1, Step(BOTH, st, row[i]), picks)
  }

  /** A `\n` escape of a string literal starts at `i`. */
  predicate NewlineEscape(row: string, i: nat, st: Lex) {
    st.inString && !st.escape && OccursAt(row, i, "\\n")
  }

  /** The row with the picked escapes broken. */
  function Broken(row: string, picks: set<nat>): string {
    Original(Break(row, 0, START, picks))
  }

  /** Reading an escape in a string leaves the scanner where it was. */
  lemma EscapeReads(row: string, i: nat, st: Lex)
    requires i < |row| && row[|row| - 1] in {'}', ']'} && NewlineEscape(row, i, st)
    requires Above(BOTH, row, i, |row| - 1, st, 1)
    ensures st.inString && !st.escape && i + 2 < |row| && row[i..] == "\\n" + row[i + 2..]
    ensures Above(BOTH, row, i + 2, |row| - 1, st, 1)
    ensures Run(BOTH, row, i, |row|, st) == Run(BOTH, row, i + 2, |row|, st)
  {
    assert row[i..i + 2][0] == row[i] && row[i..i + 2][1] == row[i + 1];
    var escaped := st.(escape := true);
    assert Step(BOTH, st, row[i]) == escaped && Step(BOTH, escaped, row[i + 1]) == st;
    assert Run(BOTH, row, i, |row|, st) == Run(BOTH, row, i + 1, |row|, escaped);
  }

  /** Repairing a broken row gives back the row, and the scanner reads it as one piece: from
      inside the object, up to its last brace. */
  lemma {:induction false} BreakScans(row: string, i: nat, st: Lex, picks: set<nat>)
    requires i < |row| && row[|row| - 1] in {'}', ']'} && st.depth >= 1 && (st.escape ==> st.inString)
    requires Above(BOTH, row, i, |row| - 1, st, 1)
    ensures Render(Break(row, i, st, picks)) == row[i..]
    ensures Scans(Break(row, i, st, picks), st, true) && StartedAfter(Break(row, i, st, picks), st, true)
    ensures After(Break(row, i, st, picks), st) == Run(BOTH, row, i, |row|, st)
    decreases |row| - i
  {
    hide NewlineEscape;
    var c := row[i];
    if i in picks && NewlineEscape(row, i, st) {
      EscapeReads(row, i, st);
      BreakScans(row, i + 2, st, picks);
      assert ([Repaired] + Break(row, i + 2, st, picks))[1..] == Break(row, i + 2, st, picks);
    } else {
      var rest := Break(row, i + 1, Step(BOTH, st, c), picks);
      if i + 1 < |row| {
        BreakScans(row, i + 1, Step(BOTH, st, c), picks);
      }
      assert ([Kept(c)] + rest)[1..] == rest;
      assert row[i..] == [c] + row[i + 1..];
    }
  }

  /** A text that opens a bracket, keeps one open up to its last character, and closes it there;
      strings in it hold no newline. */
  predicate Bracketed(row: string) {
    && |row| >= 2 && row[0] in {'{', '['} && row[|row| - 1] in {'}', ']'}
    && Above(BOTH, row, 1, |row| - 1, Lex(false, false, 1), 1)
    && Run(BOTH, row, 1, |row|, Lex(false, false, 1)) == START
  }

  /** Between its brackets a decodable text stays open, and reads as it stands. */
  lemma DecodableIsBracketed(row: string)
    requires row != "" && row[0] in {'{', '['} && Value(row, 0).At? && Value(row, 0).next == |row|
    ensures Bracketed(row)
  {
    ValueStays(BOTH, row, 0, START);
    assert Step(BOTH, START, row[0]) == Lex(false, false, 1);
  }

  lemma BrokenRowEnds(row: string, picks: set<nat>)
    requires Bracketed(row)
    ensures Ends(Break(row, 0, START, picks), START, false) && Render(Break(row, 0, START, picks)) == row
  {
    hide Above, Run;
    var marks := Break(row, 0, START, picks);
    var into := Lex(false, false, 1);
    BreakScans(row, 1, into, picks);
    assert marks == [Kept(row[0])] + Break(row, 1, into, picks);
    assert marks[1..] == Break(row, 1, into, picks);
    assert row == [row[0]] + row[1..];
  }

  /** Every newline that stands for an escape is one character shorter than it, so the repairs
      counted are the characters by which breaking shortened the row. */
  lemma {:induction false} BreakingShortens(row: string, i: nat, st: Lex, picks: set<nat>)
    requires i <= |row|
    ensures |Original(Break(row, i, st, picks))| + Repairs(Break(row, i, st, picks)) == |row| - i
    decreases |row| - i
  {
    if i < |row| {
      if i in picks && NewlineEscape(row, i, st) {
        BreakingShortens(row, i + 2, st, picks);
        assert ([Repaired] + Break(row, i + 2, st, picks))[1..] == Break(row, i + 2, st, picks);
      } else {
        var rest := Break(row, i + 1, Step(BOTH, st, row[i]), picks);
        BreakingShortens(row, i + 1, Step(BOTH, st, row[i]), picks);
        assert ([Kept(row[i])] + rest)[1..] == rest;
      }
    }
  }

  /** One row: a bracketed text, on one line or pretty-printed over several, the value it spells
      if it spells one, and the positions to break it at. */
  datatype BrokenRow = BrokenRow(row: string, reading: Option<Json>, picks: set<nat>) {
    ghost predicate Valid() {
      Bracketed(row) && match reading case Some(v) => Document(row, v) case None => forall v :: !Document(row, v)
    }
    function Marks(): seq<Mark> { Break(row, 0, START, picks) }
  }

  ghost predicate AllValid(rows: seq<BrokenRow>) {
    forall k :: 0 <= k < |rows| ==> rows[k].Valid()
  }

  function RowTexts(rows: seq<BrokenRow>): seq<string> {
    seq(|rows|, k requires 0 <= k < |rows| => rows[k].row)
  }

  function BrokenTexts(rows: seq<BrokenRow>): seq<string> {
    if rows == [] then [] else [Broken(rows[0].row, rows[0].picks)] + BrokenTexts(rows[1..])
  }

  function BrokenMarks(rows: seq<BrokenRow>): seq<seq<Mark>> {
    if rows == [] then [] else [rows[0].Marks()] + BrokenMarks(rows[1..])
  }

  function Breaks(rows: seq<BrokenRow>): nat {
    if rows == [] then 0 else Repairs(rows[0].Marks()) + Breaks(rows[1..])
  }

  /** The objects among what the rows spell. */
  function Objects(rows: seq<BrokenRow>): seq<Json> {
    if rows == [] then []
    else
      var last := rows[|rows| - 1].reading;
      Objects(rows[..|rows| - 1]) + if last.Some? && last.value.Obj? then [last.value] else []
  }

  /** How many rows spell nothing. */
  function Malformed(rows: seq<BrokenRow>): nat {
    if rows == [] then 0 else Malformed(rows[..|rows| - 1]) + if rows[|rows| - 1].reading.None? then 1 else 0
  }

  lemma EmptyTail(tail: seq<seq<Mark>>)
    requires tail == [[]]
    ensures GoodPieces(tail) && Rows(tail) == [] && AllRepairs(tail) == 0
  {
    assert tail[1..] == [];
    assert Strip("") == "";
  }

  /** The pieces of broken rows, with or without a final newline. */
  lemma {:induction false} BrokenPieces(rows: seq<BrokenRow>, tail: seq<seq<Mark>>)
    requires rows != [] || tail != []
    requires AllValid(rows)
    requires tail == [] || tail == [[]]
    ensures GoodPieces(BrokenMarks(rows) + tail)
    ensures Originals(BrokenMarks(rows) + tail) == BrokenTexts(rows) + Originals(tail)
    ensures Rows(BrokenMarks(rows) + tail) == RowTexts(rows)
    ensures AllRepairs(BrokenMarks(rows) + tail) == Breaks(rows)
    decreases |rows|
  {
    hide Bracketed, Document, BrokenRow.Valid, Ends, Scans, GoodPieces, Originals, Rows, AllRepairs, Original, Repairs;
    if rows == [] {
      EmptyTail(tail);
      assert BrokenMarks(rows) + tail == tail;
    } else {
      var marks := rows[0].Marks();
      var rest := BrokenMarks(rows[1..]) + tail;
      assert BrokenMarks(rows) + tail == [marks] + rest;
      FirstBroken(rows[0], rest);
      if |rows| > 1 || tail != [] {
        BrokenPieces(rows[1..], tail);
        assert BrokenTexts(rows) + Originals(tail) == [Original(marks)] + (BrokenTexts(rows[1..]) + Originals(tail));
      } else {
        assert rest == [] && rows[1..] == [];
        NoPieces();
      }
    }
  }

  lemma NoPieces()
    ensures Originals([]) == [] && Rows([]) == [] && AllRepairs([]) == 0
  {
  }

  lemma FirstBroken(row: BrokenRow, rest: seq<seq<Mark>>)
    requires row.Valid()
    ensures rest == [] || GoodPieces(rest) ==> GoodPieces([row.Marks()] + rest)
    ensures Originals([row.Marks()] + rest) == [Original(row.Marks())] + Originals(rest)
    ensures Rows([row.Marks()] + rest) == [row.row] + Rows(rest)
    ensures AllRepairs([row.Marks()] + rest) == Repairs(row.Marks()) + AllRepairs(rest)
  {
    hide Bracketed, Break, Scans, After, StartedAfter, Render, Strip, Original, Repairs;
    BrokenRowEnds(row.row, row.picks);
    BracketedIsTrimmed(row.row);
    assert ([row.Marks()] + rest)[1..] == rest;
  }

  /** It starts and ends with a bracket, so `strip` leaves it alone. */
  lemma BracketedIsTrimmed(row: string)
    requires Bracketed(row)
    ensures row != "" && Strip(row) == row
  {
    StripTrimmed(row);
  }

  /** Bracketed rows, each starting on a line of its own, whose `\n` escapes were turned into
      physical newlines, any of them in any row, are rebuilt one by one, with every broken escape
      counted. The rows that spell an object give it, the rows that spell something else are
      passed over, and the rows that spell nothing are counted. The newlines that were there
      between tokens stay. */
  lemma RepairInvertsCorruption(rows: seq<BrokenRow>, finalNewline: bool)
    requires rows != [] && AllValid(rows)
    ensures var text := Join(BrokenTexts(rows), "\n") + (if finalNewline then "\n" else "");
      && LogicalRows(text) == RowTexts(rows)
      && AllRepairs(Pieces(text)) == Breaks(rows)
      && ParsedObjects(LogicalRows(text)) == Objects(rows)
      && ParseErrors(LogicalRows(text)) == Malformed(rows)
  {
    var tail: seq<seq<Mark>> := if finalNewline then [[]] else [];
    var text := Join(BrokenTexts(rows), "\n") + (if finalNewline then "\n" else "");
    var pieces := BrokenMarks(rows) + tail;
    BrokenPieces(rows, tail);
    if finalNewline {
      assert tail[1..] == [] && Originals(tail) == [""];
      JoinSnoc(BrokenTexts(rows), "");
      assert text == Join(BrokenTexts(rows), "\n") + "\n" + "";
    } else {
      assert BrokenTexts(rows) + [] == BrokenTexts(rows);
      assert text == Join(BrokenTexts(rows), "\n");
    }
    assert text[0..] == text;
    CutJoined(text, 0, pieces);
    RowsParse(rows);
  }

  lemma {:induction false} JoinSnoc(rows: seq<string>, last: string)
    requires rows != []
    ensures Join(rows + [last], "\n") == Join(rows, "\n") + "\n" + last
  {
    if |rows| == 1 {
      assert (rows + [last])[1..] == [last];
    } else {
      JoinSnoc(rows[1..], last);
      assert (rows + [last])[1..] == rows[1..] + [last];
      assert rows[0] + "\n" + (Join(rows[1..], "\n") + "\n" + last) == rows[0] + "\n" + Join(rows[1..], "\n") + "\n" + last;
    }
  }

  lemma {:induction false} RowsParse(rows: seq<BrokenRow>)
    requires AllValid(rows)
    ensures ParsedObjects(RowTexts(rows)) == Objects(rows) && ParseErrors(RowTexts(rows)) == Malformed(rows)
    decreases |rows|
  {
    hide Bracketed, Document, Loads;
    if rows != [] {
      var n := |rows| - 1;
      var texts := RowTexts(rows);
      assert texts[..n] == RowTexts(rows[..n]);
      RowsParse(rows[..n]);
      RowLoads(rows[n]);
    }
  }

  lemma RowLoads(row: BrokenRow)
    requires row.Valid()
    ensures Loads(row.row) == row.reading
  {
    hide Document, Loads;
    match row.reading {
      case Some(v) => LoadsExactly(row.row, v);
      case None =>
        if Loads(row.row).Some? {
          LoadsExactly(row.row, Loads(row.row).value);
        }
    }
  }

  /** A brace with anything but a quote or its closing brace behind it, spaces aside, spells
      nothing. */
  lemma UnquotedNameIsMalformed(row: string, k: nat)
    requires 0 < k < |row| && row[0] == '{' && row[k] !in {'\"', '}'} && !IsWs(row[k])
    requires forall m :: 0 < m < k ==> IsWs(row[m])
    ensures forall v :: !Document(row, v)
  {
    assert SkipWs(row, 1) == k;
    assert Members(row, k).Fail? && Loads(row).None?;
    hide Document, Loads;
    forall v ensures !Document(row, v) {
      LoadsExactly(row, v);
    }
  }

  /** With nothing picked nothing is broken: valid JSONL passes unchanged. */
  lemma {:induction false} BreakNothing(row: string, i: nat, st: Lex)
    requires i <= |row|
    ensures Original(Break(row, i, st, {})) == row[i..] && Repairs(Break(row, i, st, {})) == 0
    decreases |row| - i
  {
    if i < |row| {
      BreakNothing(row, i + 1, Step(BOTH, st, row[i]));
      var rest := Break(row, i + 1, Step(BOTH, st, row[i]), {});
      assert ([Kept(row[i])] + rest)[1..] == rest;
      assert row[i..] == [row[i]] + row[i + 1..];
    }
  }

  /** Objects, each in a spelling of its own and with its own escapes to break. */
  function SpelledRows(texts: seq<string>, values: seq<Json>, picks: seq<set<nat>>): (rows: seq<BrokenRow>)
    requires |texts| == |values| == |picks|
    ensures |rows| == |texts| && forall k :: 0 <= k < |rows| ==> rows[k] == BrokenRow(texts[k], Some(values[k]), picks[k])
  {
    seq(|texts|, k requires 0 <= k < |texts| => BrokenRow(texts[k], Some(values[k]), picks[k]))
  }

  lemma SpelledRowIsValid(text: string, v: Json, picks: set<nat>)
    requires v.Obj? && Spells(text, v)
    ensures BrokenRow(text, Some(v), picks).Valid()
  {
    ObjectTextExactly(text, v);
    DecodableIsBracketed(text);
    hide Bracketed, Spells;
    assert text == "" + (text + "");
    assert Document(text, v) by { NoSpace(); }
  }

  lemma {:induction false} ObjectsOfSpelled(texts: seq<string>, values: seq<Json>, picks: seq<set<nat>>)
    requires |texts| == |values| == |picks| && forall k :: 0 <= k < |values| ==> values[k].Obj?
    ensures Objects(SpelledRows(texts, values, picks)) == values && Malformed(SpelledRows(texts, values, picks)) == 0
    decreases |values|
  {
    if values != [] {
      var n := |values| - 1;
      ObjectsOfSpelled(texts[..n], values[..n], picks[..n]);
      assert SpelledRows(texts, values, picks)[..n] == SpelledRows(texts[..n], values[..n], picks[..n]);
      assert values == values[..n] + [values[n]];
    }
  }

  /** Write objects one after the other, each in any spelling, on one line or over several, break
      any of their newline escapes: reframing gives back the objects and their texts, and counts
      what was broken. */
  lemma SpelledRowsRestored(texts: seq<string>, values: seq<Json>, picks: seq<set<nat>>, finalNewline: bool)
    requires values != [] && |texts| == |values| == |picks|
    requires forall k :: 0 <= k < |values| ==> values[k].Obj? && Spells(texts[k], values[k])
    ensures var rows := SpelledRows(texts, values, picks);
      var text := Join(BrokenTexts(rows), "\n") + (if finalNewline then "\n" else "");
      && LogicalRows(text) == texts
      && AllRepairs(Pieces(text)) == Breaks(rows)
      && ParsedObjects(LogicalRows(text)) == values
      && ParseErrors(LogicalRows(text)) == 0
  {
    hide Spells, Bracketed, Document;
    var rows := SpelledRows(texts, values, picks);
    forall k | 0 <= k < |rows| ensures rows[k].Valid() {
      SpelledRowIsValid(texts[k], values[k], picks[k]);
    }
    assert RowTexts(rows) == texts;
    ObjectsOfSpelled(texts, values, picks);
    RepairInvertsCorruption(rows, finalNewline);
  }

  // ---------------------------------------------------------------------------------------
  // Reframing its own output

  function KeepAll(s: string): (marks: seq<Mark>)
    ensures |marks| == |s|
  {
    if s == "" then [] else [Kept(s[0])] + KeepAll(s[1..])
  }

  lemma {:induction false} KeepAllFacts(s: string)
    ensures Original(KeepAll(s)) == s && Render(KeepAll(s)) == s && Repairs(KeepAll(s)) == 0
  {
    if s != "" {
      KeepAllFacts(s[1..]);
      assert KeepAll(s)[1..] == KeepAll(s[1..]);
      assert s == [s[0]] + s[1..];
    }
  }

  lemma {:induction false} KeepAllAt(s: string)
    ensures forall k :: 0 <= k < |s| ==> KeepAll(s)[k] == Kept(s[k])
  {
    if s != "" {
      KeepAllAt(s[1..]);
    }
  }

  lemma KeepAllAppend(a: string, b: string)
    ensures KeepAll(a + b) == KeepAll(a) + KeepAll(b)
  {
    KeepAllAt(a);
    KeepAllAt(b);
    KeepAllAt(a + b);
  }

  /** Pieces as the cutter makes them. */
  predicate WellCut(pieces: seq<seq<Mark>>, st: Lex, started: bool) {
    pieces != [] && Scans(pieces[0], st, started)
    && (|pieces| > 1 ==> Ends(pieces[0], st, started) && WellCut(pieces[1..], START, false))
  }

  lemma {:induction false} CutIsWellCut(text: string, i: nat, st: Lex, started: bool)
    requires i <= |text| && (st.escape ==> st.inString)
    ensures WellCut(Cut(text, i, st, started), st, started)
    decreases |text| - i
  {
    if i < |text| {
      var c := text[i];
      if EndsRow(st, started, c) {
        CutIsWellCut(text, i + 1, START, false);
        var rest := Cut(text, i + 1, START, false);
        assert ([[]] + rest)[1..] == rest;
      } else {
        CutIsWellCut(text, i + 1, Step(BOTH, st, c), Starts(st, started, c));
        var rest := Cut(text, i + 1, Step(BOTH, st, c), Starts(st, started, c));
        var g := Glue([MarkOf(st, c)], rest);
        assert ([MarkOf(st, c)] + rest[0])[1..] == rest[0];
        assert g[1..] == rest[1..];
      }
    }
  }

  /** A repaired piece reads like the piece it came from. */
  lemma {:induction false} RenderedScans(marks: seq<Mark>, st: Lex, started: bool)
    requires Scans(marks, st, started) && (st.escape ==> st.inString)
    ensures Scans(KeepAll(Render(marks)), st, started)
    ensures After(KeepAll(Render(marks)), st) == After(marks, st)
    ensures StartedAfter(KeepAll(Render(marks)), st, started) == StartedAfter(marks, st, started)
    ensures After(marks, st).escape ==> After(marks, st).inString
  {
    if marks != [] {
      var c := OriginalChar(marks[0]);
      var next, begun := Step(BOTH, st, c), Starts(st, started, c);
      RenderedScans(marks[1..], next, begun);
      KeepAllAppend(RenderMark(marks[0]), Render(marks[1..]));
      MarkScans(marks[0], st, started);
      ScansAppend(KeepAll(RenderMark(marks[0])), KeepAll(Render(marks[1..])), st, started);
    }
  }

  lemma MarkScans(m: Mark, st: Lex, started: bool)
    requires m == MarkOf(st, OriginalChar(m)) && !EndsRow(st, started, OriginalChar(m)) && (st.escape ==> st.inString)
    ensures Scans(KeepAll(RenderMark(m)), st, started)
    ensures After(KeepAll(RenderMark(m)), st) == Step(BOTH, st, OriginalChar(m))
    ensures StartedAfter(KeepAll(RenderMark(m)), st, started) == Starts(st, started, OriginalChar(m))
  {
    if m.Kept? {
      assert KeepAll([m.c]) == [Kept(m.c)];
    } else {
      var slash, n := Kept('\\'), Kept('n');
      assert KeepAll("n") == [n];
      assert "\\n"[1..] == "n";
      assert KeepAll("\\n") == [slash, n];
      assert [slash, n][1..] == [n] && [n][1..] == [];
      var mid := Step(BOTH, st, '\\');
      assert After([n], mid) == Step(BOTH, mid, 'n') == Step(BOTH, st, '\n');
      assert StartedAfter([n], mid, started) == started;
    }
  }

  /** Spaces change nothing outside strings, and never leave a string. */
  lemma {:induction false} SpacesScan(s: string, st: Lex, started: bool)
    requires AllSpace(s) && (st.escape ==> st.inString)
    ensures After(KeepAll(s), st).inString == st.inString && After(KeepAll(s), st).depth == st.depth
    ensures !st.inString ==> After(KeepAll(s), st) == st
    ensures StartedAfter(KeepAll(s), st, started) == started
  {
    if s != "" {
      assert KeepAll(s)[1..] == KeepAll(s[1..]);
      SpacesScan(s[1..], Step(BOTH, st, s[0]), started);
    }
  }

  /** Stripping a repaired piece keeps it a piece, and keeps its end where it was. */
  lemma StrippedScans(raw: string)
    requires Scans(KeepAll(raw), START, false)
    ensures Scans(KeepAll(Strip(raw)), START, false)
    ensures Ends(KeepAll(raw), START, false) ==> Ends(KeepAll(Strip(raw)), START, false) && Strip(raw) != ""
  {
    hide Scans, After, Strip;
    var a, b := StripParts(raw);
    var lead, core, trail := raw[..a], raw[a..b], raw[b..];
    assert raw == lead + (core + trail);
    KeepAllAppend(lead, core + trail);
    KeepAllAppend(core, trail);
    SpacesScan(lead, START, false);
    ScansAppend(KeepAll(lead), KeepAll(core) + KeepAll(trail), START, false);
    ScansAppend(KeepAll(core), KeepAll(trail), START, false);
    EscapeInside(KeepAll(core), START);
    SpacesScan(trail, After(KeepAll(core), START), StartedAfter(KeepAll(core), START, false));
  }

  lemma {:induction false} EscapeInside(marks: seq<Mark>, st: Lex)
    requires st.escape ==> st.inString
    ensures After(marks, st).escape ==> After(marks, st).inString
  {
    if marks != [] {
      EscapeInside(marks[1..], Step(BOTH, st, OriginalChar(marks[0])));
    }
  }

  function KeepRows(rows: seq<string>): seq<seq<Mark>> {
    if rows == [] then [] else [KeepAll(rows[0])] + KeepRows(rows[1..])
  }

  /** The rows of well-cut pieces are trimmed, not blank, and good pieces themselves. */
  lemma {:induction false} RowsAreGood(pieces: seq<seq<Mark>>)
    requires WellCut(pieces, START, false)
    ensures var rows := Rows(pieces);
      && (rows == [] || GoodPieces(KeepRows(rows)))
      && forall k :: 0 <= k < |rows| ==> Strip(rows[k]) == rows[k] != ""
    decreases |pieces|
  {
    hide Scans, After, StartedAfter, Render, KeepAll, Strip;
    var raw := Render(pieces[0]);
    RenderedScans(pieces[0], START, false);
    StrippedScans(raw);
    StripIdempotent(raw);
    if |pieces| > 1 {
      RowsAreGood(pieces[1..]);
      var rest := Rows(pieces[1..]);
      assert Rows(pieces) == [Strip(raw)] + rest;
      assert KeepRows([Strip(raw)] + rest) == [KeepAll(Strip(raw))] + KeepRows(rest) by {
        assert ([Strip(raw)] + rest)[1..] == rest;
      }
      assert ([KeepAll(Strip(raw))] + KeepRows(rest))[1..] == KeepRows(rest);
    } else {
      assert Rows(pieces) == RowOf(raw) + [];
      if Strip(raw) != "" {
        assert Rows(pieces) == [Strip(raw)];
      }
    }
  }

  lemma {:induction false} KeptRows(rows: seq<string>)
    requires forall k :: 0 <= k < |rows| ==> Strip(rows[k]) == rows[k] != ""
    ensures Originals(KeepRows(rows)) == rows && Rows(KeepRows(rows)) == rows && AllRepairs(KeepRows(rows)) == 0
  {
    if rows != [] {
      KeptRows(rows[1..]);
      KeepAllFacts(rows[0]);
      assert KeepRows(rows)[1..] == KeepRows(rows[1..]);
      assert rows == [rows[0]] + rows[1..];
    }
  }

  /** Reframing the logical rows again, whatever text they came from, gives the same rows and
      repairs nothing. */
  lemma ReframingIdempotent(text: string)
    ensures LogicalRows(Join(LogicalRows(text), "\n")) == LogicalRows(text)
    ensures AllRepairs(Pieces(Join(LogicalRows(text), "\n"))) == 0
  {
    var rows := LogicalRows(text);
    var again := Join(rows, "\n");
    CutIsWellCut(text, 0, START, false);
    RowsAreGood(Pieces(text));
    if rows == [] {
      assert Pieces("") == [[]];
      assert Rows([[]]) == [] by {
        assert Strip("") == "";
      }
    } else {
      KeptRows(rows);
      assert again[0..] == again;
      CutJoined(again, 0, KeepRows(rows));
    }
  }
}
