/** Rebuilding JSON rows that physical newlines inside strings have broken. */
module RowReframing {
  import opened PyText
  import opened Json
  import opened Lexing

  /** What becomes of one input character: it is kept, or it is a newline inside a string that
      is written back as a `\n` escape. */
  datatype Mark = Kept(c: char) | Repaired

  function RenderMark(m: Mark): string { if m.Kept? then [m.c] else "\\n" }

  /** The text of a piece after repair ... */
  function Render(marks: seq<Mark>): string {
    if marks == [] then "" else RenderMark(marks[0]) + Render(marks[1..])
  }

  /** ... and the characters it was read from. */
  function Original(marks: seq<Mark>): (t: string)
    ensures |t| == |marks|
  {
    if marks == [] then "" else [if marks[0].Kept? then marks[0].c else '\n'] + Original(marks[1..])
  }

  function Repairs(marks: seq<Mark>): nat {
    if marks == [] then 0 else (if marks[0].Repaired? then 1 else 0) + Repairs(marks[1..])
  }

  const BOTH := CurlyAndSquare

  /** Whether a bracket has opened once `c` is read. */
  predicate Starts(st: Lex, started: bool, c: char) {
    started || (!st.inString && Opens(BOTH, c))
  }

  /** A newline that ends a row: outside strings, with every bracket closed again. */
  predicate EndsRow(st: Lex, started: bool, c: char) {
    c == '\n' && !st.inString && started && st.depth == 0
  }

  function MarkOf(st: Lex, c: char): Mark {
    if c == '\n' && st.inString then Repaired else Kept(c)
  }

  /** Puts marks in front of the first of some pieces. */
  function Glue(front: seq<Mark>, pieces: seq<seq<Mark>>): (r: seq<seq<Mark>>)
    requires pieces != []
    ensures r != []
  {
    [front + pieces[0]] + pieces[1..]
  }

  /** The text from `i` on, cut at the newlines that end a row. */
  function Cut(text: string, i: nat, st: Lex, started: bool): (pieces: seq<seq<Mark>>)
    requires i <= |text|
    ensures pieces != []
    decreases |text| - i
  {
    if i == |text| then [[]]
    else if EndsRow(st, started, text[i]) then [[]] + Cut(text, i + 1, START, false)
    else Glue([MarkOf(st, text[i])], Cut(text, i + 1, Step(BOTH, st, text[i]), Starts(st, started, text[i])))
  }

  function Pieces(text: string): (pieces: seq<seq<Mark>>)
    ensures pieces != []
  {
    Cut(text, 0, START, false)
  }

  /** The stripped texts of the pieces, blank ones dropped. */
  function Rows(pieces: seq<seq<Mark>>): seq<string> {
    if pieces == [] then [] else RowOf(Render(pieces[0])) + Rows(pieces[1..])
  }

  function RowOf(raw: string): seq<string> {
    if Strip(raw) == "" then [] else [Strip(raw)]
  }

  /** Appending a candidate to the rows, unless it is blank. */
  function Collect(rows: seq<string>, raw: string): (r: seq<string>)
    ensures r == rows + RowOf(raw)
  {
    if Strip(raw) == "" then rows else rows + [Strip(raw)]
  }

  function AllRepairs(pieces: seq<seq<Mark>>): nat {
    if pieces == [] then 0 else Repairs(pieces[0]) + AllRepairs(pieces[1..])
  }

  function LogicalRows(text: string): seq<string> { Rows(Pieces(text)) }

  /** The objects among the rows that parse; a row that does not parse is an error, a row that
      parses to something else is passed over. */
  function ParsedObjects(rows: seq<string>): seq<Json> {
    if rows == [] then []
    else
      var rest := ParsedObjects(rows[..|rows| - 1]);
      match Loads(rows[|rows| - 1])
      case Some(v) => if v.Obj? then rest + [v] else rest
      case None => rest
  }

  function ParseErrors(rows: seq<string>): nat {
    if rows == [] then 0
    else ParseErrors(rows[..|rows| - 1]) + (if Loads(rows[|rows| - 1]).None? then 1 else 0)
  }

  datatype Report = Report(physicalLines: nat, logicalRows: nat, parsedRows: nat, parseErrors: nat, repairedNewlines: nat)

  /** The loop of `ReframedJsonRows` before position `i`: the rows done, the marks of the
      unfinished piece, and what the rest of the text adds to them. */
  ghost predicate Framed(text: string, i: nat, rows: seq<string>, current: string, repaired: nat,
                         marks: seq<Mark>, st: Lex, started: bool) {
    && i <= |text| && current == Render(marks)
    && LogicalRows(text) == rows + Rows(Glue(marks, Cut(text, i, st, started)))
    && AllRepairs(Pieces(text)) + Repairs(marks) == repaired + AllRepairs(Glue(marks, Cut(text, i, st, started)))
  }

  /** `reframed_json_rows`. */
  method ReframedJsonRows(text: string) returns (rows: seq<Json>, report: Report)
    ensures rows == ParsedObjects(LogicalRows(text))
    ensures report
      == Report(PhysicalLines(text), |LogicalRows(text)|, |rows|, ParseErrors(LogicalRows(text)), AllRepairs(Pieces(text)))
  {
    hide Framed, Cut, Rows, Render;
    var logicalRows, current := [], "";
    var inString, escaped, depth: nat, started := false, false, 0, false;
    var repaired: nat := 0;
    ghost var marks: seq<Mark> := [];
    FramedInit(text);
    for i := 0 to |text|
      invariant escaped ==> inString
      invariant Framed(text, i, logicalRows, current, repaired, marks, Lex(inString, escaped, depth), started)
    {
      var ch := text[i];
      ghost var before, startedBefore := Lex(inString, escaped, depth), started;
      if EndsRow(before, started, ch) {
        FramedSplit(text, i, logicalRows, current, repaired, marks, before, started);
        marks := [];
      } else {
        FramedKeep(text, i, logicalRows, current, repaired, marks, before, started);
        marks := marks + [MarkOf(before, ch)];
      }
      if (ch == '{' || ch == '[') && !inString {
        depth := depth + 1;
        started := true;
      } else if (ch == '}' || ch == ']') && !inString && depth != 0 {
        depth := depth - 1;
      }
      if ch == '\n' {
        if inString {
          current := current + "\\n";
          repaired := repaired + 1;
        } else if started && depth == 0 {
          var candidate := Strip(current);
          if candidate != "" {
            logicalRows := logicalRows + [candidate];
          }
          current := "";
          started := false;
        } else {
          current := current + [ch];
        }
        escaped := false;
      } else {
        current := current + [ch];
        if inString {
          if escaped {
            escaped := false;
          } else if ch == '\\' {
            escaped := true;
          } else if ch == '\"' {
            inString := false;
          }
        } else if ch == '\"' {
          inString := true;
        }
      }
      assert Lex(inString, escaped, depth) == Step(BOTH, before, ch);
    }
    FramedDone(text, logicalRows, current, repaired, marks, Lex(inString, escaped, depth), started);
    var candidate := Strip(current);
    if candidate != "" {
      logicalRows := logicalRows + [candidate];
    }
    var parseErrors;
    rows, parseErrors := ParseRows(logicalRows);
    report := Report(PhysicalLines(text), |logicalRows|, |rows|, parseErrors, repaired);
  }

  /** The second loop of `reframed_json_rows`. */
  method ParseRows(logicalRows: seq<string>) returns (rows: seq<Json>, parseErrors: nat)
    ensures rows == ParsedObjects(logicalRows) && parseErrors == ParseErrors(logicalRows)
  {
    hide Loads;
    rows, parseErrors := [], 0;
    for k := 0 to |logicalRows|
      invariant rows == ParsedObjects(logicalRows[..k]) && parseErrors == ParseErrors(logicalRows[..k])
    {
      assert logicalRows[..k + 1][..k] == logicalRows[..k];
      match Loads(logicalRows[k]) {
        case None => parseErrors := parseErrors + 1;
        case Some(payload) =>
          if payload.Obj? {
            rows := rows + [payload];
          }
      }
    }
    assert logicalRows[..|logicalRows|] == logicalRows;
  }

  // ---------------------------------------------------------------------------------------
  // Marks and pieces

  lemma {:induction false} RenderAppend(a: seq<Mark>, m: Mark)
    ensures Render(a + [m]) == Render(a) + RenderMark(m)
  {
    if a == [] {
      assert Render([m]) == RenderMark(m) + Render([]);
    } else {
      RenderAppend(a[1..], m);
      assert (a + [m])[1..] == a[1..] + [m];
    }
  }

  lemma {:induction false} RepairsAppend(a: seq<Mark>, m: Mark)
    ensures Repairs(a + [m]) == Repairs(a) + (if m.Repaired? then 1 else 0)
  {
    if a != [] {
      RepairsAppend(a[1..], m);
      assert (a + [m])[1..] == a[1..] + [m];
    }
  }

  lemma GlueTwice(a: seq<Mark>, b: seq<Mark>, pieces: seq<seq<Mark>>)
    requires pieces != []
    ensures Glue(a, Glue(b, pieces)) == Glue(a + b, pieces)
  {
    assert a + (b + pieces[0]) == (a + b) + pieces[0];
  }

  lemma GlueNothing(pieces: seq<seq<Mark>>)
    requires pieces != []
    ensures Glue([], pieces) == pieces
  {
    assert [] + pieces[0] == pieces[0];
    assert pieces == [pieces[0]] + pieces[1..];
  }

  lemma GlueWhole(front: seq<Mark>, rest: seq<seq<Mark>>)
    ensures Glue(front, [[]] + rest) == [front] + rest
    ensures Rows([front] + rest) == RowOf(Render(front)) + Rows(rest)
    ensures AllRepairs([front] + rest) == Repairs(front) + AllRepairs(rest)
  {
    assert front + [] == front;
    assert ([[]] + rest)[1..] == rest;
    assert ([front] + rest)[1..] == rest;
  }

  lemma FramedInit(text: string)
    ensures Framed(text, 0, [], "", 0, [], START, false)
  {
    GlueNothing(Pieces(text));
  }

  lemma FramedKeep(text: string, i: nat, rows: seq<string>, current: string, repaired: nat,
                   marks: seq<Mark>, st: Lex, started: bool)
    requires i < |text| && Framed(text, i, rows, current, repaired, marks, st, started)
    requires !EndsRow(st, started, text[i])
    ensures var m := MarkOf(st, text[i]);
      Framed(text, i + 1, rows, current + RenderMark(m), repaired + (if m.Repaired? then 1 else 0), marks + [m],
             Step(BOTH, st, text[i]), Starts(st, started, text[i]))
  {
    hide Step, Rows, AllRepairs;
    var m := MarkOf(st, text[i]);
    RenderAppend(marks, m);
    RepairsAppend(marks, m);
    GlueTwice(marks, [m], Cut(text, i + 1, Step(BOTH, st, text[i]), Starts(st, started, text[i])));
  }

  lemma FramedSplit(text: string, i: nat, rows: seq<string>, current: string, repaired: nat,
                    marks: seq<Mark>, st: Lex, started: bool)
    requires i < |text| && Framed(text, i, rows, current, repaired, marks, st, started)
    requires EndsRow(st, started, text[i])
    ensures Framed(text, i + 1, Collect(rows, current), "", repaired, [], START, false)
  {
    hide Step, Rows, AllRepairs, RowOf;
    var rest := Cut(text, i + 1, START, false);
    GlueWhole(marks, rest);
    GlueNothing(rest);
    assert rows + (RowOf(current) + Rows(rest)) == rows + RowOf(current) + Rows(rest);
  }

  lemma FramedDone(text: string, rows: seq<string>, current: string, repaired: nat,
                   marks: seq<Mark>, st: Lex, started: bool)
    requires Framed(text, |text|, rows, current, repaired, marks, st, started)
    ensures LogicalRows(text) == Collect(rows, current)
    ensures AllRepairs(Pieces(text)) == repaired
  {
    var none: seq<seq<Mark>> := [];
    assert [[]] + none == [[]];
    GlueWhole(marks, none);
    assert Rows(none) == [];
  }
}
