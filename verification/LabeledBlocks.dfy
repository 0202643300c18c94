/** Reading alternating label lines and JSON objects from a CLI's verbose model listing. */
module LabeledBlocks {
  import opened PyText
  import opened Json
  import opened JsonFacts
  import opened JsonSpelling
  import opened JsonGrammar
  import opened Lexing

  datatype Row = Row(heading: Option<string>, payload: Json)

  /** The rows read, or the error raised for a malformed object. */
  datatype Blocks = Blocks(rows: seq<Row>) | Malformed

  function Prepend(rows: seq<Row>, rest: Blocks): Blocks {
    match rest
    case Blocks(more) => Blocks(rows + more)
    case Malformed => Malformed
  }

  /** `str.find("\n", i)`. */
  function FindNewline(s: string, i: nat): (r: Option<nat>)
    requires i <= |s|
    ensures r.Some? ==> i <= r.value < |s| && s[r.value] == '\n' && '\n' !in s[i..r.value]
    ensures r.None? ==> '\n' !in s[i..]
    decreases |s| - i
  {
    if i == |s| then None
    else if s[i] == '\n' then Some(i)
    else
      var r := FindNewline(s, i + 1);
      assert s[i..] == [s[i]] + s[i + 1..];
      assert r.Some? ==> s[i..r.value] == [s[i]] + s[i + 1..r.value];
      r
  }

  /** The rows from `position` on. */
  function BlocksFrom(text: string, position: nat): Blocks
    requires position <= |text|
    decreases |text| - position
  {
    var p := SkipSpace(text, position);
    if p >= |text| then Blocks([])
    else if text[p] == '{' then ObjectAt(text, p, None)
    else
      match FindNewline(text, p)
      case None => Blocks([])
      case Some(end) =>
        var candidate := Strip(text[p..end]);
        var q := SkipSpace(text, end + 1);
        if q >= |text| || text[q] != '{' then BlocksFrom(text, q)
        else ObjectAt(text, q, if candidate != "" then Some(candidate) else None)
  }

  /** The object at `p`, under its label, and the rows behind it. */
  function ObjectAt(text: string, p: nat, heading: Option<string>): Blocks
    requires p < |text|
    decreases |text| - p, 0
  {
    match Value(text, p)
    case Fail => Malformed
    case At(payload, next) => Prepend([Row(heading, payload)], BlocksFrom(text, next))
  }

  /** The two inner loops of `extract_labeled_json_blocks`. */
  method SkipSpaces(text: string, from: nat) returns (position: nat)
    requires from <= |text|
    ensures position == SkipSpace(text, from)
  {
    position := from;
    while position < |text| && IsSpace(text[position])
      invariant from <= position <= |text| && SkipSpace(text, from) == SkipSpace(text, position)
    {
      position := position + 1;
    }
  }

  /** `extract_labeled_json_blocks`. Every pass of the outer loop moves `position` forward. */
  method ExtractLabeledJsonBlocks(text: string) returns (r: Blocks)
    ensures r == BlocksFrom(text, 0)
  {
    hide Value, Strip, SkipSpace, FindNewline, IsSpace;
    var rows: seq<Row> := [];
    var position := 0;
    while position < |text|
      invariant position <= |text|
      invariant BlocksFrom(text, 0) == Prepend(rows, BlocksFrom(text, position))
    {
      ghost var from := position;
      position := SkipSpaces(text, position);
      if position >= |text| {
        assert BlocksFrom(text, from) == Blocks([]);
        break;
      }
      var heading := None;
      if text[position] != '{' {
        var lineEnd := FindNewline(text, position);
        if lineEnd.None? {
          assert BlocksFrom(text, from) == Blocks([]);
          break;
        }
        var candidate := Strip(text[position..lineEnd.value]);
        position := lineEnd.value + 1;
        if candidate != "" {
          heading := Some(candidate);
        }
        position := SkipSpaces(text, position);
      }
      if position >= |text| || text[position] != '{' {
        continue;
      }
      match Value(text, position) {
        case Fail => return Malformed;
        case At(payload, nextPosition) =>
          assert BlocksFrom(text, from) == Prepend([Row(heading, payload)], BlocksFrom(text, nextPosition));
          PrependTwice(rows, [Row(heading, payload)], BlocksFrom(text, nextPosition));
          rows := rows + [Row(heading, payload)];
          position := nextPosition;
      }
    }
    assert BlocksFrom(text, 0) == Blocks(rows) by {
      assert rows + [] == rows;
    }
    return Blocks(rows);
  }

  lemma PrependTwice(a: seq<Row>, b: seq<Row>, rest: Blocks)
    ensures Prepend(a, Prepend(b, rest)) == Prepend(a + b, rest)
  {
    match rest {
      case Blocks(more) => assert a + (b + more) == a + b + more;
      case Malformed =>
    }
  }

  // ---------------------------------------------------------------------------------------
  // Round trip

  /** A text line in front of an object: its text, the spaces behind it up to the newline, and
      the blank lines and indentation after that. */
  datatype Line = Line(text: string, pad: string, blank: string) {
    predicate Valid() {
      IsLabel(text) && AllSpace(pad) && '\n' !in pad && AllSpace(blank)
    }
    function Text(): string { text + pad + "\n" + blank }
  }

  /** A label that survives its line: not blank, trimmed, on one line, no object itself. */
  predicate IsLabel(s: string) {
    Solid(s) && '\n' !in s && s[0] != '{'
  }

  predicate AllLines(lines: seq<Line>) {
    forall k :: 0 <= k < |lines| ==> lines[k].Valid()
  }

  function LinesText(lines: seq<Line>): string {
    if lines == [] then "" else lines[0].Text() + LinesText(lines[1..])
  }

  /** One block: text lines, an object in any spelling, and whitespace behind it. */
  datatype Block = Block(lines: seq<Line>, body: string, value: Json, gap: string) {
    ghost predicate Valid() {
      value.Obj? && Spells(body, value) && AllSpace(gap) && AllLines(lines)
    }
    function Head(): string { LinesText(lines) }
    function Text(): string { Head() + body + gap }
    /** Only the last line before an object is its label. */
    function Heading(): Option<string> {
      if lines == [] then None else Some(lines[|lines| - 1].text)
    }
    function AsRow(): Row { Row(Heading(), value) }
  }

  ghost predicate AllValid(items: seq<Block>) {
    forall k :: 0 <= k < |items| ==> items[k].Valid()
  }

  function Render(items: seq<Block>): string {
    if items == [] then "" else items[0].Text() + Render(items[1..])
  }

  lemma BlockIsObject(item: Block)
    requires item.Valid()
    ensures IsObjectText(item.body) && ObjectOf(item.body) == item.value
    ensures item.body != "" && item.body[0] == '{'
  {
    hide Spells, Value, Valid;
    ObjectTextExactly(item.body, item.value);
  }

  function RowsOf(items: seq<Block>): seq<Row> {
    if items == [] then [] else [items[0].AsRow()] + RowsOf(items[1..])
  }

  lemma SpacesAt(text: string, k: nat, gap: string)
    requires OccursAt(text, k, gap) && AllSpace(gap)
    ensures k + |gap| <= |text| && forall m :: k <= m < k + |gap| ==> IsSpace(text[m])
  {
    hide OccursAt, IsSpace;
    OccursInside(text, k, gap);
    forall m | k <= m < k + |gap| ensures IsSpace(text[m]) {
      OccursChar(text, k, gap, m - k);
    }
  }

  lemma {:induction false} SkipsTo(text: string, k: nat, n: nat)
    requires k <= n <= |text| && forall m :: k <= m < n ==> IsSpace(text[m])
    ensures SkipSpace(text, k) == SkipSpace(text, n)
    decreases n - k
  {
    hide IsSpace;
    if k < n {
      SkipsTo(text, k + 1, n);
    }
  }

  lemma SkipGap(text: string, k: nat, gap: string)
    requires OccursAt(text, k, gap) && AllSpace(gap)
    ensures k + |gap| <= |text| && BlocksFrom(text, k) == BlocksFrom(text, k + |gap|)
  {
    hide ObjectAt, FindNewline, OccursAt, IsSpace, Strip, AllSpace;
    OccursInside(text, k, gap);
    SpacesAt(text, k, gap);
    SkipsTo(text, k, k + |gap|);
  }

  lemma {:induction false} FindsLineEnd(text: string, i: nat, end: nat)
    requires i <= end < |text| && text[end] == '\n' && '\n' !in text[i..end]
    ensures FindNewline(text, i) == Some(end)
    decreases end - i
  {
    if i < end {
      assert text[i..end][0] == text[i] && text[i..end][1..] == text[i + 1..end];
      FindsLineEnd(text, i + 1, end);
    }
  }

  /** Where the parts of a line stand. */
  lemma LinePlaces(text: string, k: nat, line: Line, rest: string)
    requires line.Valid() && OccursAt(text, k, line.Text() + rest)
    ensures var end := k + |line.text| + |line.pad|;
      var n := end + 1 + |line.blank|;
      && n == k + |line.Text()| && end < |text| && n <= |text|
      && text[k..end] == line.text + line.pad && text[end] == '\n' && '\n' !in text[k..end]
      && OccursAt(text, end + 1, line.blank) && OccursAt(text, n, rest)
  {
    hide OccursAt, AllSpace, Trimmed;
    var end := k + |line.text| + |line.pad|;
    OccursAtSplit(text, k, line.Text(), rest);
    OccursAtSplit(text, k, line.text + line.pad + "\n", line.blank);
    OccursAtSplit(text, k, line.text + line.pad, "\n");
    OccursChar(text, end, "\n", 0);
    OccursInside(text, end + 1, line.blank);
    assert text[k..end] == line.text + line.pad by { OccursSlice(text, k, line.text + line.pad); }
  }

  lemma OccursSlice(s: string, i: nat, t: string)
    requires OccursAt(s, i, t)
    ensures i + |t| <= |s| && s[i..i + |t|] == t
  {
  }

  lemma StripPadded(t: string, pad: string)
    requires Solid(t) && AllSpace(pad)
    ensures Strip(t + pad) == t
  {
    StripOfSlice(t + pad, 0, |t|);
  }

  /** A line is the label of the object behind it; in front of anything else it is dropped. */
  lemma LineFacts(text: string, k: nat, line: Line, rest: string)
    requires line.Valid() && OccursAt(text, k, line.Text() + rest)
    requires k + |line.Text()| < |text| ==> !IsSpace(text[k + |line.Text()|])
    ensures var end, n := k + |line.text| + |line.pad|, k + |line.Text()|;
      && k < end < n <= |text| && SkipSpace(text, k) == k && text[k] != '{' && FindNewline(text, k) == Some(end)
      && Strip(text[k..end]) == line.text != "" && SkipSpace(text, end + 1) == n && SkipSpace(text, n) == n
  {
    hide ObjectAt, Strip, OccursAt, IsSpace, AllSpace, FindNewline, BlocksFrom;
    var end, n := k + |line.text| + |line.pad|, k + |line.Text()|;
    LinePlaces(text, k, line, rest);
    assert text[k] == line.text[0] by { assert text[k..end][0] == text[k]; }
    FindsLineEnd(text, k, end);
    StripPadded(line.text, line.pad);
    SpacesAt(text, end + 1, line.blank);
    SkipsTo(text, end + 1, n);
    assert SkipSpace(text, k) == k by { assert !IsSpace(line.text[0]); }
  }

  lemma LineRead(text: string, k: nat, line: Line, rest: string)
    requires line.Valid() && OccursAt(text, k, line.Text() + rest)
    requires k + |line.Text()| < |text| ==> !IsSpace(text[k + |line.Text()|])
    ensures var n := k + |line.Text()|;
      n <= |text| && BlocksFrom(text, k) ==
        if n < |text| && text[n] == '{' then ObjectAt(text, n, Some(line.text)) else BlocksFrom(text, n)
  {
    hide *;
    LineFacts(text, k, line, rest);
    BehindLine(text, k, k + |line.text| + |line.pad|, k + |line.Text()|, line.text);
  }

  lemma BehindLine(text: string, k: nat, end: nat, n: nat, heading: string)
    requires k < |text| && SkipSpace(text, k) == k && text[k] != '{' && FindNewline(text, k) == Some(end)
    requires Strip(text[k..end]) == heading != "" && SkipSpace(text, end + 1) == n
    ensures BlocksFrom(text, k) ==
      if n < |text| && text[n] == '{' then ObjectAt(text, n, Some(heading)) else BlocksFrom(text, n)
  {
    hide ObjectAt, Strip, IsSpace, FindNewline, SkipSpace;
  }

  /** Of several lines only the last can be a label. */
  lemma {:induction false} LinesRead(text: string, k: nat, lines: seq<Line>, rest: string)
    requires AllLines(lines) && lines != [] && OccursAt(text, k, LinesText(lines) + rest)
    requires k + |LinesText(lines)| < |text| ==> !IsSpace(text[k + |LinesText(lines)|])
    ensures var n := k + |LinesText(lines)|;
      n <= |text| && BlocksFrom(text, k) ==
        if n < |text| && text[n] == '{' then ObjectAt(text, n, Some(lines[|lines| - 1].text)) else BlocksFrom(text, n)
    decreases |lines|
  {
    hide ObjectAt, BlocksFrom, OccursAt, IsSpace, IsLabel;
    var line, more := lines[0], LinesText(lines[1..]) + rest;
    assert LinesText(lines) + rest == line.Text() + more;
    if |lines| == 1 {
      assert lines[1..] == [] && LinesText(lines) == line.Text();
      LineRead(text, k, line, more);
    } else {
      var n := k + |line.Text()|;
      LinePlaces(text, k, line, more);
      FirstOfLines(lines[1..], rest);
      OccursChar(text, n, more, 0);
      LineRead(text, k, line, more);
      LinesRead(text, n, lines[1..], rest);
    }
  }

  lemma FirstOfLines(lines: seq<Line>, rest: string)
    requires AllLines(lines) && lines != []
    ensures var t := LinesText(lines) + rest; t != "" && t[0] != '{' && !IsSpace(t[0])
  {
    assert lines[0].Valid();
    assert (LinesText(lines) + rest)[0] == lines[0].text[0];
  }

  /** What may follow the last object: more text lines, and a last one without a newline. */
  datatype Tail = Tail(lines: seq<Line>, cut: string) {
    predicate Valid() {
      AllLines(lines) && (cut != "" ==> IsLabel(cut))
    }
    function Text(): string { LinesText(lines) + cut }
  }

  lemma TailRead(text: string, k: nat, tail: Tail)
    requires tail.Valid() && OccursAt(text, k, tail.Text()) && k + |tail.Text()| == |text|
    ensures BlocksFrom(text, k) == Blocks([])
  {
    hide OccursAt, ObjectAt, IsSpace;
    var n := k + |LinesText(tail.lines)|;
    OccursAtSplit(text, k, LinesText(tail.lines), tail.cut);
    if tail.cut != "" {
      OccursChar(text, n, tail.cut, 0);
    }
    if tail.lines != [] {
      LinesRead(text, k, tail.lines, tail.cut);
    }
    if tail.cut != "" {
      OccursSlice(text, n, tail.cut);
      assert text[n..] == tail.cut;
      NoNewlineLeft(text, n);
    }
  }

  lemma NoNewlineLeft(text: string, n: nat)
    requires n < |text| && !IsSpace(text[n]) && text[n] != '{' && '\n' !in text[n..]
    ensures BlocksFrom(text, n) == Blocks([])
  {
    hide ObjectAt, IsSpace;
    forall m | n <= m < |text| ensures text[m] != '\n' {
      assert text[n..][m - n] == text[m];
    }
  }

  /** Blocks are read one by one, whatever stands behind them. */
  lemma {:induction false} ItemsRead(text: string, k: nat, items: seq<Block>, rest: string)
    requires AllValid(items) && OccursAt(text, k, Render(items) + rest)
    ensures k + |Render(items)| <= |text|
    ensures BlocksFrom(text, k) == Prepend(RowsOf(items), BlocksFrom(text, k + |Render(items)|))
    decreases |items|
  {
    hide Spells, Value, IsLabel, OccursAt, BlocksFrom, FindNewline, LinesText, IsSpace;
    OccursInside(text, k, Render(items) + rest);
    if items == [] {
      PrependNothing(BlocksFrom(text, k));
    } else {
      var item, more := items[0], Render(items[1..]) + rest;
      var o := k + |item.Head()|;
      var e := o + |item.body|;
      assert Render(items) + rest == item.Text() + more;
      ItemPlaces(text, k, item, more);
      SkipGap(text, e, item.gap);
      ItemsRead(text, e + |item.gap|, items[1..], rest);
      PrependTwice([item.AsRow()], RowsOf(items[1..]), BlocksFrom(text, k + |Render(items)|));
      BraceIsNoSpace();
      if item.lines != [] {
        assert item.Text() + more == LinesText(item.lines) + (item.body + item.gap + more);
        LinesRead(text, k, item.lines, item.body + item.gap + more);
      } else {
        NoLines();
        BareObject(text, o);
      }
    }
  }

  lemma PrependNothing(rest: Blocks)
    ensures Prepend([], rest) == rest
  {
    match rest {
      case Blocks(more) => assert [] + more == more;
      case Malformed =>
    }
  }

  lemma NoLines()
    ensures LinesText([]) == ""
  {
  }

  lemma BraceIsNoSpace()
    ensures !IsSpace('{')
  {
  }

  lemma BareObject(text: string, o: nat)
    requires o < |text| && text[o] == '{'
    ensures BlocksFrom(text, o) == ObjectAt(text, o, None)
  {
    hide ObjectAt;
  }

  /** Where the parts of a printed block stand. */
  lemma ItemPlaces(text: string, k: nat, item: Block, rest: string)
    requires item.Valid() && OccursAt(text, k, item.Text() + rest)
    ensures var o := k + |item.Head()|;
      var e := o + |item.body|;
      && OccursAt(text, k, item.Head())
      && o < |text| && text[o] == '{' && OccursAt(text, o, item.body)
      && Value(text, o) == At(item.value, e)
      && OccursAt(text, e, item.gap) && OccursAt(text, e + |item.gap|, rest)
  {
    hide Value, OccursAt, LinesText, AllLines, AllSpace, Spells, Block.Valid, Block.Head;
    var o := k + |item.Head()|;
    BlockIsObject(item);
    OccursAtSplit(text, k, item.Text(), rest);
    OccursAtSplit(text, k, item.Head() + item.body, item.gap);
    OccursAtSplit(text, k, item.Head(), item.body);
    OccursChar(text, o, item.body, 0);
    OccursInside(text, o, item.body);
    ObjectAnywhere(text, o, item.body);
  }

  /** Printing objects under text lines and reading them gives them back, in order, each with the
      last line in front of it as its label: blank lines, spaces around a label, lines that are
      followed by another line, and whatever lines come after the last object change nothing. */
  lemma BlocksRoundTrip(front: string, items: seq<Block>, tail: Tail)
    requires AllSpace(front) && AllValid(items) && tail.Valid()
    ensures BlocksFrom(front + Render(items) + tail.Text(), 0) == Blocks(RowsOf(items))
  {
    hide AllSpace, OccursAt, BlocksFrom, Spells, IsLabel, IsSpace, LinesText, AllLines;
    var text, rest := front + Render(items) + tail.Text(), Render(items) + tail.Text();
    assert text == front + rest;
    WholeText(text);
    OccursAtSplit(text, 0, front, rest);
    SkipGap(text, 0, front);
    ItemsRead(text, |front|, items, tail.Text());
    OccursAtSplit(text, |front|, Render(items), tail.Text());
    TailRead(text, |front| + |Render(items)|, tail);
    assert RowsOf(items) + [] == RowsOf(items);
  }

  /** No beginning of the text spells anything. */
  ghost predicate NothingSpelled(bad: string) {
    forall n, v :: 0 <= n <= |bad| ==> !Spells(bad[..n], v)
  }

  /** One malformed object, behind a label or not, fails the whole reading, however many good
      blocks came before it. */
  lemma MalformedRaises(front: string, items: seq<Block>, lines: seq<Line>, bad: string)
    requires AllSpace(front) && AllValid(items) && AllLines(lines)
    requires bad != "" && bad[0] == '{' && NothingSpelled(bad)
    ensures BlocksFrom(front + Render(items) + LinesText(lines) + bad, 0) == Malformed
  {
    hide AllSpace, OccursAt, BlocksFrom, Spells, NothingSpelled, AllLines, IsSpace, LinesText, Render, AllValid;
    var text, rest := front + Render(items) + LinesText(lines) + bad, Render(items) + (LinesText(lines) + bad);
    assert text == front + rest;
    WholeText(text);
    OccursAtSplit(text, 0, front, rest);
    SkipGap(text, 0, front);
    ItemsRead(text, |front|, items, LinesText(lines) + bad);
    OccursAtSplit(text, |front|, Render(items), LinesText(lines) + bad);
    BadBehindLines(text, |front| + |Render(items)|, lines, bad);
  }

  lemma BadBehindLines(text: string, k: nat, lines: seq<Line>, bad: string)
    requires AllLines(lines) && OccursAt(text, k, LinesText(lines) + bad) && k + |LinesText(lines) + bad| == |text|
    requires bad != "" && bad[0] == '{' && NothingSpelled(bad)
    ensures BlocksFrom(text, k) == Malformed
  {
    hide OccursAt, BlocksFrom, NothingSpelled, AllLines, IsSpace, LinesText;
    var p := k + |LinesText(lines)|;
    OccursAtSplit(text, k, LinesText(lines), bad);
    OccursChar(text, p, bad, 0);
    BadObject(text, p, bad);
    BraceIsNoSpace();
    if lines != [] {
      LinesRead(text, k, lines, bad);
    } else {
      NoLines();
      BareObject(text, k);
    }
  }

  lemma BadObject(text: string, p: nat, bad: string)
    requires OccursAt(text, p, bad) && p + |bad| == |text| && bad != "" && NothingSpelled(bad)
    ensures forall heading :: ObjectAt(text, p, heading) == Malformed
  {
    hide Spells;
    if Value(text, p).At? {
      var n, v := SpelledPrefix(text, p, bad);
    }
  }

  lemma SpelledPrefix(text: string, p: nat, bad: string) returns (n: nat, v: Json)
    requires OccursAt(text, p, bad) && p + |bad| == |text| && Value(text, p).At?
    ensures n <= |bad| && Spells(bad[..n], v)
  {
    var w := DecodedIsWritten(text, p);
    n, v := Value(text, p).next - p, Meaning(w);
    SliceOfSlice(text, p, |text|, 0, n);
    assert text[p..p + n] == bad[..n];
  }

  lemma PrintedBlocks(items: seq<Block>)
    requires AllValid(items)
    ensures BlocksFrom(Render(items), 0) == Blocks(RowsOf(items))
  {
    hide BlocksFrom;
    var none := Tail([], "");
    assert "" + Render(items) + none.Text() == Render(items);
    BlocksRoundTrip("", items, none);
  }

  lemma WholeText(s: string)
    ensures OccursAt(s, 0, s)
  {
  }

  // ---------------------------------------------------------------------------------------
  // The entry point, which tries the whole text as JSON first

  function DictRows(items: seq<Json>): seq<Row> {
    if items == [] then []
    else (if items[0].Obj? then [Row(None, items[0])] else []) + DictRows(items[1..])
  }

  /** `extract_model_rows`. */
  function ModelRows(payload: Json): seq<Row> {
    match payload
    case Arr(items) => DictRows(items)
    case Obj(members) =>
      (match Get(members, "models")
       case Some(Arr(items)) => DictRows(items)
       case _ =>
         if HasText(members, "id") || HasText(members, "model") then [Row(None, payload)] else [])
    case _ => []
  }

  /** How many objects there are among the first `k` values. */
  function Rank(items: seq<Json>, k: nat): nat
    requires k <= |items|
  {
    |set j | 0 <= j < k && items[j].Obj?|
  }

  /** The rows are the objects among the values, without labels, each in its place. */
  predicate Lists(rows: seq<Row>, items: seq<Json>) {
    && |rows| == Rank(items, |items|)
    && forall k :: 0 <= k < |items| && items[k].Obj? ==> Rank(items, k) < |rows| && rows[Rank(items, k)] == Row(None, items[k])
  }

  lemma RankZero(items: seq<Json>)
    ensures Rank(items, 0) == 0
  {
  }

  lemma RankStep(items: seq<Json>, k: nat)
    requires k < |items|
    ensures Rank(items, k + 1) == Rank(items, k) + if items[k].Obj? then 1 else 0
  {
    var a, b := set j | 0 <= j < k && items[j].Obj?, set j | 0 <= j < k + 1 && items[j].Obj?;
    if items[k].Obj? {
      assert b == a + {k};
    } else {
      assert b == a;
    }
  }

  lemma RankOfPrefix(items: seq<Json>, n: nat, k: nat)
    requires k <= n <= |items|
    ensures Rank(items[..n], k) == Rank(items, k)
  {
    assert (set j | 0 <= j < k && items[..n][j].Obj?) == set j | 0 <= j < k && items[j].Obj?;
  }

  lemma DictRowsCons(first: Json, rest: seq<Json>)
    ensures DictRows([first] + rest) == (if first.Obj? then [Row(None, first)] else []) + DictRows(rest)
  {
    assert ([first] + rest)[1..] == rest;
  }

  lemma {:induction false} DictRowsSnoc(items: seq<Json>, x: Json)
    ensures DictRows(items + [x]) == DictRows(items) + if x.Obj? then [Row(None, x)] else []
  {
    if items == [] {
      assert items + [x] == [x] + [];
      DictRowsCons(x, []);
    } else {
      var rest := items[1..];
      DictRowsSnoc(rest, x);
      hide DictRows;
      DictRowsCons(items[0], rest);
      DictRowsCons(items[0], rest + [x]);
      assert items == [items[0]] + rest && items + [x] == [items[0]] + (rest + [x]);
    }
  }

  lemma {:induction false} DictRowsList(items: seq<Json>)
    ensures Lists(DictRows(items), items)
    decreases |items|
  {
    if items == [] {
      RankZero(items);
    } else {
      var n := |items| - 1;
      var most := items[..n];
      assert items == most + [items[n]];
      DictRowsList(most);
      DictRowsSnoc(most, items[n]);
      RankStep(items, n);
      RankOfPrefix(items, n, n);
      hide Rank;
      forall k | 0 <= k < |items| && items[k].Obj? ensures Rank(items, k) < |DictRows(items)| && DictRows(items)[Rank(items, k)] == Row(None, items[k]) {
        RankOfPrefix(items, n, k);
        if k < n {
          assert most[k] == items[k];
        }
      }
    }
  }

  /** A text that is one JSON document: a list gives its objects, an object with a list of models
      gives the objects of that list, another object gives itself if it has an id or a model, and
      everything else gives nothing. */
  lemma DocumentRows(s: string, v: Json)
    requires Document(s, v)
    ensures ExtractRows(s).Blocks?
    ensures var rows := ExtractRows(s).rows;
      match v
      case Arr(items) => Lists(rows, items)
      case Obj(members) =>
        if Field(members, "models").Arr? then Lists(rows, Field(members, "models").items)
        else rows == if Field(members, "id").Str? || Field(members, "model").Str? then [Row(None, v)] else []
      case _ => rows == []
  {
    hide Loads, Document, Lists;
    LoadsExactly(s, v);
    match v {
      case Arr(items) => DictRowsList(items);
      case Obj(members) =>
        if Field(members, "models").Arr? {
          DictRowsList(Field(members, "models").items);
        }
      case _ =>
    }
  }

  predicate HasText(members: seq<(string, Json)>, name: string) {
    Get(members, name).Some? && Get(members, name).value.Str?
  }

  /** An object that `extract_model_rows` takes for a model, not for a list of them. */
  predicate ReadsAsModel(payload: Json) {
    && payload.Obj?
    && !(Get(payload.members, "models").Some? && Get(payload.members, "models").value.Arr?)
    && (HasText(payload.members, "id") || HasText(payload.members, "model"))
  }

  lemma {:induction false} DictRowsAreItems(items: seq<Json>, row: Row)
    requires row in DictRows(items)
    ensures row.payload in items
  {
    if items[0].Obj? && row == Row(None, items[0]) {
    } else {
      DictRowsAreItems(items[1..], row);
    }
  }

  lemma ModelIsOwnRow(payload: Json)
    requires payload.Obj?
    ensures ModelRows(payload) == [Row(None, payload)] <==> ReadsAsModel(payload)
  {
    match Get(payload.members, "models") {
      case Some(Arr(items)) =>
        ItemIsNotWhole(payload.members, "models", items);
        if DictRows(items) == [Row(None, payload)] {
          assert Row(None, payload) in DictRows(items);
          DictRowsAreItems(items, Row(None, payload));
        }
      case _ =>
    }
  }

  /** `extract_labeled_json_rows`. */
  function ExtractRows(text: string): Blocks {
    match Loads(text)
    case Some(payload) => Blocks(ModelRows(payload))
    case None => BlocksFrom(text, 0)
  }

  /** Printed blocks are valid JSON as a whole only when they are one unlabelled object with
      JSON whitespace behind it. */
  lemma RenderedLoads(items: seq<Block>)
    requires AllValid(items)
    ensures Loads(Render(items)) ==
      if |items| == 1 && items[0].lines == [] && AllWs(items[0].gap) then Some(items[0].value) else None
  {
    hide Loads, ObjectOf, AllWs;
    if items == [] {
      EmptyDoesNotLoad();
    } else {
      FirstCharacter(items);
      if items[0].lines == [] {
        UnlabelledFirst(items);
      } else {
        LabelledFirst(items);
      }
    }
  }

  lemma EmptyDoesNotLoad()
    ensures Loads("") == None
  {
  }

  lemma LabelledFirst(items: seq<Block>)
    requires AllValid(items) && items != [] && items[0].lines != []
    ensures Loads(Render(items)) == None
  {
    hide Value, Render;
    FirstCharacter(items);
    if Loads(Render(items)).Some? {
      ValueEnds(Render(items), 0);
      var z := LastBrace(items);
      assert false;
    }
  }

  /** Printed blocks start with a label's first character or a brace, no space. */
  lemma FirstCharacter(items: seq<Block>)
    requires AllValid(items) && items != []
    ensures Render(items) != "" && SkipWs(Render(items), 0) == 0 && !IsSpace(Render(items)[0])
    ensures Render(items)[0] == '{' <==> items[0].lines == []
  {
    hide Value, Spells;
    BlockIsObject(items[0]);
  }

  lemma UnlabelledFirst(items: seq<Block>)
    requires AllValid(items) && items != [] && items[0].lines == []
    ensures Loads(Render(items)) ==
      if |items| == 1 && AllWs(items[0].gap) then Some(items[0].value) else None
  {
    hide Value, OccursAt, Spells, Render, AllWs, LinesText, IsSpace;
    NoLines();
    var text, item := Render(items), items[0];
    var e := |item.body|;
    WholeText(text);
    RenderCons(items);
    ItemPlaces(text, 0, item, Render(items[1..]));
    FirstCharacter(items);
    if |items| == 1 {
      assert items[1..] == [];
      GapToEnd(text, e, item.gap);
    } else {
      FirstCharacter(items[1..]);
      OccursChar(text, e + |item.gap|, Render(items[1..]), 0);
      OccursInside(text, e + |item.gap|, Render(items[1..]));
    }
  }

  lemma RenderCons(items: seq<Block>)
    requires items != []
    ensures Render(items) == items[0].Text() + Render(items[1..])
    ensures |items| == 1 ==> |Render(items)| == |items[0].Text()|
  {
  }

  lemma GapToEnd(text: string, e: nat, gap: string)
    requires OccursAt(text, e, gap) && e + |gap| == |text|
    ensures SkipWs(text, e) == |text| <==> AllWs(gap)
  {
    forall m | 0 <= m < |gap| ensures text[e + m] == gap[m] {
      OccursChar(text, e, gap, m);
    }
    assert AllWs(gap) ==> SkipWs(text, e) == |text|;
    assert SkipWs(text, e) == |text| ==> AllWs(gap);
  }

  /** The last character of `s` that is no space is a closing brace, at `z`. */
  predicate EndsAt(s: string, z: nat) {
    z < |s| && s[z] == '}' && forall k :: z < k < |s| ==> IsSpace(s[k])
  }

  lemma EndsBehind(front: string, s: string, z: nat)
    requires EndsAt(s, z)
    ensures EndsAt(front + s, |front| + z)
  {
  }

  /** Printed blocks end with the last object's brace, spaces aside. */
  lemma {:induction false} LastBrace(items: seq<Block>) returns (z: nat)
    requires AllValid(items) && items != []
    ensures EndsAt(Render(items), z)
    decreases |items|
  {
    hide Value, IsObjectText, OccursAt, IsLabel, EndsAt, IsSpace;
    var item := items[0];
    RenderCons(items);
    BlockIsObject(item);
    if |items| == 1 {
      ObjectEnds(item.body);
      EndsBehind(item.Head(), item.body + item.gap, |item.body| - 1);
      z := |item.Head()| + |item.body| - 1;
      assert items[1..] == [];
      assert Render(items) == item.Text() + "" == item.Head() + (item.body + item.gap);
    } else {
      var rest := LastBrace(items[1..]);
      z := |item.Text()| + rest;
      EndsBehind(item.Text(), Render(items[1..]), rest);
    }
  }

  /** Reading printed blocks through the entry point gives them back exactly when they are not
      one bare object, or the guard of the entry point takes that object for a model: its
      `models` is no list, and its `id` or its `model` is a string. */
  lemma RowsRoundTrip(items: seq<Block>)
    requires AllValid(items)
    ensures ExtractRows(Render(items)) == Blocks(RowsOf(items)) <==>
      (|items| == 1 && items[0].lines == [] && AllWs(items[0].gap) ==> ReadsAsModel(items[0].value))
  {
    hide Value, ModelRows, IsObjectText, ReadsAsModel, BlocksFrom;
    RenderedLoads(items);
    PrintedBlocks(items);
    if |items| == 1 {
      assert items[1..] == [];
      assert RowsOf(items) == [items[0].AsRow()];
      ModelIsOwnRow(items[0].value);
    }
  }

  /** The shortest object the entry point does not give back. */
  lemma BareObjectLost()
    ensures BlocksFrom("{}", 0) == Blocks([Row(None, Obj([]))])
    ensures ExtractRows("{}") == Blocks([])
  {
    hide Spells;
    var item := Block([], "{}", Obj([]), "");
    EmptyObjectSpelled();
    assert item.Text() == "{}" && Render([item]) == "{}" + Render([]) == "{}";
    PrintedBlocks([item]);
    assert RowsOf([item]) == [item.AsRow()];
    RenderedLoads([item]);
  }

  lemma EmptyObjectSpelled()
    ensures Spells("{}", Obj([]))
  {
    var w := Braced("", []);
    assert Valid(w) && Text(w) == "{}" && Meaning(w) == Obj([]);
  }
}
