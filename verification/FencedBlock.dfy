/** Rendering a value as a fenced Markdown block (`artifacts/scripts/chat_replay_to_markdown.py`)
    against a reader of section 4.5 "Fenced code blocks" of CommonMark 0.31.2. */
module FencedBlock {
  import opened PyText

  // ---------------------------------------------------------------------------------------
  // Choosing a fence

  predicate AllTicks(s: string) {
    forall k :: 0 <= k < |s| ==> s[k] == '`'
  }

  function Ticks(n: nat): (s: string)
    ensures |s| == n && AllTicks(s)
  {
    seq(n, _ => '`')
  }

  /** `s[i..j]` is a run of backticks. */
  predicate IsRun(s: string, i: nat, j: nat) {
    i <= j <= |s| && forall k :: i <= k < j ==> s[k] == '`'
  }

  ghost predicate RunsAtMost(s: string, n: nat) {
    forall i: nat, j: nat :: IsRun(s, i, j) ==> j - i <= n
  }

  ghost predicate HasRun(s: string, n: nat) {
    exists i: nat, j: nat :: IsRun(s, i, j) && j - i == n
  }

  /** The length of the backtick run that ends `s`. */
  function LastRun(s: string): (n: nat)
    ensures n <= |s|
  {
    if s != "" && s[|s| - 1] == '`' then 1 + LastRun(s[..|s| - 1]) else 0
  }

  function LongestRun(s: string): nat {
    if s == "" then 0
    else
      var before := LongestRun(s[..|s| - 1]);
      if LastRun(s) > before then LastRun(s) else before
  }

  function Fence(value: string): string {
    Ticks(if LongestRun(value) + 1 > 3 then LongestRun(value) + 1 else 3)
  }

  /** `fence_for`. */
  method FenceFor(value: string) returns (fence: string)
    ensures fence == Fence(value)
  {
    var longest, current, i := 0, 0, 0;
    while i < |value|
      invariant i <= |value|
      invariant current == LastRun(value[..i]) && longest == LongestRun(value[..i])
    {
      assert value[..i + 1][..i] == value[..i];
      if value[i] == '`' {
        current := current + 1;
        longest := if current > longest then current else longest;
      } else {
        current := 0;
      }
      i := i + 1;
    }
    assert value[..i] == value;
    fence := Ticks(if longest + 1 > 3 then longest + 1 else 3);
  }

  lemma {:induction false} LastRunFacts(s: string)
    ensures IsRun(s, |s| - LastRun(s), |s|)
    ensures forall i: nat :: IsRun(s, i, |s|) ==> |s| - i <= LastRun(s)
  {
    if s != "" && s[|s| - 1] == '`' {
      var t := s[..|s| - 1];
      LastRunFacts(t);
      forall i: nat | IsRun(s, i, |s|) ensures |s| - i <= LastRun(s) {
        assert i < |s| ==> IsRun(t, i, |t|);
      }
    }
  }

  lemma {:induction false} LongestRunFacts(s: string)
    ensures RunsAtMost(s, LongestRun(s)) && HasRun(s, LongestRun(s))
  {
    if s == "" {
      assert IsRun(s, 0, 0);
    } else {
      var t := s[..|s| - 1];
      LongestRunFacts(t);
      LastRunFacts(s);
      forall i: nat, j: nat | IsRun(s, i, j) ensures j - i <= LongestRun(s) {
        assert j < |s| ==> IsRun(t, i, j);
      }
      if LastRun(s) > LongestRun(t) {
        assert IsRun(s, |s| - LastRun(s), |s|);
      } else {
        var i: nat, j: nat :| IsRun(t, i, j) && j - i == LongestRun(t);
        assert IsRun(s, i, j);
      }
    }
  }

  /** The fence is longer than every run of backticks in the value, and no longer than that and
      the three backticks a fence needs make it. */
  lemma FenceIsTight(value: string)
    ensures AllTicks(Fence(value)) && |Fence(value)| >= 3
    ensures forall n: nat :: HasRun(value, n) ==> n < |Fence(value)|
    ensures |Fence(value)| > 3 ==> HasRun(value, |Fence(value)| - 1)
  {
    LongestRunFacts(value);
  }

  /** `code_block`. */
  function CodeBlock(value: string, language: string): string {
    var fence := Fence(value);
    (if language == "" then fence else fence + language) + "\n" + RStrip(value) + "\n" + fence
  }

  // ---------------------------------------------------------------------------------------
  // The CommonMark reader

  predicate IsLineEnding(c: char) {
    c == '\n' || c == '\r'
  }

  predicate IsBlank(c: char) {
    c == ' ' || c == '\t'
  }

  /** Where the line that holds position `i` ends, before its line ending. */
  function LineEnd(s: string, i: nat): (e: nat)
    requires i <= |s|
    ensures i <= e <= |s|
    ensures forall k :: i <= k < e ==> !IsLineEnding(s[k])
    ensures e < |s| ==> IsLineEnding(s[e])
    decreases |s| - i
  {
    if i < |s| && !IsLineEnding(s[i]) then LineEnd(s, i + 1) else i
  }

  /** Where the line after it starts; a carriage return and a line feed are one line ending. */
  function NextLine(s: string, i: nat): (n: nat)
    requires i <= |s|
    ensures LineEnd(s, i) <= n <= |s| && (i < |s| ==> i < n)
  {
    var e := LineEnd(s, i);
    if e == |s| then e
    else if s[e] == '\r' && e + 1 < |s| && s[e + 1] == '\n' then e + 2
    else e + 1
  }

  /** Skips up to `most` spaces. */
  function SkipIndent(s: string, i: nat, most: nat): (j: nat)
    requires i <= |s|
    ensures i <= j <= |s| && j - i <= most
    ensures forall k :: i <= k < j ==> s[k] == ' '
    decreases most
  {
    if most > 0 && i < |s| && s[i] == ' ' then SkipIndent(s, i + 1, most - 1) else i
  }

  function TickEnd(s: string, i: nat): (j: nat)
    requires i <= |s|
    ensures i <= j <= |s| && IsRun(s, i, j)
    ensures j < |s| ==> s[j] != '`'
    decreases |s| - i
  {
    if i < |s| && s[i] == '`' then TickEnd(s, i + 1) else i
  }

  /** The text without spaces and tabs at either end. */
  function TrimBlanks(s: string): string
    decreases |s|
  {
    if s == "" then ""
    else if IsBlank(s[0]) then TrimBlanks(s[1..])
    else if IsBlank(s[|s| - 1]) then TrimBlanks(s[..|s| - 1])
    else s
  }

  /** The line at `i` closes a block opened by a fence of `n` backticks. */
  predicate Closes(s: string, i: nat, n: nat)
    requires i <= |s|
  {
    var j := SkipIndent(s, i, 3);
    var k := TickEnd(s, j);
    k - j >= n && forall m :: k <= m < LineEnd(s, i) ==> IsBlank(s[m])
  }

  /** A block's info string, its content (every content line with its line ending) and the
      position of the first line after it. */
  datatype Block = Block(info: string, content: string, next: nat)

  /** The content lines from `i` on, up to the closing fence or the end of the document; `indent`
      is the indentation of the opening fence, which every content line loses again. */
  function ReadContent(s: string, i: nat, n: nat, indent: nat): (string, nat)
    requires i <= |s|
    decreases |s| - i
  {
    if i == |s| then ("", i)
    else
      var next := NextLine(s, i);
      if Closes(s, i, n) then ("", next)
      else
        var rest := ReadContent(s, next, n, indent);
        var start := SkipIndent(s, i, indent);
        assert start <= next by { IndentInLine(s, i, indent); }
        (s[start..next] + rest.0, rest.1)
  }

  lemma {:induction false} IndentInLine(s: string, i: nat, most: nat)
    requires i <= |s|
    ensures SkipIndent(s, i, most) <= LineEnd(s, i)
    decreases most
  {
    if most > 0 && i < |s| && s[i] == ' ' {
      IndentInLine(s, i + 1, most - 1);
    }
  }

  /** Reads a backtick-fenced block whose opening fence is on the first line. */
  function ReadBlock(s: string): Option<Block> {
    var j := SkipIndent(s, 0, 3);
    var k := TickEnd(s, j);
    var e := LineEnd(s, 0);
    if k - j < 3 || k > e || '`' in s[k..e] then None
    else
      var body := ReadContent(s, NextLine(s, 0), k - j, j);
      Some(Block(TrimBlanks(s[k..e]), body.0, body.1))
  }

  // ---------------------------------------------------------------------------------------
  // The round trip

  /** Text after the block: the end of the document, or further lines. */
  predicate Follows(tail: string) {
    tail == "" || tail[0] == '\n'
  }

  predicate CleanInfo(language: string) {
    forall k :: 0 <= k < |language| ==> language[k] != '`' && !IsLineEnding(language[k])
  }

  /** No line of the value, wherever it stands, closes the block. */
  lemma ValueLineStaysOpen(s: string, at: nat, value: string, i: nat, n: nat)
    requires OccursAt(s, at, value) && RunsAtMost(value, n) 
    requires at <= i <= at + |value| < |s| && s[at + |value|] == '\n'
    ensures !Closes(s, i, n + 1)
  {
    OccursInside(s, at, value);
    IndentInLine(s, i, 3);
    var end := at + |value|;
    var j := SkipIndent(s, i, 3);
    var k := TickEnd(s, j);
    assert LineEnd(s, i) <= end;
    assert k <= end;
    assert s[at..end] == value;
    forall m | j - at <= m < k - at ensures value[m] == '`' {
      OccursChar(s, at, value, m);
    }
    assert IsRun(value, j - at, k - at);
  }

  /** A line of the value is followed by another one, or by the line after the value. */
  lemma ValueLineEnds(s: string, at: nat, value: string, i: nat)
    requires OccursAt(s, at, value)
    requires value != "" ==> value[|value| - 1] != '\r'
    requires at <= i <= at + |value| < |s| && s[at + |value|] == '\n'
    ensures i < NextLine(s, i) <= at + |value| + 1
  {
    var end, e := at + |value|, LineEnd(s, i);
    assert e <= end;
    if e + 1 == end {
      OccursChar(s, at, value, |value| - 1);
    }
  }

  /** From any line of the value on, the reader takes the rest of the value, its line ending,
      and stops behind the closing fence. */
  lemma {:induction false} ContentRead(s: string, at: nat, value: string, i: nat, n: nat)
    requires OccursAt(s, at, value) && RunsAtMost(value, n)
    requires value != "" ==> value[|value| - 1] != '\r'
    requires at <= i <= at + |value| < |s| && s[at + |value|] == '\n'
    requires at + |value| + 1 < |s| && Closes(s, at + |value| + 1, n + 1)
    ensures ReadContent(s, i, n + 1, 0) == (s[i..at + |value| + 1], NextLine(s, at + |value| + 1))
    decreases |s| - i
  {
    hide OccursAt, RunsAtMost, Closes, NextLine;
    var end, next := at + |value|, NextLine(s, i);
    ValueLineStaysOpen(s, at, value, i, n);
    ValueLineEnds(s, at, value, i);
    if next <= end {
      ContentRead(s, at, value, next, n);
      assert s[i..next] + s[next..end + 1] == s[i..end + 1];
    } else {
      assert s[i..next] + "" == s[i..end + 1];
    }
  }

  lemma TrimBlanksKeeps(t: string, c: char)
    requires !IsBlank(c)
    ensures c in TrimBlanks(t) <==> c in t
    decreases |t|
  {
    if t != "" {
      var n := |t| - 1;
      assert t == [t[0]] + t[1..] && t == t[..n] + [t[n]];
      if IsBlank(t[0]) {
        TrimBlanksKeeps(t[1..], c);
      } else if IsBlank(t[n]) {
        TrimBlanksKeeps(t[..n], c);
      }
    }
  }

  /** The opening line of a block with a clean info string. */
  lemma OpeningLine(s: string, ticks: nat, language: string)
    requires CleanInfo(language) && ticks + |language| < |s|
    requires IsRun(s, 0, ticks) && OccursAt(s, ticks, language) && s[ticks + |language|] == '\n'
    requires ticks >= 1
    ensures SkipIndent(s, 0, 3) == 0 && TickEnd(s, 0) == ticks
    ensures LineEnd(s, 0) == ticks + |language| && NextLine(s, 0) == ticks + |language| + 1
  {
    assert s[0] == '`';
    forall k | 0 <= k < |language| ensures s[ticks + k] == language[k] {
      OccursChar(s, ticks, language, k);
    }
    assert forall k :: ticks <= k < ticks + |language| ==> s[k] == language[k - ticks];
    TickEndIs(s, 0, ticks);
  }

  lemma {:induction false} TickEndIs(s: string, i: nat, j: nat)
    requires IsRun(s, i, j) && (j < |s| ==> s[j] != '`')
    ensures TickEnd(s, i) == j
    decreases j - i
  {
    if i < j {
      TickEndIs(s, i + 1, j);
    }
  }

  /** A fence of `n` backticks on a line of its own closes a block opened by `n` backticks. */
  lemma FenceCloses(s: string, i: nat, n: nat)
    requires n >= 1 && IsRun(s, i, i + n)
    requires i + n < |s| ==> s[i + n] == '\n'
    ensures Closes(s, i, n) && NextLine(s, i) == if i + n < |s| then i + n + 1 else |s|
  {
    TickEndIs(s, i, i + n);
    assert s[i] == '`';
    assert LineEnd(s, i) == i + n;
  }

  /** Reading a rendered block gives back its language and exactly its value without trailing
      whitespace (plus the line ending of its last line), and leaves the lines after it unread;
      for every value, and precisely for the languages that a line and an info string can hold. */
  lemma BlockRoundTrip(value: string, language: string, tail: string)
    requires Follows(tail)
    ensures var block := CodeBlock(value, language);
      ReadBlock(block + tail) ==
      Some(Block(TrimBlanks(language), RStrip(value) + "\n", |block| + if tail == "" then 0 else 1))
      <==> CleanInfo(language)
  {
    if CleanInfo(language) {
      CleanBlockRead(value, language, tail);
    } else {
      UncleanInfoLost(CodeBlock(value, language) + tail, language);
    }
  }

  lemma UncleanInfoLost(s: string, language: string)
    requires !CleanInfo(language)
    ensures ReadBlock(s).Some? ==> ReadBlock(s).value.info != TrimBlanks(language)
  {
    var k :| 0 <= k < |language| && (language[k] == '`' || IsLineEnding(language[k]));
    var c := language[k];
    TrimBlanksKeeps(language, c);
    var e := LineEnd(s, 0);
    var t := TickEnd(s, SkipIndent(s, 0, 3));
    if t <= e {
      assert IsLineEnding(c) ==> c !in s[t..e];
      TrimBlanksKeeps(s[t..e], c);
    }
  }

  lemma PlacesCut(s: string, n: nat, language: string, at: nat, body: string)
    requires CleanInfo(language) && OccursAt(s, n, language)
    requires OccursAt(s, at, body) && at + |body| < |s| && s[at + |body|] == '\n'
    ensures s[n..n + |language|] == language && '`' !in s[n..n + |language|]
    ensures s[at..at + |body| + 1] == body + "\n"
  {
    assert s[at..at + |body| + 1] == s[at..at + |body|] + [s[at + |body|]];
  }

  /** The reader on a text with the opening line, the value and the closing line in place. */
  lemma ReadAtPlaces(s: string, n: nat, language: string, body: string, stop: nat)
    requires CleanInfo(language) && n >= 3 && RunsAtMost(body, n - 1)
    requires body != "" ==> body[|body| - 1] != '\r'
    requires stop == n + |language| + 1 + |body| + 1 + n <= |s|
    requires IsRun(s, 0, n) && OccursAt(s, n, language) && OccursAt(s, n + |language| + 1, body)
    requires s[n + |language|] == '\n' && s[stop - n - 1] == '\n' && IsRun(s, stop - n, stop)
    requires stop < |s| ==> s[stop] == '\n'
    ensures ReadBlock(s) ==
      Some(Block(TrimBlanks(language), body + "\n", if stop < |s| then stop + 1 else stop))
  {
    hide RunsAtMost, LongestRun, TrimBlanks, Closes, NextLine, LineEnd, TickEnd, SkipIndent, ReadContent, OccursAt, CleanInfo,
      IsRun;
    var at := n + |language| + 1;
    OpeningLine(s, n, language);
    FenceCloses(s, stop - n, n);
    ContentRead(s, at, body, at, n - 1);
    PlacesCut(s, n, language, at, body);
    assert SkipIndent(s, 0, 3) == 0 && TickEnd(s, 0) == n && LineEnd(s, 0) == n + |language|;
    assert ReadContent(s, at, n, 0) == (body + "\n", NextLine(s, stop - n));
  }

  /** Where the parts of a rendered block stand. */
  lemma BlockLayout(fence: string, language: string, body: string, tail: string)
    requires AllTicks(fence) && Follows(tail)
    ensures var s := fence + language + "\n" + body + "\n" + fence + tail;
      var n, at := |fence|, |fence| + |language| + 1;
      && IsRun(s, 0, n) && OccursAt(s, n, language) && s[n + |language|] == '\n'
      && OccursAt(s, at, body) && s[at + |body|] == '\n' && IsRun(s, at + |body| + 1, at + |body| + 1 + n)
      && (at + |body| + 1 + n < |s| ==> s[at + |body| + 1 + n] == '\n')
  {
    var s := fence + language + "\n" + body + "\n" + fence + tail;
    var n, at := |fence|, |fence| + |language| + 1;
    var end := at + |body|;
    assert s[n..n + |language|] == language;
    assert s[at..end] == body;
    assert forall k :: end + 1 <= k < end + 1 + n ==> s[k] == fence[k - end - 1];
  }

  lemma CleanBlockRead(value: string, language: string, tail: string)
    requires Follows(tail) && CleanInfo(language)
    ensures var block := CodeBlock(value, language);
      ReadBlock(block + tail) ==
      Some(Block(TrimBlanks(language), RStrip(value) + "\n", |block| + if tail == "" then 0 else 1))
  {
    hide RunsAtMost, LongestRun, TrimBlanks, ReadBlock, RStrip, IsRun, CleanInfo;
    var fence, body, block := Fence(value), RStrip(value), CodeBlock(value, language);
    assert block + tail == fence + language + "\n" + body + "\n" + fence + tail;
    BlockLayout(fence, language, body, tail);
    RunsOfStripped(value);
    ReadAtPlaces(block + tail, |fence|, language, body, |block|);
  }

  lemma RunsOfStripped(value: string)
    ensures RunsAtMost(RStrip(value), |Fence(value)| - 1)
    ensures RStrip(value) != "" ==> RStrip(value)[|RStrip(value)| - 1] != '\r'
  {
    var body := RStrip(value);
    LongestRunFacts(value);
    forall i: nat, j: nat | IsRun(body, i, j) ensures j - i <= LongestRun(value) {
      assert IsRun(value, i, j);
    }
  }
}
