/** Recovering one JSON object from noisy engine output: the brace-counting extractor and the
    deterministic repair ladder around it. */
module ObjectExtraction {
  import opened PyText
  import opened Json
  import opened JsonFacts
  import opened JsonSpelling
  import opened JsonRoundTrip
  import opened JsonGrammar
  import opened Lexing

  /** The extractor from position `i` on, in counter state `st`, with the last top-level opening
      brace at `start` (-1 when there was none): the span it returns. */
  function SpanFrom(s: string, i: nat, st: Lex, start: int): (r: Option<(nat, nat)>)
    requires i <= |s| && -1 <= start < i
    ensures r.Some? ==> r.value.0 < r.value.1 <= |s|
    decreases |s| - i
  {
    if i == |s| then None
    else if !st.inString && s[i] == '{' && st.depth == 0 then SpanFrom(s, i + 1, Step(Curly, st, s[i]), i)
    else if !st.inString && s[i] == '}' && st.depth == 1 && start >= 0 then Some((start, i + 1))
    else SpanFrom(s, i + 1, Step(Curly, st, s[i]), start)
  }

  function Extract(s: string): Option<string> {
    match SpanFrom(s, 0, START, -1)
    case None => None
    case Some(span) => Some(s[span.0..span.1])
  }

  /** `_extract_first_json_object`. */
  method ExtractFirstJsonObject(text: string) returns (r: Option<string>)
    ensures r == Extract(text)
  {
    var start, depth: nat, inString, escape := -1, 0, false, false;
    for idx := 0 to |text|
      invariant -1 <= start < idx
      invariant SpanFrom(text, 0, START, -1) == SpanFrom(text, idx, Lex(inString, escape, depth), start)
      invariant escape ==> inString
    {
      var ch := text[idx];
      if inString {
        if escape {
          escape := false;
        } else if ch == '\\' {
          escape := true;
        } else if ch == '\"' {
          inString := false;
        }
      } else if ch == '\"' {
        inString := true;
      } else if ch == '{' {
        if depth == 0 {
          start := idx;
        }
        depth := depth + 1;
      } else if ch == '}' && depth != 0 {
        depth := depth - 1;
        if depth == 0 && start >= 0 {
          return Some(text[start..idx + 1]);
        }
      }
    }
    return None;
  }

  // ---------------------------------------------------------------------------------------
  // How the extractor moves through a text

  /** Inside an object nothing is returned before the depth comes back to zero. */
  lemma {:induction false} SkipInside(s: string, i: nat, j: nat, st: Lex, start: int)
    requires i <= j <= |s| && -1 <= start < i && st.depth >= 1 && Above(Curly, s, i, j, st, 1)
    ensures SpanFrom(s, i, st, start) == SpanFrom(s, j, Run(Curly, s, i, j, st), start)
    decreases j - i
  {
    if i < j {
      SkipInside(s, i + 1, j, Step(Curly, st, s[i]), start);
    }
  }

  lemma {:induction false} SkipPlain(s: string, i: nat, j: nat, st: Lex, start: int)
    requires i <= j <= |s| && -1 <= start < i && !st.escape
    requires forall k :: i <= k < j ==> Plain(s[k])
    ensures SpanFrom(s, i, st, start) == SpanFrom(s, j, st, start)
    decreases j - i
  {
    if i < j {
      SkipPlain(s, i + 1, j, st, start);
    }
  }

  /** Outside every object the remembered start does not matter: the next opening brace
      replaces it. */
  lemma {:induction false} StartIrrelevant(s: string, i: nat, st: Lex, a: int, b: int)
    requires i <= |s| && -1 <= a < i && -1 <= b < i && st.depth == 0
    ensures SpanFrom(s, i, st, a) == SpanFrom(s, i, st, b)
    decreases |s| - i
  {
    if i < |s| && !(s[i] == '{' && !st.inString) {
      StartIrrelevant(s, i + 1, Step(Curly, st, s[i]), a, b);
    }
  }

  /** An opening brace at depth zero whose bracket closes at `b` is what is returned. */
  lemma ClosedIsExtracted(s: string, a: nat, b: nat, start: int)
    requires a < b <= |s| && -1 <= start < a && s[a] == '{' && a + 1 <= b && Finishes(Curly, s, a + 1, b, '{', START)
    ensures SpanFrom(s, a, START, start) == Some((a, b))
  {
    var into := Lex(false, false, 1);
    SkipInside(s, a + 1, b - 1, into, a);
    assert SpanFrom(s, b - 1, into, a) == Some((a, b));
  }

  /** Conversely, whatever is returned opens with a brace and closes with its partner. */
  lemma {:induction false} ExtractedIsClosed(s: string, i: nat, st: Lex, start: int)
    requires i <= |s| && -1 <= start < i && SpanFrom(s, i, st, start).Some?
    requires (st.escape ==> st.inString) && (st.depth >= 1 ==> start >= 0)
    ensures var (a, b) := SpanFrom(s, i, st, start).value;
      if st.depth == 0 then
        i <= a && s[a] == '{' && Finishes(Curly, s, a + 1, b, '{', START)
      else
        a == start && i < b && s[b - 1] == '}' && Run(Curly, s, i, b - 1, st) == Lex(false, false, 1)
        && Above(Curly, s, i, b - 1, st, 1)
    decreases |s| - i
  {
    var (a, b) := SpanFrom(s, i, st, start).value;
    if !st.inString && s[i] == '{' && st.depth == 0 {
      ExtractedIsClosed(s, i + 1, Step(Curly, st, s[i]), i);
    } else if !(!st.inString && s[i] == '}' && st.depth == 1) {
      ExtractedIsClosed(s, i + 1, Step(Curly, st, s[i]), start);
    }
  }

  // ---------------------------------------------------------------------------------------
  // Extraction inverts printing

  /** Noise the extractor passes over: nothing is extracted from it, and it leaves no string
      and no object open. */
  predicate Quiet(p: string) {
    Extract(p).None? && Run(Curly, p, 0, |p|, START) == START
  }

  /** Text without braces and quotes is quiet; closing braces are harmless. */
  lemma {:induction false} NoBraceNoQuoteIsQuiet(p: string)
    requires '{' !in p && '\"' !in p
    ensures Quiet(p)
  {
    NoBraceFrom(p, 0);
  }

  lemma {:induction false} NoBraceFrom(p: string, i: nat)
    requires i <= |p| && '{' !in p && '\"' !in p
    ensures SpanFrom(p, i, START, -1).None? && Run(Curly, p, i, |p|, START) == START
    decreases |p| - i
  {
    if i < |p| {
      assert p[i] in p;
      NoBraceFrom(p, i + 1);
    }
  }

  /** After a quiet prefix the extractor is back in its first state, whatever follows. */
  lemma {:induction false} SkipQuiet(p: string, s: string, i: nat, st: Lex, start: int)
    requires i <= |p| <= |s| && s[..|p|] == p && -1 <= start < i
    requires SpanFrom(p, i, st, start).None? && Run(Curly, p, i, |p|, st) == START
    ensures SpanFrom(s, i, st, start) == SpanFrom(s, |p|, START, -1)
    decreases |p| - i
  {
    if i == |p| {
      StartIrrelevant(s, i, st, start, -1);
    } else {
      assert p[i] == s[..|p|][i] == s[i];
      SkipQuiet(p, s, i + 1, Step(Curly, st, s[i]), if !st.inString && s[i] == '{' && st.depth == 0 then i else start);
    }
  }

  /** The object text behind a quiet prefix is found, exactly, whatever comes after it. */
  lemma ExtractFindsSpan(p: string, o: string, q: string)
    requires Quiet(p) && IsObjectText(o)
    ensures SpanFrom(p + o + q, 0, START, -1) == Some((|p|, |p| + |o|))
    ensures Extract(p + o + q) == Some(o)
  {
    var s := p + o + q;
    assert s[..|p|] == p && s[|p|..|p| + |o|] == o;
    SkipQuiet(p, s, 0, START, -1);
    ObjectIsExtracted(s, |p|, o, -1);
  }

  lemma ObjectIsExtracted(s: string, k: nat, o: string, start: int)
    requires IsObjectText(o) && OccursAt(s, k, o) && -1 <= start < k
    ensures SpanFrom(s, k, START, start) == Some((k, k + |o|))
  {
    assert s[k..k + |o|][0] == s[k];
    ObjectAnywhere(s, k, o);
    ValueStays(Curly, s, k, START);
    ClosedIsExtracted(s, k, k + |o|, start);
  }

  // ---------------------------------------------------------------------------------------
  // Extraction as an operation: idempotent, stable under appending and stripping

  /** Once something is extracted, text added behind changes nothing. */
  lemma {:induction false} SpanOfLonger(s: string, u: string, i: nat, st: Lex, start: int)
    requires i <= |s| && -1 <= start < i && SpanFrom(s, i, st, start).Some?
    ensures SpanFrom(s + u, i, st, start) == SpanFrom(s, i, st, start)
    decreases |s| - i
  {
    if i < |s| {
      var next := if !st.inString && s[i] == '{' && st.depth == 0 then i else start;
      if !(!st.inString && s[i] == '}' && st.depth == 1 && start >= 0) {
        SpanOfLonger(s, u, i + 1, Step(Curly, st, s[i]), next);
      }
    }
  }

  lemma ExtractIgnoresAppended(s: string, u: string)
    requires Extract(s).Some?
    ensures Extract(s + u) == Extract(s)
  {
    SpanOfLonger(s, u, 0, START, -1);
    var (a, b) := SpanFrom(s, 0, START, -1).value;
    assert (s + u)[a..b] == s[a..b];
  }

  /** What was extracted extracts to itself. */
  lemma ExtractIdempotent(s: string)
    requires Extract(s).Some?
    ensures Extract(Extract(s).value) == Extract(s)
  {
    var (a, b) := SpanFrom(s, 0, START, -1).value;
    ExtractedIsClosed(s, 0, START, -1);
    ClosedPieceExtracts(s, a, b);
  }

  lemma ClosedPieceExtracts(s: string, a: nat, b: nat)
    requires a < b <= |s| && s[a] == '{' && Finishes(Curly, s, a + 1, b, '{', START)
    ensures Extract(s[a..b]) == Some(s[a..b])
  {
    var o := s[a..b];
    assert o[0] == s[a] && o[|o| - 1] == s[b - 1];
    SliceOfSlice(s, a, b, 1, |o| - 1);
    RunAgree(Curly, o, 1, s, a + 1, b - a - 2, Lex(false, false, 1), 1);
    ClosedIsExtracted(o, 0, |o|, -1);
    assert o[0..|o|] == o;
  }

  /** Moving a text and cutting spaces off its end moves the span. */
  lemma {:induction false} SpanOfCore(s: string, a: nat, b: nat, i: nat, st: Lex, start: int, coreStart: int)
    requires a <= i <= b <= |s| && (st.escape ==> st.inString)
    requires -1 <= coreStart < i - a && start == (if coreStart == -1 then -1 else coreStart + a)
    requires forall k :: b <= k < |s| ==> IsSpace(s[k])
    ensures SpanFrom(s, i, st, start) == match SpanFrom(s[a..b], i - a, st, coreStart)
      case None => None
      case Some((x, y)) => Some((x + a, y + a))
    decreases |s| - i
  {
    if i == b {
      NothingInSpaces(s, b, st, start);
    } else {
      assert s[a..b][i - a] == s[i];
      var opens := !st.inString && s[i] == '{' && st.depth == 0;
      if !(!st.inString && s[i] == '}' && st.depth == 1 && start >= 0) {
        SpanOfCore(s, a, b, i + 1, Step(Curly, st, s[i]), if opens then i else start, if opens then i - a else coreStart);
      }
    }
  }

  lemma {:induction false} NothingInSpaces(s: string, i: nat, st: Lex, start: int)
    requires i <= |s| && -1 <= start < i && forall k :: i <= k < |s| ==> IsSpace(s[k])
    ensures SpanFrom(s, i, st, start).None?
    decreases |s| - i
  {
    if i < |s| {
      NothingInSpaces(s, i + 1, Step(Curly, st, s[i]), start);
    }
  }

  /** `strip` before extracting changes nothing. */
  lemma ExtractOfStrip(s: string)
    ensures Extract(Strip(s)) == Extract(s)
  {
    hide SpanFrom, Strip;
    var a, b := StripParts(s);
    assert forall k :: 0 <= k < a ==> Plain(s[k]);
    SkipPlain(s, 0, a, START, -1);
    SpanOfCore(s, a, b, a, START, -1, -1);
    match SpanFrom(s[a..b], 0, START, -1) {
      case None =>
      case Some((x, y)) => SliceOfSlice(s, a, b, x, y);
    }
  }

  // ---------------------------------------------------------------------------------------
  // The repair ladder

  datatype RepairLevel = NoRepair | DeterministicGeneric

  /** `_try_parse_json_object`. */
  function TryParseObject(s: string): Option<Json> {
    match Loads(s)
    case Some(v) => if v.Obj? then Some(v) else None
    case None => None
  }

  function FirstObject(candidates: seq<string>): Option<Json> {
    if candidates == [] then None
    else if TryParseObject(candidates[0]).Some? then TryParseObject(candidates[0])
    else FirstObject(candidates[1..])
  }

  function ParseExtracted(s: string): Option<Json> {
    match Extract(s)
    case Some(o) => if o != "" then TryParseObject(o) else None
    case None => None
  }

  /** `_parse_json_with_deterministic_repair`; `fences` are the code-fence candidates of the
      text, in the order the two patterns yield them. */
  function ParseWithRepair(text: string, fences: seq<string>): (Option<Json>, RepairLevel) {
    var stripped := Strip(text);
    if TryParseObject(text).Some? then (TryParseObject(text), NoRepair)
    else if stripped != "" && stripped != text && TryParseObject(stripped).Some? then (TryParseObject(stripped), DeterministicGeneric)
    else if FirstObject(fences).Some? then (FirstObject(fences), DeterministicGeneric)
    else if ParseExtracted(text).Some? then (ParseExtracted(text), DeterministicGeneric)
    else if stripped != "" && stripped != text && ParseExtracted(stripped).Some? then (ParseExtracted(stripped), DeterministicGeneric)
    else (None, NoRepair)
  }

  /** A text that is one object, spaces aside, is what its own extraction finds. */
  lemma WholeObjectSpan(s: string)
    requires TryParseObject(s).Some?
    ensures var k := SkipWs(s, 0);
      SpanFrom(s, 0, START, -1) == Some((k, Value(s, k).next)) && Value(s, k).value == TryParseObject(s).value
  {
    var k := SkipWs(s, 0);
    ObjectStartsWithBrace(s, k);
    assert forall m :: 0 <= m < k ==> Plain(s[m]);
    SkipPlain(s, 0, k, START, -1);
    ValueStays(Curly, s, k, START);
    ClosedIsExtracted(s, k, Value(s, k).next, -1);
  }

  lemma ObjectStartsWithBrace(s: string, k: nat)
    requires k <= |s| && Value(s, k).At?
    ensures Value(s, k).value.Obj? <==> s[k] == '{'
  {
  }

  /** If the extractor finds an object text in `s`, and `s` as a whole parses as an object,
      both are the same object. */
  lemma WholeAgreesWithExtract(s: string, o: string)
    requires TryParseObject(s).Some? && Extract(s) == Some(o) && IsObjectText(o)
    ensures TryParseObject(s) == Some(ObjectOf(o))
  {
    WholeObjectSpan(s);
    ObjectAnywhere(s, SkipWs(s, 0), o);
  }

  lemma ObjectTextParses(o: string)
    requires IsObjectText(o)
    ensures TryParseObject(o) == Some(ObjectOf(o))
  {
    ObjectStartsWithBrace(o, 0);
  }

  /** A text with one object behind a quiet prefix and no code fence parses to that object.
      The level says whether anything but JSON whitespace stood around it. */
  lemma RepairRecoversObject(p: string, o: string, q: string)
    requires Quiet(p) && IsObjectText(o)
    ensures ParseWithRepair(p + o + q, [])
      == (Some(ObjectOf(o)), if AllWs(p) && AllWs(q) then NoRepair else DeterministicGeneric)
  {
    var s := p + o + q;
    ExtractFindsSpan(p, o, q);
    ExtractOfStrip(s);
    ObjectTextParses(o);
    if TryParseObject(Strip(s)).Some? {
      WholeAgreesWithExtract(Strip(s), o);
    }
    WholeParsesWhenSpaced(p, o, q);
    if TryParseObject(s).Some? {
      WholeAgreesWithExtract(s, o);
    }
  }

  lemma WholeParsesWhenSpaced(p: string, o: string, q: string)
    requires Quiet(p) && IsObjectText(o)
    ensures TryParseObject(p + o + q).Some? <==> AllWs(p) && AllWs(q)
  {
    if AllWs(p) && AllWs(q) {
      SpacedParses(p, o, q);
    }
    if TryParseObject(p + o + q).Some? {
      ParsedIsSpaced(p, o, q);
    }
  }

  lemma SpacedParses(p: string, o: string, q: string)
    requires IsObjectText(o) && AllWs(p) && AllWs(q)
    ensures TryParseObject(p + o + q) == Some(ObjectOf(o))
  {
    hide Value;
    var s := p + o + q;
    assert OccursAt(s, |p|, o) && s[|p|] == o[0];
    ObjectAnywhere(s, |p|, o);
    assert SkipWs(s, 0) == |p|;
    assert forall m {:trigger s[m]} :: |p| + |o| <= m < |s| ==> s[m] == q[m - |p| - |o|];
    assert SkipWs(s, |p| + |o|) == |s|;
    ObjectStartsWithBrace(o, 0);
  }

  lemma ParsedIsSpaced(p: string, o: string, q: string)
    requires Quiet(p) && IsObjectText(o) && TryParseObject(p + o + q).Some?
    ensures AllWs(p) && AllWs(q)
  {
    hide Value, IsObjectText, Quiet;
    var s := p + o + q;
    WholeObjectSpan(s);
    ExtractFindsSpan(p, o, q);
    assert forall m :: 0 <= m < |p| ==> p[m] == s[m];
    assert forall m :: 0 <= m < |q| ==> q[m] == s[|p| + |o| + m];
  }

  /** The two previous results for any spelling of an object: behind a quiet prefix, in front of
      anything, exactly that text is extracted, and the object is what the ladder returns. */
  lemma SpelledObjectRecovered(p: string, o: string, v: Json, q: string)
    requires Quiet(p) && v.Obj? && Spells(o, v)
    ensures Extract(p + o + q) == Some(o)
    ensures ParseWithRepair(p + o + q, []) == (Some(v), if AllWs(p) && AllWs(q) then NoRepair else DeterministicGeneric)
  {
    ObjectTextExactly(o, v);
    ExtractFindsSpan(p, o, q);
    RepairRecoversObject(p, o, q);
  }

  /** A text parses as an object exactly if it is a document of one. */
  lemma ParsesExactly(s: string, v: Json)
    ensures TryParseObject(s) == Some(v) <==> v.Obj? && Document(s, v)
  {
    hide Loads, Document;
    LoadsExactly(s, v);
  }

  /** ... in particular for a printed object: noise without braces and quotes in front,
      anything behind. */
  lemma PrintedObjectRecovered(p: string, v: Json, sp: Spacing, q: string)
    requires v.Obj? && Printable(v) && sp.Valid() && '{' !in p && '\"' !in p
    ensures Extract(p + Print(v, sp) + q) == Some(Print(v, sp))
    ensures ParseWithRepair(p + Print(v, sp) + q, [])
      == (Some(v), if AllWs(p) && AllWs(q) then NoRepair else DeterministicGeneric)
  {
    PrintedIsSpelling(v, sp);
    assert Spells(Print(v, sp), v);
    NoBraceNoQuoteIsQuiet(p);
    SpelledObjectRecovered(p, Print(v, sp), v, q);
  }

  /** Whatever the ladder returns is the parse of a piece of the text, and an object. */
  lemma RepairIsSound(text: string, fences: seq<string>)
    requires forall c :: c in fences ==> Contains(text, c)
    requires ParseWithRepair(text, fences).0.Some?
    ensures exists piece :: Contains(text, piece) && TryParseObject(piece) == ParseWithRepair(text, fences).0
  {
    var stripped := Strip(text);
    var a, b := StripParts(text);
    assert OccursAt(text, a, stripped);
    assert OccursAt(text, 0, text);
    ExtractOfStrip(text);
    if FirstObject(fences).Some? {
      var c := FirstObjectIsCandidate(fences);
      assert Contains(text, c);
    }
    if Extract(text).Some? {
      var (x, y) := SpanFrom(text, 0, START, -1).value;
      assert OccursAt(text, x, text[x..y]);
    }
  }

  lemma {:induction false} FirstObjectIsCandidate(candidates: seq<string>) returns (c: string)
    requires FirstObject(candidates).Some?
    ensures c in candidates && TryParseObject(c) == FirstObject(candidates)
  {
    if TryParseObject(candidates[0]).Some? {
      c := candidates[0];
    } else {
      c := FirstObjectIsCandidate(candidates[1..]);
    }
  }

  /** The last rung is redundant: extracting from the stripped text never succeeds where
      extracting from the text failed. */
  lemma LastRungRedundant(text: string, fences: seq<string>)
    ensures ParseExtracted(Strip(text)) == ParseExtracted(text)
    ensures ParseWithRepair(text, fences).0.None? <==>
      TryParseObject(text).None? && TryParseObject(Strip(text)).None? && FirstObject(fences).None? && ParseExtracted(text).None?
  {
    ExtractOfStrip(text);
  }

  /** The level says whether anything had to be done: none if the text parses as it stands, and none
      if nothing helped. */
  lemma LevelExactly(text: string, fences: seq<string>)
    ensures ParseWithRepair(text, fences).1 == NoRepair <==>
      TryParseObject(text).Some? || ParseWithRepair(text, fences).0.None?
  {
    hide TryParseObject, ParseExtracted, FirstObject, Strip;
  }
}
