/** The code-fence rung of the repair ladder: the candidates the two patterns
    "```json\s*(\{.*?\})\s*```" and "```(?:json)?\s*(\{.*?\})\s*```" find, and what the whole
    ladder promises with them. */
module CodeFences {
  import opened PyText
  import opened Json
  import opened JsonSpelling
  import opened JsonGrammar
  import opened Lexing
  import opened ObjectExtraction

  const TICKS := "```"

  /** The closing brace at or after `j` that only spaces separate from a closing fence; the lazy
      group stops at the first one. */
  function CloseFrom(s: string, j: nat): (r: Option<nat>)
    requires j <= |s|
    ensures r.Some? ==> j <= r.value < |s| && s[r.value] == '}'
    decreases |s| - j
  {
    if j == |s| then None
    else if s[j] == '}' && OccursAt(s, SkipSpace(s, j + 1), TICKS) then Some(j)
    else CloseFrom(s, j + 1)
  }

  lemma {:induction false} CloseHasFence(s: string, j: nat)
    requires j <= |s| && CloseFrom(s, j).Some?
    ensures SkipSpace(s, CloseFrom(s, j).value + 1) + 3 <= |s|
    decreases |s| - j
  {
    hide SkipSpace;
    if !(s[j] == '}' && OccursAt(s, SkipSpace(s, j + 1), TICKS)) {
      CloseHasFence(s, j + 1);
    }
  }

  /** A match: the group `s[open..close]`, and where the search goes on. */
  datatype Fence = Fence(open: nat, close: nat, next: nat)

  /** The match at `i`; `tagged` is the pattern that insists on `json`. What the patterns repeat
      never overlaps what they go on with, so nothing is ever given back. */
  function FenceAt(s: string, i: nat, tagged: bool): (r: Option<Fence>)
    ensures r.Some? ==> i < r.value.open < r.value.close < r.value.next <= |s|
    ensures r.Some? ==> s[r.value.open] == '{' && s[r.value.close - 1] == '}' && OccursAt(s, i, TICKS)
  {
    var json := OccursAt(s, i + 3, "json");
    if !OccursAt(s, i, TICKS) || (tagged && !json) then None
    else
      var open := SkipSpace(s, if json then i + 7 else i + 3);
      if open == |s| || s[open] != '{' then None
      else
        match CloseFrom(s, open + 1)
        case None => None
        case Some(k) => CloseHasFence(s, open + 1); Some(Fence(open, k + 1, SkipSpace(s, k + 1) + 3))
  }

  /** `re.finditer` from `i` on, the groups stripped, empty ones dropped. */
  function FencesFrom(s: string, i: nat, tagged: bool): seq<string>
    requires i <= |s|
    decreases |s| - i
  {
    if i == |s| then []
    else
      match FenceAt(s, i, tagged)
      case None => FencesFrom(s, i + 1, tagged)
      case Some(f) =>
        var value := Strip(s[f.open..f.close]);
        (if value != "" then [value] else []) + FencesFrom(s, f.next, tagged)
  }

  /** `_extract_code_fence_candidates`. */
  function Candidates(text: string): seq<string> {
    FencesFrom(text, 0, true) + FencesFrom(text, 0, false)
  }

  /** `_parse_json_with_deterministic_repair`. */
  function Repair(text: string): (Option<Json>, RepairLevel) {
    ParseWithRepair(text, Candidates(text))
  }

  // ---------------------------------------------------------------------------------------
  // Candidates

  /** Every candidate is a piece of the text between braces, found behind a fence. */
  lemma {:induction false} FencesAreInText(s: string, i: nat, tagged: bool)
    requires i <= |s|
    ensures forall c :: c in FencesFrom(s, i, tagged) ==> Contains(s, c)
    ensures FencesFrom(s, i, tagged) != [] ==> Contains(s, TICKS)
    decreases |s| - i
  {
    hide FenceAt, Strip;
    if i < |s| {
      match FenceAt(s, i, tagged) {
        case None => FencesAreInText(s, i + 1, tagged);
        case Some(f) =>
          FencesAreInText(s, f.next, tagged);
          BracedIsTrimmed(s, f.open, f.close);
          assert OccursAt(s, f.open, s[f.open..f.close]);
      }
    }
  }

  lemma BracedIsTrimmed(s: string, i: nat, j: nat)
    requires i < j <= |s| && s[i] == '{' && s[j - 1] == '}'
    ensures Strip(s[i..j]) == s[i..j]
  {
    StripTrimmed(s[i..j]);
  }

  lemma NoFenceNoCandidate(text: string)
    requires !Contains(text, TICKS)
    ensures Candidates(text) == []
  {
    FencesAreInText(text, 0, true);
    FencesAreInText(text, 0, false);
  }

  // ---------------------------------------------------------------------------------------
  // The whole ladder

  /** Whatever the ladder returns, for any text at all, is an object that a piece of the text
      spells. */
  lemma LadderIsSound(text: string)
    requires Repair(text).0.Some?
    ensures Repair(text).0.value.Obj? && exists piece :: Contains(text, piece) && Document(piece, Repair(text).0.value)
  {
    hide TryParseObject, Document;
    FencesAreInText(text, 0, true);
    FencesAreInText(text, 0, false);
    RepairIsSound(text, Candidates(text));
    var piece :| Contains(text, piece) && TryParseObject(piece) == Repair(text).0;
    ParsesExactly(piece, Repair(text).0.value);
  }

  /** Without a code fence, any spelling of an object behind a quiet prefix is recovered as that
      object; the level says whether anything but JSON whitespace stood around it. */
  lemma LadderRecoversObject(p: string, o: string, v: Json, q: string)
    requires Quiet(p) && v.Obj? && Spells(o, v) && !Contains(p + o + q, TICKS)
    ensures Repair(p + o + q) == (Some(v), if AllWs(p) && AllWs(q) then NoRepair else DeterministicGeneric)
  {
    NoFenceNoCandidate(p + o + q);
    SpelledObjectRecovered(p, o, v, q);
  }

  /** The same for a printed object behind text without braces and quotes. */
  lemma LadderRecoversPrinted(p: string, v: Json, sp: Spacing, q: string)
    requires v.Obj? && Printable(v) && sp.Valid() && '{' !in p && '\"' !in p
    requires !Contains(p + Print(v, sp) + q, TICKS)
    ensures Repair(p + Print(v, sp) + q) == (Some(v), if AllWs(p) && AllWs(q) then NoRepair else DeterministicGeneric)
  {
    NoFenceNoCandidate(p + Print(v, sp) + q);
    PrintedObjectRecovered(p, v, sp, q);
  }

  /** No brace inside `o` could pass for the end of the fenced object. */
  predicate NoInnerFence(o: string) {
    forall k :: 0 <= k < |o| - 1 && o[k] == '}' ==> !OccursAt(o, SkipSpace(o, k + 1), TICKS)
  }

  /** Prose in front of a fence: it holds no fence itself and no backtick at its end that would
      lengthen the one behind it, and it does not begin like an object. */
  ghost predicate IsProse(p: string) {
    && !Contains(p, TICKS) && (p != "" ==> p[|p| - 1] != '`')
    && (SkipSpace(p, 0) < |p| ==> p[SkipSpace(p, 0)] != '{')
  }

  /** A fenced object: prose, the fence and its tag, the object on lines of its own or not, the
      closing fence, and anything behind it. */
  function Fenced(p: string, before: string, o: string, after: string, q: string): string {
    p + "```json" + before + o + after + TICKS + q
  }

  /** A text whose first character that is no space, at `m` or before, is not a brace is no
      object. */
  lemma NoLeadingBrace(s: string, m: nat)
    requires m < |s| && !IsSpace(s[m]) && forall k :: 0 <= k <= m ==> s[k] != '{'
    ensures TryParseObject(s).None?
  {
    if TryParseObject(s).Some? {
      ObjectStartsWithBrace(s, SkipWs(s, 0));
    }
  }

  lemma FencedDoesNotParse(p: string, text: string)
    requires IsProse(p) && |p| < |text| && text[..|p|] == p && text[|p|] == '`'
    ensures TryParseObject(text).None? && TryParseObject(Strip(text)).None?
  {
    hide TryParseObject;
    var m := SkipSpace(p, 0);
    assert forall k :: 0 <= k < |p| ==> text[k] == p[k];
    assert !IsSpace(text[m]) && forall k :: 0 <= k <= m ==> text[k] != '{';
    NoLeadingBrace(text, m);
    var a, b := StripParts(text);
    NoLeadingBrace(Strip(text), m - a);
  }

  lemma NotFenced(s: string, i: nat, tagged: bool)
    requires !OccursAt(s, i, TICKS)
    ensures FenceAt(s, i, tagged).None?
  {
    hide OccursAt;
  }

  lemma SkipsOne(s: string, i: nat, tagged: bool)
    requires i < |s| && !OccursAt(s, i, TICKS)
    ensures FencesFrom(s, i, tagged) == FencesFrom(s, i + 1, tagged)
  {
    hide OccursAt, FenceAt, Strip;
    NotFenced(s, i, tagged);
  }

  lemma {:induction false} NoFenceBefore(s: string, i: nat, j: nat, tagged: bool)
    requires i <= j <= |s| && forall k :: i <= k < j ==> !OccursAt(s, k, TICKS)
    ensures FencesFrom(s, i, tagged) == FencesFrom(s, j, tagged)
    decreases j - i
  {
    hide OccursAt, FencesFrom;
    if i < j {
      SkipsOne(s, i, tagged);
      NoFenceBefore(s, i + 1, j, tagged);
    }
  }

  /** No fence begins in prose that is followed by one. */
  lemma NoFenceInProse(p: string, s: string, k: nat)
    requires IsProse(p) && |p| <= |s| && s[..|p|] == p && k < |p|
    ensures !OccursAt(s, k, TICKS)
  {
    assert s[|p| - 1] == s[..|p|][|p| - 1];
    if OccursAt(s, k, TICKS) {
      if k + 3 <= |p| {
        assert p[k..k + 3] == s[k..k + 3];
        assert OccursAt(p, k, TICKS);
      } else {
        OccursChar(s, k, TICKS, |p| - 1 - k);
      }
    }
  }

  /** A closing fence found from inside `o` on is one `o` holds itself. */
  lemma InnerFence(s: string, a: nat, o: string, k: nat)
    requires OccursAt(s, a, o) && o != "" && o[|o| - 1] == '}' && k < |o| - 1
    requires OccursAt(s, SkipSpace(s, a + k + 1), TICKS)
    ensures OccursAt(o, SkipSpace(o, k + 1), TICKS)
  {
    var z, y := SkipSpace(s, a + k + 1), SkipSpace(o, k + 1);
    forall m | 0 <= m < |o| ensures o[m] == s[a + m] {
      OccursChar(s, a, o, m);
    }
    assert !IsSpace(o[|o| - 1]);
    assert z == a + y;
    forall m | z <= m < z + 3 ensures s[m] == '`' {
      OccursChar(s, z, TICKS, m - z);
    }
    assert o[y..y + 3] == TICKS;
  }

  lemma {:induction false} ClosesAtEnd(s: string, a: nat, o: string, k: nat)
    requires OccursAt(s, a, o) && o != "" && o[|o| - 1] == '}' && NoInnerFence(o) && k < |o|
    requires OccursAt(s, SkipSpace(s, a + |o|), TICKS)
    ensures CloseFrom(s, a + k) == Some(a + |o| - 1)
    decreases |o| - k
  {
    hide OccursAt, IsSpace;
    OccursInside(s, a, o);
    OccursChar(s, a, o, k);
    if k < |o| - 1 {
      if s[a + k] == '}' && OccursAt(s, SkipSpace(s, a + k + 1), TICKS) {
        InnerFence(s, a, o, k);
      }
      ClosesAtEnd(s, a, o, k + 1);
    }
  }

  lemma BraceAndTickAreNoSpaces()
    ensures !IsSpace('{') && !IsSpace('`')
  {
  }

  /** The match of a pattern on a fence, its tag, a braced text and a closing fence. */
  lemma FenceFound(s: string, i: nat, tag: bool, a: nat, o: string, z: nat, tagged: bool)
    requires OccursAt(s, i, TICKS) && (OccursAt(s, i + 3, "json") <==> tag) && (tagged ==> tag)
    requires i + (if tag then 7 else 3) <= a && OccursAt(s, a, o) && a + |o| <= z && OccursAt(s, z, TICKS)
    requires |o| >= 2 && o[0] == '{' && o[|o| - 1] == '}' && NoInnerFence(o)
    requires forall k :: i + (if tag then 7 else 3) <= k < a || a + |o| <= k < z ==> IsSpace(s[k])
    ensures FenceAt(s, i, tagged) == Some(Fence(a, a + |o|, z + 3))
  {
    hide NoInnerFence, OccursAt, CloseFrom, IsSpace;
    BraceAndTickAreNoSpaces();
    OccursInside(s, a, o);
    OccursInside(s, z, TICKS);
    OccursChar(s, a, o, 0);
    OccursChar(s, z, TICKS, 0);
    var open := i + if tag then 7 else 3;
    SpaceEnds(s, open, a);
    SpaceEnds(s, a + |o|, z);
    ClosesAtEnd(s, a, o, 1);
    hide SkipSpace;
  }

  lemma {:induction false} SpaceEnds(s: string, i: nat, j: nat)
    requires i <= j < |s| && !IsSpace(s[j]) && forall k :: i <= k < j ==> IsSpace(s[k])
    ensures SkipSpace(s, i) == j
    decreases j - i
  {
    hide IsSpace;
    if i < j {
      SpaceEnds(s, i + 1, j);
    }
  }

  lemma ObjectText(o: string)
    requires IsObjectText(o)
    ensures |o| >= 2 && o[0] == '{'
  {
  }

  /** Where the parts of a fenced text stand. */
  lemma FencedLayout(p: string, before: string, o: string, after: string, q: string)
    requires AllSpace(before) && AllSpace(after)
    ensures var s := Fenced(p, before, o, after, q);
      var a := |p| + 7 + |before|;
      var z := a + |o| + |after|;
      && |p| < |s| && s[..|p|] == p
      && OccursAt(s, |p|, TICKS) && OccursAt(s, |p| + 3, "json") && OccursAt(s, a, o) && OccursAt(s, z, TICKS)
      && forall k :: |p| + 7 <= k < a || a + |o| <= k < z ==> IsSpace(s[k])
  {
    var s := Fenced(p, before, o, after, q);
    var a := |p| + 7 + |before|;
    var z := a + |o| + |after|;
    assert s[|p|..|p| + 3] == TICKS && s[|p| + 3..|p| + 7] == "json";
    assert s[a..a + |o|] == o && s[z..z + 3] == TICKS;
    assert forall k :: |p| + 7 <= k < a ==> s[k] == before[k - |p| - 7];
    assert forall k :: a + |o| <= k < z ==> s[k] == after[k - a - |o|];
  }

  lemma FirstCandidate(p: string, before: string, o: string, after: string, q: string)
    requires IsProse(p) && AllSpace(before) && AllSpace(after) && IsObjectText(o) && NoInnerFence(o)
    ensures var c := Candidates(Fenced(p, before, o, after, q)); c != [] && c[0] == o
  {
    hide IsObjectText, NoInnerFence, FenceAt, OccursAt, AllSpace, Fenced, FencesFrom, Strip;
    var s := Fenced(p, before, o, after, q);
    var a := |p| + 7 + |before|;
    FencedLayout(p, before, o, after, q);
    forall k | 0 <= k < |p| ensures !OccursAt(s, k, TICKS) {
      NoFenceInProse(p, s, k);
    }
    NoFenceBefore(s, 0, |p|, true);
    ObjectText(o);
    ObjectEnds(o);
    FenceFound(s, |p|, true, a, o, a + |o| + |after|, true);
    StripTrimmed(o);
    FenceFirst(s, |p|, a, o, a + |o| + |after| + 3);
  }

  lemma FenceFirst(s: string, i: nat, a: nat, o: string, next: nat)
    requires i < |s| && FenceAt(s, i, true) == Some(Fence(a, a + |o|, next))
    requires OccursAt(s, a, o) && o != "" && Strip(o) == o
    ensures var c := FencesFrom(s, i, true); c != [] && c[0] == o
  {
  }

  /** A fenced object is recovered whatever follows it, and whatever quotes, braces and inline
      code the prose in front holds. */
  lemma FencedObjectRecovered(p: string, before: string, o: string, v: Json, after: string, q: string)
    requires IsProse(p) && AllSpace(before) && AllSpace(after)
    requires v.Obj? && Spells(o, v) && NoInnerFence(o)
    ensures Repair(Fenced(p, before, o, after, q)) == (Some(v), DeterministicGeneric)
  {
    hide IsObjectText, ObjectOf, FencesFrom, TryParseObject;
    var text := Fenced(p, before, o, after, q);
    ObjectTextExactly(o, v);
    FencedDoesNotParse(p, text);
    FirstCandidate(p, before, o, after, q);
    ObjectTextParses(o);
    var c := Candidates(text);
    assert c[0] == o;
  }

  // ---------------------------------------------------------------------------------------
  // Several fences

  /** A fenced body, with or without the tag, and the prose behind its closing fence. */
  datatype FenceBlock = FenceBlock(tag: bool, before: string, body: string, after: string, prose: string) {
    ghost predicate Valid() {
      AllSpace(before) && IsBody(body) && AllSpace(after) && Separates(prose)
    }
    function Head(): string { TICKS + (if tag then "json" else "") + before }
    function Text(): string { Head() + body + after + TICKS + prose }
  }

  /** A text between braces without a fence in it; whether it is an object is another matter. */
  ghost predicate IsBody(t: string) {
    |t| >= 2 && t[0] == '{' && t[|t| - 1] == '}' && !Contains(t, TICKS)
  }

  /** Prose that neither holds a fence nor changes the ones around it. */
  ghost predicate Separates(p: string) {
    !Contains(p, TICKS) && (p != "" ==> p[0] != '`' && p[|p| - 1] != '`' && p[0] != 'j')
  }

  ghost predicate AllBlocks(blocks: seq<FenceBlock>) {
    && (forall k :: 0 <= k < |blocks| ==> blocks[k].Valid())
    && forall k :: 0 <= k < |blocks| - 1 ==> blocks[k].prose != ""
  }

  function BlocksText(blocks: seq<FenceBlock>): string {
    if blocks == [] then "" else blocks[0].Text() + BlocksText(blocks[1..])
  }

  /** The bodies, in order; only the tagged ones for the first pattern. */
  function Bodies(blocks: seq<FenceBlock>, tagged: bool): seq<string> {
    if blocks == [] then []
    else (if blocks[0].tag || !tagged then [blocks[0].body] else []) + Bodies(blocks[1..], tagged)
  }

  lemma {:induction false} SkipsNone(s: string, i: nat, j: nat, tagged: bool)
    requires i <= j <= |s| && forall k :: i <= k < j ==> FenceAt(s, k, tagged).None?
    ensures FencesFrom(s, i, tagged) == FencesFrom(s, j, tagged)
    decreases j - i
  {
    hide FenceAt, Strip;
    if i < j {
      SkipsNone(s, i + 1, j, tagged);
    }
  }

  /** Where the parts of a block stand: its body from `a` to `e`, its closing fence at `z`. */
  ghost predicate BlockAt(s: string, i: nat, b: FenceBlock, a: nat, e: nat, z: nat) {
    && a == i + |b.Head()| && e == a + |b.body| && z == e + |b.after| && z + 3 + |b.prose| <= |s|
    && OccursAt(s, i, TICKS) && OccursAt(s, a, b.body) && OccursAt(s, z, TICKS)
    && OccursAt(s, i + 3, if b.tag then "json" else "")
    && (forall k :: i + (if b.tag then 7 else 3) <= k < a || e <= k < z ==> IsSpace(s[k]))
    && OccursAt(s, z + 3, b.prose)
  }

  lemma BlockStands(s: string, i: nat, b: FenceBlock, rest: string)
    requires b.Valid() && OccursAt(s, i, b.Text() + rest)
    ensures var a := i + |b.Head()|;
      var e := a + |b.body|;
      var z := e + |b.after|;
      BlockAt(s, i, b, a, e, z) && OccursAt(s, z + 3 + |b.prose|, rest)
  {
    hide OccursAt, IsSpace, Contains;
    var a := i + |b.Head()|;
    var e := a + |b.body|;
    var z := e + |b.after|;
    var tag := if b.tag then "json" else "";
    OccursAtSplit(s, i, b.Text(), rest);
    OccursAtSplit(s, i, b.Head() + b.body + b.after + TICKS, b.prose);
    OccursAtSplit(s, i, b.Head() + b.body + b.after, TICKS);
    OccursAtSplit(s, i, b.Head() + b.body, b.after);
    OccursAtSplit(s, i, b.Head(), b.body);
    OccursAtSplit(s, i, TICKS + tag, b.before);
    OccursAtSplit(s, i, TICKS, tag);
    OccursInside(s, z + 3, b.prose);
    SpacesStand(s, i + 3 + |tag|, b.before);
    SpacesStand(s, e, b.after);
  }

  lemma SpacesStand(s: string, k: nat, t: string)
    requires OccursAt(s, k, t) && AllSpace(t)
    ensures k + |t| <= |s| && forall m :: k <= m < k + |t| ==> IsSpace(s[m])
  {
    hide IsSpace;
    forall m | k <= m < k + |t| ensures IsSpace(s[m]) {
      assert s[k..k + |t|][m - k] == s[m];
    }
  }

  lemma TicksAt(s: string, k: nat)
    ensures OccursAt(s, k, TICKS) ==> k + 3 <= |s| && s[k] == '`' && s[k + 1] == '`' && s[k + 2] == '`'
  {
    if OccursAt(s, k, TICKS) {
      assert s[k..k + 3][0] == '`' && s[k..k + 3][1] == '`' && s[k..k + 3][2] == '`';
    }
  }

  lemma TagAt(s: string, k: nat)
    ensures OccursAt(s, k, "json") ==> k < |s| && s[k] == 'j'
  {
    if OccursAt(s, k, "json") {
      assert s[k..k + 4][0] == s[k];
    }
  }

  /** A fence in a stretch of the text is a fence of that stretch. */
  lemma FenceWithin(s: string, p: nat, t: string, k: nat)
    requires OccursAt(s, p, t) && OccursAt(s, k, TICKS) && p <= k && k + 3 <= p + |t|
    ensures Contains(t, TICKS)
  {
    SliceOfSlice(s, p, p + |t|, k - p, k - p + 3);
    assert OccursAt(t, k - p, TICKS);
  }

  lemma CharsAt(s: string, p: nat, t: string)
    requires OccursAt(s, p, t)
    ensures p + |t| <= |s| && forall m :: p <= m < p + |t| ==> s[m] == t[m - p]
  {
    assert forall m :: p <= m < p + |t| ==> s[p..p + |t|][m - p] == s[m];
  }

  /** Between the opening and the closing fence of a block there is no other. */
  lemma NoFenceInside(s: string, i: nat, b: FenceBlock, a: nat, e: nat, z: nat, k: nat)
    requires b.Valid() && BlockAt(s, i, b, a, e, z) && i < k < z
    ensures !OccursAt(s, k, TICKS)
  {
    CharsAt(s, a, b.body);
    CharsAt(s, i + 3, if b.tag then "json" else "");
    BraceAndTickAreNoSpaces();
    hide OccursAt, IsSpace, Contains;
    TicksAt(s, k);
    if OccursAt(s, k, TICKS) && a <= k && k + 3 <= e {
      FenceWithin(s, a, b.body, k);
    }
  }

  /** Nor from the closing fence to the end of the prose, once it is passed. */
  lemma NoFenceBehind(s: string, i: nat, b: FenceBlock, a: nat, e: nat, z: nat, k: nat)
    requires b.Valid() && BlockAt(s, i, b, a, e, z) && z < k < z + 3 + |b.prose|
    requires b.prose == "" ==> z + 3 == |s|
    ensures !OccursAt(s, k, TICKS)
  {
    var p := z + 3;
    CharsAt(s, p, b.prose);
    hide OccursAt, IsSpace, Contains;
    TicksAt(s, k);
    if OccursAt(s, k, TICKS) && p <= k && k + 3 <= p + |b.prose| {
      FenceWithin(s, p, b.prose, k);
    }
  }

  lemma BodyIsClosed(b: FenceBlock)
    requires b.Valid()
    ensures NoInnerFence(b.body) && Strip(b.body) == b.body
  {
    StripTrimmed(b.body);
    forall k | 0 <= k < |b.body| - 1 && b.body[k] == '}' ensures !OccursAt(b.body, SkipSpace(b.body, k + 1), TICKS) {
    }
  }

  /** Both patterns match a block that both admit. */
  lemma BlockFound(s: string, i: nat, b: FenceBlock, a: nat, e: nat, z: nat, tagged: bool)
    requires b.Valid() && BlockAt(s, i, b, a, e, z) && (b.tag || !tagged)
    ensures FenceAt(s, i, tagged) == Some(Fence(a, e, z + 3))
  {
    hide NoInnerFence, FenceAt, IsSpace, Contains, OccursAt;
    BodyIsClosed(b);
    NotTagged(s, i, b, a, e, z);
    FenceFound(s, i, b.tag, a, b.body, z, tagged);
  }

  /** Behind an opening fence without the tag the tag does not stand. */
  lemma NotTagged(s: string, i: nat, b: FenceBlock, a: nat, e: nat, z: nat)
    requires b.Valid() && BlockAt(s, i, b, a, e, z)
    ensures OccursAt(s, i + 3, "json") <==> b.tag
  {
    CharsAt(s, a, b.body);
    TagAt(s, i + 3);
    assert !IsSpace('j');
    hide OccursAt, IsSpace, Contains;
  }

  lemma ProseScanned(s: string, i: nat, b: FenceBlock, a: nat, e: nat, z: nat, k: nat, tagged: bool)
    requires b.Valid() && BlockAt(s, i, b, a, e, z) && (b.prose == "" ==> z + 3 == |s|) && z < k < z + 3 + |b.prose|
    ensures FenceAt(s, k, tagged).None?
  {
    hide FenceAt, OccursAt, BlockAt, FenceBlock.Valid;
    NoFenceBehind(s, i, b, a, e, z, k);
    NotFenced(s, k, tagged);
  }

  /** What a pattern finds in a block that it admits ... */
  lemma BlockTaken(s: string, i: nat, b: FenceBlock, a: nat, e: nat, z: nat, tagged: bool)
    requires b.Valid() && BlockAt(s, i, b, a, e, z) && (b.prose == "" ==> z + 3 == |s|) && (b.tag || !tagged)
    ensures z + 3 + |b.prose| <= |s| && i <= |s|
    ensures FencesFrom(s, i, tagged) == [b.body] + FencesFrom(s, z + 3 + |b.prose|, tagged)
  {
    hide *;
    BlockBounds(s, i, b, a, e, z);
    BodyIsClosed(b);
    BlockFound(s, i, b, a, e, z, tagged);
    FenceGivesBody(s, i, a, e, z + 3, tagged, b.body);
    forall k: nat | z + 3 <= k < z + 3 + |b.prose| ensures FenceAt(s, k, tagged).None? {
      ProseScanned(s, i, b, a, e, z, k, tagged);
    }
    SkipsNone(s, z + 3, z + 3 + |b.prose|, tagged);
  }

  /** ... and in one that it does not. */
  lemma BlockPassed(s: string, i: nat, b: FenceBlock, a: nat, e: nat, z: nat)
    requires b.Valid() && BlockAt(s, i, b, a, e, z) && (b.prose == "" ==> z + 3 == |s|) && !b.tag
    ensures z + 3 + |b.prose| <= |s| && i <= |s|
    ensures FencesFrom(s, i, true) == FencesFrom(s, z + 3 + |b.prose|, true)
  {
    hide *;
    BlockBounds(s, i, b, a, e, z);
    forall k: nat | i <= k < z + 3 + |b.prose| ensures FenceAt(s, k, true).None? {
      if k <= z {
        UntaggedPassed(s, i, b, a, e, z, k);
      } else {
        ProseScanned(s, i, b, a, e, z, k, true);
      }
    }
    SkipsNone(s, i, z + 3 + |b.prose|, true);
  }

  lemma BlockBounds(s: string, i: nat, b: FenceBlock, a: nat, e: nat, z: nat)
    requires b.Valid() && BlockAt(s, i, b, a, e, z)
    ensures i < a < e <= z && z + 3 + |b.prose| <= |s| && s[a..e] == b.body != ""
  {
  }

  lemma FenceGivesBody(s: string, i: nat, a: nat, e: nat, next: nat, tagged: bool, body: string)
    requires i < |s| && FenceAt(s, i, tagged) == Some(Fence(a, e, next)) && s[a..e] == body && Strip(body) == body != ""
    ensures FencesFrom(s, i, tagged) == [body] + FencesFrom(s, next, tagged)
  {
    hide FenceAt, Strip;
  }

  lemma UntaggedPassed(s: string, i: nat, b: FenceBlock, a: nat, e: nat, z: nat, k: nat)
    requires b.Valid() && BlockAt(s, i, b, a, e, z) && (b.prose == "" ==> z + 3 == |s|) && !b.tag && i <= k <= z
    ensures FenceAt(s, k, true).None?
  {
    CharsAt(s, z + 3, b.prose);
    TagAt(s, z + 3);
    hide Contains, IsSpace, OccursAt;
    if i < k < z {
      NoFenceInside(s, i, b, a, e, z, k);
    } else if k == i {
      NotTagged(s, i, b, a, e, z);
    }
  }

  lemma {:induction false} BlocksScanned(s: string, i: nat, blocks: seq<FenceBlock>, tagged: bool)
    requires AllBlocks(blocks) && OccursAt(s, i, BlocksText(blocks)) && i + |BlocksText(blocks)| == |s|
    ensures FencesFrom(s, i, tagged) == Bodies(blocks, tagged)
    decreases |blocks|
  {
    hide OccursAt, FencesFrom, BlockAt;
    if blocks == [] {
      NothingLeft(s, tagged);
    } else {
      var b, rest := blocks[0], BlocksText(blocks[1..]);
      var a := i + |b.Head()|;
      var e := a + |b.body|;
      var z := e + |b.after|;
      BlockStands(s, i, b, rest);
      if |blocks| == 1 {
        assert blocks[1..] == [];
      }
      if b.tag || !tagged {
        BlockTaken(s, i, b, a, e, z, tagged);
      } else {
        BlockPassed(s, i, b, a, e, z);
      }
      BlocksScanned(s, z + 3 + |b.prose|, blocks[1..], tagged);
    }
  }

  lemma NothingLeft(s: string, tagged: bool)
    ensures FencesFrom(s, |s|, tagged) == []
  {
  }

  /** The candidates of a text with several fences: the tagged bodies in order, then all of
      them. */
  lemma CandidatesOfBlocks(front: string, blocks: seq<FenceBlock>)
    requires IsProse(front) && blocks != [] && AllBlocks(blocks)
    ensures Candidates(front + BlocksText(blocks)) == Bodies(blocks, true) + Bodies(blocks, false)
  {
    hide OccursAt, FencesFrom, AllBlocks, IsProse;
    var s := front + BlocksText(blocks);
    StandsBehind(front, BlocksText(blocks));
    forall k | 0 <= k < |front| ensures !OccursAt(s, k, TICKS) {
      NoFenceInProse(front, s, k);
    }
    NoFenceBefore(s, 0, |front|, true);
    NoFenceBefore(s, 0, |front|, false);
    BlocksScanned(s, |front|, blocks, true);
    BlocksScanned(s, |front|, blocks, false);
  }

  lemma StandsBehind(a: string, b: string)
    ensures OccursAt(a + b, |a|, b)
  {
  }

  /** Block `j` is tried before block `k`. */
  predicate TriedBefore(blocks: seq<FenceBlock>, j: nat, k: nat)
    requires j < |blocks| && k < |blocks|
  {
    if blocks[k].tag then blocks[j].tag && j < k else blocks[j].tag || j < k
  }

  ghost predicate NoObject(t: string) {
    forall v: Json :: v.Obj? ==> !Document(t, v)
  }

  lemma {:induction false} FirstOfBodies(blocks: seq<FenceBlock>, tagged: bool, k: nat, v: Json)
    requires k < |blocks| && (blocks[k].tag || !tagged) && v.Obj? && Document(blocks[k].body, v)
    requires forall j :: 0 <= j < k && (blocks[j].tag || !tagged) ==> NoObject(blocks[j].body)
    ensures FirstObject(Bodies(blocks, tagged)) == Some(v)
  {
    hide TryParseObject, Document;
    BodiesCons(blocks, tagged);
    if k == 0 {
      ParsesExactly(blocks[0].body, v);
    } else {
      if blocks[0].tag || !tagged {
        NoObjectFails(blocks[0].body);
      }
      FirstOfBodies(blocks[1..], tagged, k - 1, v);
    }
  }

  lemma BodiesCons(blocks: seq<FenceBlock>, tagged: bool)
    requires blocks != []
    ensures var body, rest := blocks[0].body, FirstObject(Bodies(blocks[1..], tagged));
      FirstObject(Bodies(blocks, tagged))
        == if (blocks[0].tag || !tagged) && TryParseObject(body).Some? then TryParseObject(body) else rest
  {
    hide TryParseObject;
    var body, rest := blocks[0].body, Bodies(blocks[1..], tagged);
    if blocks[0].tag || !tagged {
      assert ([body] + rest)[1..] == rest;
    } else {
      assert [] + rest == rest;
    }
  }

  lemma NoObjectFails(t: string)
    requires NoObject(t)
    ensures TryParseObject(t).None?
  {
    hide Document, Loads;
    if TryParseObject(t).Some? {
      ParsesExactly(t, TryParseObject(t).value);
    }
  }

  lemma {:induction false} NoneOfBodies(blocks: seq<FenceBlock>, tagged: bool)
    requires forall j :: 0 <= j < |blocks| && (blocks[j].tag || !tagged) ==> NoObject(blocks[j].body)
    ensures FirstObject(Bodies(blocks, tagged)).None?
  {
    hide TryParseObject, Document, NoObject;
    if blocks != [] {
      BodiesCons(blocks, tagged);
      if blocks[0].tag || !tagged {
        NoObjectFails(blocks[0].body);
      }
      NoneOfBodies(blocks[1..], tagged);
    }
  }

  lemma {:induction false} FirstOfBoth(a: seq<string>, b: seq<string>)
    ensures FirstObject(a + b) == if FirstObject(a).Some? then FirstObject(a) else FirstObject(b)
  {
    hide TryParseObject;
    if a == [] {
      assert a + b == b;
    } else {
      assert (a + b)[1..] == a[1..] + b;
      FirstOfBoth(a[1..], b);
    }
  }

  lemma BlocksTextStarts(blocks: seq<FenceBlock>)
    requires blocks != []
    ensures BlocksText(blocks) != "" && BlocksText(blocks)[0] == '`'
  {
  }

  /** Among several fences the first tagged one with an object wins, wherever it stands, and
      without one the first fence with an object. */
  lemma FencedBlocksRecovered(front: string, blocks: seq<FenceBlock>, k: nat, v: Json)
    requires IsProse(front) && AllBlocks(blocks) && k < |blocks| && v.Obj? && Document(blocks[k].body, v)
    requires forall j: nat :: j < |blocks| && TriedBefore(blocks, j, k) ==> NoObject(blocks[j].body)
    ensures Repair(front + BlocksText(blocks)) == (Some(v), DeterministicGeneric)
  {
    hide AllBlocks, IsProse, Document, NoObject, TryParseObject, Candidates;
    var text := front + BlocksText(blocks);
    CandidatesOfBlocks(front, blocks);
    BlocksTextStarts(blocks);
    FencedDoesNotParse(front, text);
    FirstOfBoth(Bodies(blocks, true), Bodies(blocks, false));
    if blocks[k].tag {
      FirstOfBodies(blocks, true, k, v);
    } else {
      NoneOfBodies(blocks, true);
      FirstOfBodies(blocks, false, k, v);
    }
  }
}
