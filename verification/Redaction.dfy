/** Masking secrets in CodeBuddy output: one-shot, and as a stream of records. */
module Redaction {
  import opened PyText
  import opened Sorting
  import opened Utf8
  import opened RedactionPatterns

  // ---------------------------------------------------------------------------------------
  // Masking

  /** The mask of a character: one of the same UTF-8 width. */
  function MaskChar(c: char): (m: char)
    ensures Width(m) == Width(c)
  {
    match Width(c)
    case 1 => '*'
    case 2 => '\U{A2}'
    case 3 => '\U{25CF}'
    case _ => '\U{1F600}'
  }

  predicate IsMask(c: char) { c in {'*', '\U{A2}', '\U{25CF}', '\U{1F600}'} }

  /** Which characters from `i` on a stage masks: all but the kept part of each match, left to
      right, without overlap. */
  function Marks(stage: Stage, s: string, i: nat): (marks: seq<bool>)
    requires i <= |s|
    ensures |marks| == |s| - i
    decreases |s| - i
  {
    if i == |s| then []
    else
      var step := StepMarks(MatchAt(stage, s, i));
      step + Marks(stage, s, i + |step|)
  }

  /** One step of the scan: over a match, or over one character that starts none. */
  function StepMarks(m: Match): (marks: seq<bool>)
    ensures |marks| == Advance(m)
    ensures forall k :: 0 <= k < |marks| ==> marks[k] == (m.len > 0 && k >= m.keep)
  {
    seq(Advance(m), k => m.len > 0 && k >= m.keep)
  }

  function Advance(m: Match): (n: nat)
    ensures n > 0
  {
    if m.len == 0 then 1 else m.len
  }

  lemma MarksStep(stage: Stage, s: string, i: nat)
    requires i < |s|
    ensures i + Advance(MatchAt(stage, s, i)) <= |s|
    ensures Marks(stage, s, i) == StepMarks(MatchAt(stage, s, i)) + Marks(stage, s, i + Advance(MatchAt(stage, s, i)))
  {
    hide StepMarks, MatchAt;
  }

  /** What one step of the scan says about the mark of position `p`. */
  lemma MarkAt(stage: Stage, s: string, i: nat, p: nat)
    requires i <= p < |s|
    ensures var m := MatchAt(stage, s, i);
      if p < i + Advance(m) then Marks(stage, s, i)[p - i] == (m.len > 0 && p - i >= m.keep)
      else Marks(stage, s, i)[p - i] == Marks(stage, s, i + Advance(m))[p - i - Advance(m)]
  {
    hide MatchAt, Marks;
    MarksStep(stage, s, i);
  }

  function ApplyMarks(s: string, marks: seq<bool>): (r: string)
    requires |marks| == |s|
    ensures |r| == |s| && forall k :: 0 <= k < |s| ==> r[k] == if marks[k] then MaskChar(s[k]) else s[k]
  {
    seq(|s|, k requires 0 <= k < |s| => if marks[k] then MaskChar(s[k]) else s[k])
  }

  /** `str.replace` by the mask, or `re.sub` by it. */
  function Substitute(stage: Stage, s: string): (r: string)
    ensures |r| == |s|
  {
    ApplyMarks(s, Marks(stage, s, 0))
  }

  function ApplyAll(stages: seq<Stage>, s: string): (r: string)
    ensures |r| == |s|
    decreases |stages|
  {
    if stages == [] then s else ApplyAll(stages[1..], Substitute(stages[0], s))
  }

  function ExactStages(secrets: seq<string>): (r: seq<Stage>)
    ensures |r| == |secrets| && forall k :: 0 <= k < |r| ==> r[k] == Exact(secrets[k])
  {
    seq(|secrets|, k requires 0 <= k < |secrets| => Exact(secrets[k]))
  }

  function Patterns(w: Words): seq<Stage> { [Bearer(w), Jwt(w), QueryParam] }

  /** The redacted text, the secrets taken in the order of `exact`. */
  function Redacted(text: string, exact: seq<string>, w: Words): (r: string)
    ensures |r| == |text|
  {
    ApplyAll(Patterns(w), ApplyAll(ExactStages(exact), text))
  }

  /** Distinct non-empty secrets, longest first. */
  predicate LongestFirst(exact: seq<string>) {
    && (forall k :: 0 <= k < |exact| ==> exact[k] != "")
    && (forall j, k :: 0 <= j < k < |exact| ==> exact[j] != exact[k] && |exact[j]| >= |exact[k]|)
  }

  /** `exact` is `secrets` without the empty one and without repetitions, longest first; among
      equally long ones the order is the one in which a set happens to yield them. */
  ghost predicate Arranges(exact: seq<string>, secrets: seq<string>) {
    LongestFirst(exact) && forall x :: x in exact <==> x in secrets && x != ""
  }

  /** The order of `key=len, reverse=True`. */
  predicate NotShorter(a: string, b: string) { |a| >= |b| }

  /** The arrangement `redact_codebuddy_text` makes of its secrets: a set of the non-empty ones,
      in whatever order it yields them, sorted by length. */
  method Arrange(secrets: seq<string>) returns (exact: seq<string>)
    ensures Arranges(exact, secrets)
  {
    var rest := set x | x in secrets && x != "";
    var items: seq<string> := [];
    while rest != {}
      invariant Distinct(items)
      invariant forall x :: x in secrets && x != "" <==> x in items || x in rest
      invariant forall x :: x in rest ==> x !in items
      decreases rest
    {
      var x :| x in rest;
      items := items + [x];
      rest := rest - {x};
    }
    exact := Sort(NotShorter, items);
    SortedIsArranged(items);
  }

  lemma SortedIsArranged(items: seq<string>)
    requires Distinct(items) && "" !in items
    ensures LongestFirst(Sort(NotShorter, items)) && forall x :: x in Sort(NotShorter, items) <==> x in items
  {
    assert TotalOrder(NotShorter);
    hide TotalOrder;
    var exact := Sort(NotShorter, items);
    SortFacts(NotShorter, items);
    SortKeepsElements(NotShorter, items);
    SortKeepsDistinct(NotShorter, items);
    forall k | 0 <= k < |exact| ensures exact[k] != "" {
      assert exact[k] in items;
    }
    forall j, k | 0 <= j < k < |exact| ensures exact[j] != exact[k] && |exact[j]| >= |exact[k]| {
      assert NotShorter(exact[j], exact[k]);
    }
  }

  /** `redact_codebuddy_text`, for any secrets at all; `None` is its RuntimeError, which never
      happens. */
  method RedactText(text: string, secrets: seq<string>, w: Words) returns (r: Option<string>, exact: seq<string>)
    ensures Arranges(exact, secrets) && r == Some(Redacted(text, exact, w))
  {
    exact := Arrange(secrets);
    r := RedactArranged(text, exact, w);
  }

  /** The rest of it, once the secrets are arranged. */
  method RedactArranged(text: string, exact: seq<string>, w: Words) returns (r: Option<string>)
    ensures r == Some(Redacted(text, exact, w))
  {
    var redacted := text;
    for k := 0 to |exact|
      invariant |redacted| == |text| && SameWidths(redacted, text)
      invariant ApplyAll(ExactStages(exact)[k..], redacted) == ApplyAll(ExactStages(exact), text)
    {
      assert ExactStages(exact)[k..][1..] == ExactStages(exact)[k + 1..];
      redacted := Substitute(Exact(exact[k]), redacted);
    }
    var patterns := Patterns(w);
    for k := 0 to |patterns|
      invariant |redacted| == |text| && SameWidths(redacted, text)
      invariant ApplyAll(patterns[k..], redacted) == Redacted(text, exact, w)
    {
      assert patterns[k..][1..] == patterns[k + 1..];
      redacted := Substitute(patterns[k], redacted);
    }
    SameWidthsSameSize(redacted, text);
    if Size(redacted) != Size(text) {
      return None;
    }
    return Some(redacted);
  }

  // ---------------------------------------------------------------------------------------
  // The scan

  /** The scan from `i` marks position `k`. */
  predicate Marked(stage: Stage, s: string, i: nat, k: nat)
    requires i <= k < |s|
  {
    Marks(stage, s, i)[k - i]
  }

  lemma MarkedStep(stage: Stage, s: string, i: nat, k: nat)
    requires i <= k < |s|
    ensures var m := MatchAt(stage, s, i);
      Marked(stage, s, i, k) ==
      if k < i + Advance(m) then m.len > 0 && k - i >= m.keep else Marked(stage, s, i + Advance(m), k)
  {
    hide Marks, MatchAt;
    MarkAt(stage, s, i, k);
  }

  /** Nothing is marked on a stretch where nothing matches. */
  lemma {:induction false} SkipMarks(stage: Stage, s: string, i: nat, j: nat)
    requires i <= j <= |s| && forall k :: i <= k < j ==> MatchAt(stage, s, k).len == 0
    ensures forall k :: i <= k < |s| ==> Marked(stage, s, i, k) == (k >= j && Marked(stage, s, j, k))
    decreases j - i
  {
    hide MatchAt, Marked;
    if i < j {
      SkipMarks(stage, s, i + 1, j);
      forall k | i <= k < |s| ensures Marked(stage, s, i, k) == (k >= j && Marked(stage, s, j, k)) {
        MarkedStep(stage, s, i, k);
      }
    }
  }

  // ---------------------------------------------------------------------------------------
  // Masking keeps every width

  predicate SameWidths(a: string, b: string) {
    |a| == |b| && forall k :: 0 <= k < |a| ==> Width(a[k]) == Width(b[k])
  }

  /** Each character of `r` is the one of `s` or its mask. */
  predicate Pointwise(r: string, s: string) {
    |r| == |s| && forall k :: 0 <= k < |s| ==> r[k] == s[k] || r[k] == MaskChar(s[k])
  }

  lemma MaskOfMask(c: char)
    ensures MaskChar(MaskChar(c)) == MaskChar(c)
  {
  }

  lemma PointwiseTrans(a: string, b: string, c: string)
    requires Pointwise(a, b) && Pointwise(b, c)
    ensures Pointwise(a, c)
  {
    forall k | 0 <= k < |c| ensures a[k] == c[k] || a[k] == MaskChar(c[k]) {
      assert MaskChar(MaskChar(c[k])) == MaskChar(c[k]);
    }
  }

  lemma {:induction false} StagesArePointwise(stages: seq<Stage>, s: string)
    ensures Pointwise(ApplyAll(stages, s), s)
    decreases |stages|
  {
    hide MaskChar, Substitute;
    if stages != [] {
      var next := Substitute(stages[0], s);
      SubstituteIsPointwise(stages[0], s);
      StagesArePointwise(stages[1..], next);
      PointwiseTrans(ApplyAll(stages, s), next, s);
    }
  }

  lemma SubstituteIsPointwise(stage: Stage, s: string)
    ensures Pointwise(Substitute(stage, s), s)
  {
  }

  lemma {:induction false} SameWidthsSameSize(a: string, b: string)
    requires SameWidths(a, b)
    ensures Size(a) == Size(b)
  {
    if a != "" {
      SameWidthsSameSize(a[1..], b[1..]);
    }
  }

  /** Redaction is pointwise: the same number of characters, the same UTF-8 width at each of
      them, each either untouched or the mask of its width. */
  lemma RedactionIsPointwise(text: string, exact: seq<string>, w: Words)
    ensures Pointwise(Redacted(text, exact, w), text)
    ensures SameWidths(Redacted(text, exact, w), text) && Size(Redacted(text, exact, w)) == Size(text)
  {
    hide MaskChar, Width, ApplyAll;
    var middle := ApplyAll(ExactStages(exact), text);
    StagesArePointwise(ExactStages(exact), text);
    StagesArePointwise(Patterns(w), middle);
    PointwiseTrans(Redacted(text, exact, w), middle, text);
    SameWidthsSameSize(Redacted(text, exact, w), text);
  }

  // ---------------------------------------------------------------------------------------
  // Secrets are hidden

  predicate MaskFree(s: string) { forall k :: 0 <= k < |s| ==> !IsMask(s[k]) }

  lemma {:induction false} OccurrenceIsMarked(secret: string, s: string, i: nat, p: nat) returns (k: nat)
    requires secret != "" && i <= p && OccursAt(s, p, secret)
    ensures p <= k < p + |secret| && Marks(Exact(secret), s, i)[k - i]
    decreases |s| - i
  {
    hide Marks;
    var m := MatchAt(Exact(secret), s, i);
    MarkAt(Exact(secret), s, i, p);
    if i == p || i + Advance(m) > p {
      k := p;
    } else {
      k := OccurrenceIsMarked(secret, s, i + Advance(m), p);
      MarkAt(Exact(secret), s, i, k);
    }
  }

  lemma MarkedIsMask(stage: Stage, s: string, k: nat)
    requires k < |s| && Marks(stage, s, 0)[k]
    ensures IsMask(Substitute(stage, s)[k])
  {
    hide Marks;
  }

  /** After its own stage a secret without mask characters is nowhere left. */
  lemma ExactHides(secret: string, s: string)
    requires secret != "" && MaskFree(secret)
    ensures !Contains(Substitute(Exact(secret), s), secret)
  {
    hide Marks, Substitute, IsMask;
    forall p: nat | OccursAt(Substitute(Exact(secret), s), p, secret) ensures false {
      OccurrenceSurvived(Exact(secret), s, secret, p);
      var k := OccurrenceIsMarked(secret, s, 0, p);
      MarkedIsMask(Exact(secret), s, k);
      OccursChar(Substitute(Exact(secret), s), p, secret, k - p);
    }
  }

  /** What a stage's output shows of a text without mask characters, its input showed too. */
  lemma OccurrenceSurvived(stage: Stage, s: string, u: string, p: nat)
    requires MaskFree(u) && OccursAt(Substitute(stage, s), p, u)
    ensures OccursAt(s, p, u)
  {
    var r := Substitute(stage, s);
    forall k | 0 <= k < |u| ensures s[p + k] == u[k] {
      OccursChar(r, p, u, k);
      assert !IsMask(u[k]);
    }
    assert s[p..p + |u|] == u;
  }

  lemma {:induction false} StagesHide(stages: seq<Stage>, s: string, u: string)
    requires MaskFree(u)
    requires !Contains(s, u) || (u != "" && Exact(u) in stages)
    ensures !Contains(ApplyAll(stages, s), u)
    decreases |stages|
  {
    if stages != [] {
      var next := Substitute(stages[0], s);
      if !Contains(s, u) {
        forall p: nat | OccursAt(next, p, u) ensures false {
          OccurrenceSurvived(stages[0], s, u, p);
          assert Contains(s, u);
        }
      } else if stages[0] == Exact(u) {
        ExactHides(u, s);
      }
      StagesHide(stages[1..], next, u);
    }
  }

  /** No secret without mask characters occurs in redacted text, whatever other secrets there
      are and whatever order equally long ones are taken in, even after the later stages have
      run over the masks of the earlier ones. */
  lemma SecretsAreHidden(text: string, secrets: seq<string>, exact: seq<string>, w: Words, secret: string)
    requires Arranges(exact, secrets) && secret in secrets && secret != "" && MaskFree(secret)
    ensures !Contains(Redacted(text, exact, w), secret)
  {
    ArrangedIsHidden(text, exact, w, secret);
  }

  lemma ArrangedIsHidden(text: string, exact: seq<string>, w: Words, secret: string)
    requires secret in exact && secret != "" && MaskFree(secret)
    ensures !Contains(Redacted(text, exact, w), secret)
  {
    var k :| 0 <= k < |exact| && exact[k] == secret;
    assert ExactStages(exact)[k] == Exact(secret);
    StagesHide(ExactStages(exact), text, secret);
    StagesHide(Patterns(w), ApplyAll(ExactStages(exact), text), secret);
  }

  lemma {:induction false} NothingMatched(stage: Stage, s: string, i: nat)
    requires i <= |s| && forall k :: i <= k <= |s| ==> MatchAt(stage, s, k).len == 0
    ensures forall k :: 0 <= k < |s| - i ==> !Marks(stage, s, i)[k]
    decreases |s| - i
  {
    hide MatchAt;
    if i < |s| {
      NothingMatched(stage, s, i + 1);
    }
  }

  lemma NotSubstituted(stage: Stage, s: string)
    requires forall k :: 0 <= k <= |s| ==> MatchAt(stage, s, k).len == 0
    ensures Substitute(stage, s) == s
  {
    hide MatchAt;
    NothingMatched(stage, s, 0);
  }

  /** The two other patterns have nothing to match in a text without `y`, `?` and `&`. */
  lemma OtherPatternsIdle(w: Words, s: string)
    requires 'y' !in s && '?' !in s && '&' !in s
    ensures ApplyAll([Jwt(w), QueryParam], s) == s
  {
    forall k | 0 <= k <= |s| ensures MatchAt(Jwt(w), s, k).len == 0 && MatchAt(QueryParam, s, k).len == 0 {
      if OccursAt(s, k, "eyJ") {
        OccursChar(s, k, "eyJ", 1);
      }
      if k < |s| {
        assert s[k] in s;
      }
    }
    NotSubstituted(Jwt(w), s);
    NotSubstituted(QueryParam, s);
    assert [Jwt(w), QueryParam][1..] == [QueryParam];
    assert ApplyAll([QueryParam], s) == ApplyAll([], Substitute(QueryParam, s));
  }

  /** `Bearer` needs eight characters: its word, a space and a token character. */
  lemma ShortTextUntouched(w: Words, s: string)
    requires |s| <= 8 && (|s| == 8 ==> IsSpace(s[7])) && 'y' !in s && '?' !in s && '&' !in s
    ensures Redacted(s, [], w) == s
  {
    forall k | 0 <= k <= |s| ensures MatchAt(Bearer(w), s, k).len == 0 {
    }
    NotSubstituted(Bearer(w), s);
    OtherPatternsIdle(w, s);
  }

  /** Why mask characters have to be excluded: the mask of one occurrence can complete
      another. */
  lemma MaskCharacterExposes()
    ensures Substitute(Exact("a*"), "aa*") == "a**"
    ensures Contains(Substitute(Exact("a*"), "aa*"), "a*")
  {
    var stage := Exact("a*");
    assert MatchAt(stage, "aa*", 0) == NONE by {
      assert "aa*"[0..2][1] == 'a';
    }
    assert MatchAt(stage, "aa*", 1) == Match(0, 2) by {
      assert "aa*"[1..3] == "a*";
    }
    assert Marks(stage, "aa*", 3) == [];
    MarksStep(stage, "aa*", 1);
    MarksStep(stage, "aa*", 0);
    assert Marks(stage, "aa*", 0) == [false, true, true];
    assert OccursAt("a**", 0, "a*") by {
      assert "a**"[0..2] == "a*";
    }
  }
}
