/** What redaction masks, told by the text alone: the value of a query parameter, a bearer token,
    a dotted token, and nothing else. */
module RedactionMeaning {
  import opened PyText
  import opened RedactionPatterns
  import opened Redaction
  import opened StreamingRedaction

  // ---------------------------------------------------------------------------------------
  // Characters and words

  const DIGITS := "0123456789"

  predicate IsAlnum(c: char) { c in CAPITALS || c in SMALLS || c in DIGITS }

  predicate WordChar(w: Words, c: char) {
    IsAlnum(c) || c == '_' || (c as int >= 128 && w.beyondAscii(c))
  }

  /** `c` is the letter in any case; two more characters count as one under `(?i)`. */
  predicate Folds(c: char, letter: char) {
    SameLetter(c, letter) || (letter == 's' && c == '\U{17F}')
  }

  predicate WordStands(s: string, i: nat, word: string) {
    i + |word| <= |s| && forall k :: 0 <= k < |word| ==> Folds(s[i + k], word[k])
  }

  lemma AlnumExactly(c: char)
    ensures IsAsciiAlnum(c) <==> IsAlnum(c)
  {
    CapitalExactly(c, c);
    SmallExactly(c);
    DigitExactly(c);
    hide CAPITALS, SMALLS, DIGITS;
  }

  lemma SmallExactly(c: char)
    ensures c in SMALLS <==> 'a' <= c <= 'z'
  {
    forall k | 0 <= k < 26 ensures SMALLS[k] as int == 'a' as int + k {
      CapitalsAt(k);
    }
    assert |SMALLS| == 26;
    hide SMALLS;
    if 'a' <= c <= 'z' {
      assert SMALLS[c as int - 'a' as int] == c;
    }
  }

  lemma DigitExactly(c: char)
    ensures c in DIGITS <==> '0' <= c <= '9'
  {
    assert DIGITS[0] == '0' && DIGITS[1] == '1' && DIGITS[2] == '2' && DIGITS[3] == '3' && DIGITS[4] == '4';
    assert DIGITS[5] == '5' && DIGITS[6] == '6' && DIGITS[7] == '7' && DIGITS[8] == '8' && DIGITS[9] == '9';
  }

  lemma WordExactly(w: Words, c: char)
    ensures IsWord(w, c) <==> WordChar(w, c)
  {
    hide IsAlnum, IsAsciiAlnum;
    AlnumExactly(c);
  }

  lemma WordStandsExactly(s: string, i: nat, word: string)
    ensures WordAt(s, i, word) <==> WordStands(s, i, word)
  {
    hide SameLetter, LowerChar;
    if i + |word| <= |s| {
      forall k | 0 <= k < |word| ensures SameIgnoringCase(s[i + k], word[k]) <==> Folds(s[i + k], word[k]) {
        LowerCharExactly(s[i + k], word[k]);
      }
    }
  }

  // ---------------------------------------------------------------------------------------
  // Scanning

  /** The scan gets to `j` if no match before it goes beyond. */
  lemma {:induction false} ScanReaches(stage: Stage, s: string, i: nat, j: nat, k: nat)
    requires i <= j <= k < |s|
    requires forall p :: i <= p < j ==> p + MatchAt(stage, s, p).len <= j
    ensures Marked(stage, s, i, k) == Marked(stage, s, j, k)
    decreases j - i
  {
    hide MatchAt, Marked;
    if i < j {
      MarkedStep(stage, s, i, k);
      var m := MatchAt(stage, s, i);
      ScanReaches(stage, s, i + Advance(m), j, k);
    }
  }

  /** Whatever is marked is in a match, behind what the match keeps. */
  lemma {:induction false} MarkedInMatch(stage: Stage, s: string, i: nat, k: nat) returns (p: nat)
    requires i <= k < |s| && Marked(stage, s, i, k)
    ensures i <= p <= k && p + MatchAt(stage, s, p).keep <= k < p + MatchAt(stage, s, p).len
    decreases k - i
  {
    hide MatchAt, Marked;
    MarkedStep(stage, s, i, k);
    var m := MatchAt(stage, s, i);
    if k < i + Advance(m) {
      p := i;
    } else {
      p := MarkedInMatch(stage, s, i + Advance(m), k);
    }
  }

  lemma MarkedIsMasked(stage: Stage, s: string, k: nat)
    requires k < |s|
    ensures Substitute(stage, s)[k] == if Marked(stage, s, 0, k) then MaskChar(s[k]) else s[k]
  {
    hide Marks;
  }

  // ---------------------------------------------------------------------------------------
  // Listed secrets

  /** No earlier occurrence of the secret runs into this position. */
  predicate SecretReached(u: string, s: string, q: nat) {
    forall p :: 0 <= p < q && OccursAt(s, p, u) ==> p + |u| <= q
  }

  /** An occurrence of a secret that no earlier one runs into is masked as a whole ... */
  lemma SecretMasked(u: string, s: string, q: nat, k: nat)
    requires u != "" && OccursAt(s, q, u) && SecretReached(u, s, q) && q <= k < q + |u|
    ensures k < |s| && Substitute(Exact(u), s)[k] == MaskChar(s[k])
  {
    hide OccursAt, Marked;
    OccursInside(s, q, u);
    ScanReaches(Exact(u), s, 0, q, k);
    MarkedStep(Exact(u), s, q, k);
    MarkedIsMasked(Exact(u), s, k);
  }

  /** ... and its stage masks nothing that is in no occurrence. */
  lemma SecretOnly(u: string, s: string, k: nat) returns (q: nat)
    requires k < |s| && Marked(Exact(u), s, 0, k)
    ensures OccursAt(s, q, u) && q <= k < q + |u|
  {
    hide OccursAt, Marked;
    q := MarkedInMatch(Exact(u), s, 0, k);
  }

  // ---------------------------------------------------------------------------------------
  // Query parameters

  const NAMES := {"access_token", "token", "code", "secret"}

  predicate ValueChar(c: char) { c != '&' && c != '#' && !IsSpace(c) }

  /** `?` or `&`, one of the names and `=`, from `i` up to `a`. */
  predicate ParamHead(s: string, i: nat, a: nat) {
    && i < a <= |s| && s[i] in {'?', '&'} && s[a - 1] == '='
    && exists name :: name in NAMES && WordStands(s, i + 1, name) && a == i + |name| + 2
  }

  /** `k` is in the value behind such a head. */
  predicate ValueOf(s: string, i: nat, a: nat, k: nat) {
    ParamHead(s, i, a) && a <= k < |s| && forall m :: a <= m <= k ==> ValueChar(s[m])
  }

  ghost predicate InValue(s: string, i: nat, k: nat) {
    exists p: nat, a: nat :: i <= p && ValueOf(s, p, a, k)
  }

  lemma FoldedIsPlain(c: char, letter: char)
    requires Folds(c, letter) && ('a' <= letter <= 'z' || letter == '_')
    ensures c != '=' && c != '?' && c != '&' && c != '#' && !IsSpace(c)
    ensures letter != 'b' ==> c != 'b' && c != 'B'
    ensures letter != 'y' ==> c != 'y'
  {
    LowerCharExactly(c, letter);
    hide SameLetter, CAPITALS, SMALLS;
  }

  lemma NameChars(name: string)
    requires name in NAMES
    ensures name != "" && forall k :: 0 <= k < |name| ==> ('a' <= name[k] <= 'z' || name[k] == '_') && name[k] != 'b' && name[k] != 'y'
  {
  }

  lemma EqualsIsNoSpace()
    ensures !IsSpace('=')
  {
  }

  /** Inside a head there is no mark of another. */
  lemma HeadIsPlain(s: string, i: nat, a: nat, k: nat)
    requires ParamHead(s, i, a) && i < k < a
    ensures s[k] != '?' && s[k] != '&' && s[k] != '#' && !IsSpace(s[k]) && s[k] != 'b' && s[k] != 'B' && s[k] != 'y'
  {
    hide Folds, IsSpace;
    var name :| name in NAMES && WordStands(s, i + 1, name) && a == i + |name| + 2;
    NameChars(name);
    hide NAMES;
    assert !IsSpace('=') by { EqualsIsNoSpace(); }
    if k < a - 1 {
      FoldedIsPlain(s[i + 1 + (k - i - 1)], name[k - i - 1]);
    }
  }

  lemma FirstLetters(s: string, i: nat, name: string, other: string)
    requires name in NAMES && other in NAMES && WordStands(s, i, name) && WordStands(s, i, other)
    ensures name == other
  {
    LowerCharExactly(s[i + 0], name[0]);
    LowerCharExactly(s[i + 0], other[0]);
    hide SameLetter, CAPITALS, SMALLS;
    assert Folds(s[i + 0], name[0]) && Folds(s[i + 0], other[0]);
  }

  lemma NameExactly(s: string, i: nat)
    ensures ParamName(s, i) > 0 ==> exists name :: name in NAMES && WordStands(s, i, name) && |name| == ParamName(s, i)
    ensures forall name :: name in NAMES && WordStands(s, i, name) ==> ParamName(s, i) == |name|
  {
    WordStandsExactly(s, i, "access_token");
    WordStandsExactly(s, i, "token");
    WordStandsExactly(s, i, "code");
    WordStandsExactly(s, i, "secret");
    forall name, other | name in NAMES && other in NAMES && WordStands(s, i, name) && WordStands(s, i, other) ensures name == other {
      FirstLetters(s, i, name, other);
    }
    hide WordStands, WordAt;
  }

  lemma HeadGivesName(s: string, i: nat, a: nat)
    requires ParamHead(s, i, a)
    ensures a == i + 2 + ParamName(s, i + 1) && ParamName(s, i + 1) > 0
  {
    hide ParamName, WordStands, NAMES;
    NameExactly(s, i + 1);
    var name :| name in NAMES && WordStands(s, i + 1, name) && a == i + |name| + 2;
    NameNotEmpty(name);
  }

  lemma NameNotEmpty(name: string)
    requires name in NAMES
    ensures name != ""
  {
  }

  lemma NameGivesHead(s: string, i: nat)
    requires i < |s| && s[i] in {'?', '&'} && ParamName(s, i + 1) > 0
    requires var a := i + 2 + ParamName(s, i + 1); a <= |s| && s[a - 1] == '='
    ensures ParamHead(s, i, i + 2 + ParamName(s, i + 1))
  {
    NameExactly(s, i + 1);
    hide ParamName, WordStands, NAMES;
  }

  /** The match at `i` takes a head and the longest value behind it ... */
  lemma ParamMatched(s: string, i: nat)
    requires i <= |s| && QueryParamAt(s, i).len > 0
    ensures var a, e := i + QueryParamAt(s, i).keep, i + QueryParamAt(s, i).len;
      ParamHead(s, i, a) && a < e <= |s| && (forall k :: a <= k < e ==> ValueChar(s[k])) && (e < |s| ==> !ValueChar(s[e]))
  {
    hide ParamName, ParamHead;
    NameGivesHead(s, i);
  }

  /** ... wherever there is a head with a value. */
  lemma ParamFound(s: string, i: nat, a: nat)
    requires ParamHead(s, i, a) && a < |s| && ValueChar(s[a])
    ensures QueryParamAt(s, i).len > 0 && a == i + QueryParamAt(s, i).keep
  {
    HeadGivesName(s, i, a);
    hide ParamName, WordStands, NAMES;
  }

  /** From a position that the scan reaches, exactly the values behind heads from there on are
      marked. */
  lemma {:induction false} ValuesMarked(s: string, i: nat, k: nat)
    requires i <= k < |s|
    ensures Marked(QueryParam, s, i, k) <==> InValue(s, i, k)
    decreases k - i
  {
    hide Marked, QueryParamAt, ParamHead, ValueChar;
    MarkedStep(QueryParam, s, i, k);
    var m := MatchAt(QueryParam, s, i);
    var next := i + Advance(m);
    if m.len == 0 {
      forall a: nat | ParamHead(s, i, a) && a < |s| ensures !ValueChar(s[a]) {
        if ValueChar(s[a]) {
          ParamFound(s, i, a);
        }
      }
      NoValueHere(s, i, k);
      if k > i {
        ValuesMarked(s, i + 1, k);
      }
    } else {
      ParamMatched(s, i);
      var a := i + m.keep;
      if k < a {
        HeadHoldsNone(s, i, a, k);
      } else if k < next {
        assert ValueOf(s, i, a, k);
      } else {
        ValuesMarked(s, next, k);
        HeadMark(s, i, a);
        BehindValue(s, i, a, next, k);
      }
    }
  }

  lemma NoValueHere(s: string, i: nat, k: nat)
    requires i <= k < |s| && forall a: nat :: ParamHead(s, i, a) && a < |s| ==> !ValueChar(s[a])
    ensures InValue(s, i, k) <==> k > i && InValue(s, i + 1, k)
  {
    hide ValueChar, ParamHead;
    if InValue(s, i, k) {
      var p: nat, a: nat :| i <= p && ValueOf(s, p, a, k);
      HeadMark(s, p, a);
      assert i + 1 <= p && ValueOf(s, p, a, k);
    }
    if k > i && InValue(s, i + 1, k) {
      var p: nat, a: nat :| i + 1 <= p && ValueOf(s, p, a, k);
      assert i <= p && ValueOf(s, p, a, k);
    }
  }

  lemma HeadMark(s: string, i: nat, a: nat)
    requires ParamHead(s, i, a)
    ensures i < a <= |s| && s[i] in {'?', '&'}
  {
  }

  lemma HeadHoldsNone(s: string, i: nat, a: nat, k: nat)
    requires ParamHead(s, i, a) && i <= k < a
    ensures !InValue(s, i, k)
  {
    hide ParamHead, ValueChar;
    HeadMark(s, i, a);
    if InValue(s, i, k) {
      var p: nat, b: nat :| i <= p && ValueOf(s, p, b, k);
      HeadMark(s, p, b);
      if p > i {
        HeadIsPlain(s, i, a, p);
      } else {
        SameHead(s, i, a, b);
      }
    }
  }

  lemma SameHead(s: string, i: nat, a: nat, b: nat)
    requires ParamHead(s, i, a) && ParamHead(s, i, b)
    ensures a == b
  {
    var name :| name in NAMES && WordStands(s, i + 1, name) && a == i + |name| + 2;
    var other :| other in NAMES && WordStands(s, i + 1, other) && b == i + |other| + 2;
    FirstLetters(s, i + 1, name, other);
  }

  lemma HeadIsLater(s: string, e: nat, k: nat, p: nat, b: nat)
    requires ValueOf(s, p, b, k) && e <= k && !ValueChar(s[e])
    ensures e <= p
  {
    hide ParamHead;
    HeadMark(s, p, b);
    if p < e < b {
      HeadIsPlain(s, p, b, e);
    }
  }

  /** Behind the longest value only later heads matter. */
  lemma BehindValue(s: string, i: nat, a: nat, e: nat, k: nat)
    requires i < a < e <= k < |s| && !ValueChar(s[e])
    ensures InValue(s, i, k) <==> InValue(s, e, k)
  {
    hide ValueOf, ValueChar;
    if InValue(s, i, k) {
      var p: nat, b: nat :| i <= p && ValueOf(s, p, b, k);
      HeadIsLater(s, e, k, p, b);
    }
    if InValue(s, e, k) {
      var p: nat, b: nat :| e <= p && ValueOf(s, p, b, k);
      assert i <= p && ValueOf(s, p, b, k);
    }
  }

  /** The parameter stage masks exactly the values of parameters. */
  lemma ParamStageExactly(s: string, k: nat)
    requires k < |s|
    ensures Substitute(QueryParam, s)[k] == if InValue(s, 0, k) then MaskChar(s[k]) else s[k]
  {
    ValuesMarked(s, 0, k);
    MarkedIsMasked(QueryParam, s, k);
  }

  // ---------------------------------------------------------------------------------------
  // Bearer tokens

  predicate TokenChar(c: char) {
    IsAlnum(c) || c in "._~+/=-" || c in {'\U{130}', '\U{131}', '\U{17F}', '\U{212A}'}
  }

  lemma TokenExactly(c: char)
    ensures InClass(BearerToken, c) <==> TokenChar(c)
  {
    AlnumExactly(c);
    hide IsAlnum, IsAsciiAlnum;
  }

  /** The word `bearer` at a boundary, spaces, and token characters, from `i` to `e`; the token
      starts at `a`. */
  predicate BearerText(w: Words, s: string, i: nat, a: nat, e: nat) {
    && i + 6 < a < e <= |s| && WordStands(s, i, "bearer") && (i > 0 ==> !WordChar(w, s[i - 1]))
    && (forall m :: i + 6 <= m < a ==> IsSpace(s[m]))
    && forall m :: a <= m < e ==> TokenChar(s[m])
  }

  /** Part of such a text from `i` on. */
  ghost predicate BearerFrom(w: Words, s: string, i: nat, e: nat) { exists a :: BearerText(w, s, i, a, e) }

  lemma BearerLetters(w: Words, s: string, i: nat)
    requires WordStands(s, i, "bearer")
    ensures IsWord(w, s[i]) && (s[i] == 'b' || s[i] == 'B')
    ensures forall m :: i <= m < i + 6 ==> s[m] != '?' && s[m] != '&' && !IsSpace(s[m])
  {
    var word := "bearer";
    forall m | i <= m < i + 6 ensures s[m] != '?' && s[m] != '&' && !IsSpace(s[m]) {
      FoldedIsPlain(s[i + (m - i)], word[m - i]);
    }
    assert Folds(s[i + 0], word[0]);
    LowerCharExactly(s[i + 0], 'b');
    hide SameLetter, CAPITALS, SMALLS;
  }

  lemma TokenIsNoSpace(c: char)
    requires TokenChar(c)
    ensures !IsSpace(c) && c != '?' && c != '&'
  {
    TokenExactly(c);
    hide TokenChar;
  }

  /** The match at `i` is the longest such text there. */
  lemma BearerExactly(w: Words, s: string, i: nat)
    requires i <= |s|
    ensures var e := i + BearerAt(w, s, i).len;
      && (e > i ==> BearerFrom(w, s, i, e))
      && forall d: nat :: BearerFrom(w, s, i, d) ==> d <= e
  {
    WordStandsExactly(s, i, "bearer");
    if WordStands(s, i, "bearer") {
      BearerLetters(w, s, i);
      if i > 0 {
        WordExactly(w, s[i - 1]);
      }
      hide WordStands, WordAt, IsWord, WordChar, IsSpace;
      var a := Run(Space, s, i + 6);
      var e := Run(BearerToken, s, a);
      forall m | a <= m < e ensures TokenChar(s[m]) {
        TokenExactly(s[m]);
      }
      if a > i + 6 && e > a && (i > 0 ==> !WordChar(w, s[i - 1])) {
        assert BearerText(w, s, i, a, e);
      }
      forall d: nat | BearerFrom(w, s, i, d) ensures d <= i + BearerAt(w, s, i).len {
        var b :| BearerText(w, s, i, b, d);
        BearerRuns(w, s, i, b, d);
      }
    }
  }

  /** The spaces and the token of such a text are the runs that the pattern takes. */
  lemma BearerRuns(w: Words, s: string, i: nat, a: nat, e: nat)
    requires BearerText(w, s, i, a, e)
    ensures Run(Space, s, i + 6) == a && e <= Run(BearerToken, s, a)
  {
    TokenIsNoSpace(s[a]);
    RunEnds(Space, s, i + 6, a);
    hide WordStands, WordChar;
    var j := Run(BearerToken, s, a);
    if j < e {
      TokenExactly(s[j]);
    }
  }

  lemma {:induction false} RunEnds(c: Class, s: string, i: nat, j: nat)
    requires i <= j <= |s| && (j < |s| ==> !InClass(c, s[j])) && forall m :: i <= m < j ==> InClass(c, s[m])
    ensures Run(c, s, i) == j
    decreases j - i
  {
    hide InClass;
    if i < j {
      RunEnds(c, s, i + 1, j);
    }
  }

  /** No such text that begins earlier goes on beyond `i`. */
  ghost predicate BearerReached(w: Words, s: string, i: nat) {
    forall p: nat, e: nat :: p < i && BearerFrom(w, s, p, e) ==> e <= i
  }

  /** A bearer text that no earlier one runs into is masked from its word to the end of its
      token. */
  lemma BearerMasked(w: Words, s: string, i: nat, e: nat, k: nat)
    requires BearerFrom(w, s, i, e) && BearerReached(w, s, i) && i <= k < e <= |s|
    ensures Substitute(Bearer(w), s)[k] == MaskChar(s[k])
  {
    hide BearerFrom, Marked, BearerAt;
    forall p | 0 <= p < i ensures p + MatchAt(Bearer(w), s, p).len <= i {
      BearerExactly(w, s, p);
    }
    ScanReaches(Bearer(w), s, 0, i, k);
    BearerExactly(w, s, i);
    MarkedStep(Bearer(w), s, i, k);
    BearerKeepsNothing(w, s, i);
    MarkedIsMasked(Bearer(w), s, k);
  }

  /** What the bearer stage changes is part of a bearer text. */
  lemma BearerOnly(w: Words, s: string, k: nat) returns (i: nat, e: nat)
    requires k < |s| && Marked(Bearer(w), s, 0, k)
    ensures BearerFrom(w, s, i, e) && i <= k < e
  {
    hide BearerFrom, Marked, BearerAt;
    i := MarkedInMatch(Bearer(w), s, 0, k);
    e := i + MatchAt(Bearer(w), s, i).len;
    BearerExactly(w, s, i);
  }

  // ---------------------------------------------------------------------------------------
  // Dotted tokens

  predicate PartChar(c: char) { IsAlnum(c) || c == '_' || c == '-' }

  lemma PartExactly(c: char)
    ensures InClass(JwtPart, c) <==> PartChar(c)
  {
    AlnumExactly(c);
    hide IsAlnum, IsAsciiAlnum;
  }

  predicate Part(s: string, i: nat, j: nat) {
    i < j <= |s| && forall m :: i <= m < j ==> PartChar(s[m])
  }

  /** `eyJ` and three parts with points between them, from `i` to `e`, at word boundaries. */
  predicate DottedText(w: Words, s: string, i: nat, a: nat, b: nat, e: nat) {
    && i + 3 <= |s| && s[i..i + 3] == "eyJ" && (i > 0 ==> !WordChar(w, s[i - 1]))
    && Part(s, i + 3, a) && a < |s| && s[a] == '.' && Part(s, a + 1, b) && b < |s| && s[b] == '.' && Part(s, b + 1, e)
    && (WordChar(w, s[e - 1]) <==> e == |s| || !WordChar(w, s[e]))
  }

  ghost predicate DottedFrom(w: Words, s: string, i: nat, e: nat) { exists a, b :: DottedText(w, s, i, a, b, e) }

  lemma PartRun(s: string, i: nat, a: nat)
    requires Part(s, i, a) && a < |s| && s[a] == '.'
    ensures DottedPart(s, i) == Some(a + 1)
  {
    forall m | i <= m < a ensures InClass(JwtPart, s[m]) {
      PartExactly(s[m]);
    }
    RunEnds(JwtPart, s, i, a);
  }

  lemma RunIsPart(s: string, i: nat)
    requires i <= |s| && Run(JwtPart, s, i) > i
    ensures Part(s, i, Run(JwtPart, s, i))
  {
    forall m | i <= m < Run(JwtPart, s, i) ensures PartChar(s[m]) {
      PartExactly(s[m]);
    }
    hide PartChar, InClass;
  }

  lemma PartInRun(s: string, i: nat, e: nat)
    requires Part(s, i, e)
    ensures e <= Run(JwtPart, s, i)
  {
    var j := Run(JwtPart, s, i);
    if j < e {
      PartExactly(s[j]);
    }
    hide PartChar, InClass;
  }

  lemma PartOfPart(s: string, i: nat, d: nat, e: nat)
    requires Part(s, i, e) && i < d <= e
    ensures Part(s, i, d)
  {
  }

  lemma BoundaryExactly(w: Words, s: string, i: nat)
    requires i <= |s|
    ensures Boundary(w, s, i) <==> (i > 0 && WordChar(w, s[i - 1])) != (i < |s| && WordChar(w, s[i]))
  {
    hide IsWord, WordChar;
    if i > 0 {
      WordExactly(w, s[i - 1]);
    }
    if i < |s| {
      WordExactly(w, s[i]);
    }
  }

  lemma {:induction false} LastBoundaryIsLast(w: Words, s: string, low: nat, j: nat)
    requires low <= j <= |s|
    ensures var r := LastBoundary(w, s, low, j);
      (r > low ==> Boundary(w, s, r)) && forall e :: low < e <= j && Boundary(w, s, e) ==> e <= r
    decreases j - low
  {
    hide Boundary;
    if j > low {
      LastBoundaryIsLast(w, s, low, j - 1);
    }
  }

  lemma TagStands(w: Words, s: string, i: nat)
    requires i + 3 <= |s|
    ensures s[i..i + 3] == "eyJ" <==> OccursAt(s, i, "eyJ")
    ensures s[i..i + 3] == "eyJ" ==> (Boundary(w, s, i) <==> i == 0 || !WordChar(w, s[i - 1]))
  {
    BoundaryExactly(w, s, i);
    hide Boundary, WordChar;
    LetterIsWord(w);
    if s[i..i + 3] == "eyJ" {
      assert s[i] == s[i..i + 3][0];
    }
  }

  lemma DottedGivesMatch(w: Words, s: string, i: nat, a: nat, b: nat, e: nat)
    requires DottedText(w, s, i, a, b, e)
    ensures e <= i + JwtAt(w, s, i).len
  {
    hide Part, PartChar, Boundary, WordChar, OccursAt, DottedPart, LastBoundary, Run;
    PartBounds(s, b + 1, e);
    TagStands(w, s, i);
    BoundaryExactly(w, s, e);
    PartRun(s, i + 3, a);
    PartRun(s, a + 1, b);
    PartInRun(s, b + 1, e);
    LastBoundaryIsLast(w, s, b + 1, Run(JwtPart, s, b + 1));
  }

  lemma PartBounds(s: string, i: nat, j: nat)
    requires Part(s, i, j)
    ensures i < j <= |s|
  {
  }

  lemma LetterIsWord(w: Words)
    ensures WordChar(w, 'e')
  {
    assert SMALLS[4] == 'e';
  }

  /** The part in front of a point. */
  lemma PointIsBehindPart(s: string, i: nat)
    requires i <= |s| && DottedPart(s, i).Some?
    ensures var a := DottedPart(s, i).value - 1; i < a < |s| && s[a] == '.' && Part(s, i, a)
  {
    hide Part, Run;
    RunIsPart(s, i);
  }

  lemma MatchIsDotted(w: Words, s: string, i: nat)
    requires i <= |s| && JwtAt(w, s, i).len > 0
    ensures DottedFrom(w, s, i, i + JwtAt(w, s, i).len)
  {
    hide Part, Boundary, WordChar, OccursAt, DottedPart, LastBoundary, Run;
    var e := i + JwtAt(w, s, i).len;
    OccursInside(s, i, "eyJ");
    TagStands(w, s, i);
    PointIsBehindPart(s, i + 3);
    var a := DottedPart(s, i + 3).value - 1;
    PointIsBehindPart(s, a + 1);
    var b := DottedPart(s, a + 1).value - 1;
    RunIsPart(s, b + 1);
    LastBoundaryIsLast(w, s, b + 1, Run(JwtPart, s, b + 1));
    BoundaryExactly(w, s, e);
    PartOfPart(s, b + 1, e, Run(JwtPart, s, b + 1));
    hide JwtAt;
    assert DottedText(w, s, i, a, b, e);
  }

  lemma DottedExactly(w: Words, s: string, i: nat)
    requires i <= |s|
    ensures var e := i + JwtAt(w, s, i).len;
      (e > i ==> DottedFrom(w, s, i, e)) && forall d: nat :: DottedFrom(w, s, i, d) ==> d <= e
  {
    hide JwtAt, DottedText;
    if JwtAt(w, s, i).len > 0 {
      MatchIsDotted(w, s, i);
    }
    forall d: nat | DottedFrom(w, s, i, d) ensures d <= i + JwtAt(w, s, i).len {
      var a, b :| DottedText(w, s, i, a, b, d);
      DottedGivesMatch(w, s, i, a, b, d);
    }
  }

  ghost predicate DottedReached(w: Words, s: string, i: nat) {
    forall p: nat, e: nat :: p < i && DottedFrom(w, s, p, e) ==> e <= i
  }

  /** A dotted token that no earlier one runs into is masked as a whole. */
  lemma DottedMasked(w: Words, s: string, i: nat, e: nat, k: nat)
    requires DottedFrom(w, s, i, e) && DottedReached(w, s, i) && i <= k < e <= |s|
    ensures Substitute(Jwt(w), s)[k] == MaskChar(s[k])
  {
    hide DottedFrom, Marked, JwtAt;
    forall p | 0 <= p < i ensures p + MatchAt(Jwt(w), s, p).len <= i {
      DottedExactly(w, s, p);
    }
    ScanReaches(Jwt(w), s, 0, i, k);
    DottedExactly(w, s, i);
    MarkedStep(Jwt(w), s, i, k);
    JwtKeepsNothing(w, s, i);
    MarkedIsMasked(Jwt(w), s, k);
  }

  lemma JwtKeepsNothing(w: Words, s: string, i: nat)
    requires i <= |s|
    ensures MatchAt(Jwt(w), s, i).keep == 0
  {
  }

  lemma DottedOnly(w: Words, s: string, k: nat) returns (i: nat, e: nat)
    requires k < |s| && Marked(Jwt(w), s, 0, k)
    ensures DottedFrom(w, s, i, e) && i <= k < e
  {
    hide DottedFrom, Marked, JwtAt;
    i := MarkedInMatch(Jwt(w), s, 0, k);
    e := i + MatchAt(Jwt(w), s, i).len;
    DottedExactly(w, s, i);
  }

  // ---------------------------------------------------------------------------------------
  // All stages

  lemma {:induction false} MaskKept(stages: seq<Stage>, s: string, k: nat, c: char)
    requires k < |s| && s[k] == MaskChar(c)
    ensures ApplyAll(stages, s)[k] == MaskChar(c)
  {
    StagesArePointwise(stages, s);
    MaskOfMask(c);
    hide MaskChar;
  }

  /** The masks of the exact stage are the masks of the text. */
  lemma MaskOfExact(t: string, exact: seq<string>, k: nat)
    requires k < |t|
    ensures MaskChar(ExactMasked(t, exact)[k]) == MaskChar(t[k])
  {
    StagesArePointwise(ExactStages(exact), t);
    MaskOfMask(t[k]);
    hide MaskChar, ApplyAll;
  }

  lemma StagesInTurn(w: Words, s: string)
    ensures ApplyAll(Patterns(w), s) == Substitute(QueryParam, Substitute(Jwt(w), Substitute(Bearer(w), s)))
  {
    hide Substitute;
    PatternStages(w, s);
    var b := Substitute(Bearer(w), s);
    var two, one: seq<Stage> := [Jwt(w), QueryParam], [QueryParam];
    assert two[1..] == one && one[1..] == [];
    assert ApplyAll(two, b) == ApplyAll(one, Substitute(Jwt(w), b));
    assert ApplyAll(one, Substitute(Jwt(w), b)) == ApplyAll([], Substitute(QueryParam, Substitute(Jwt(w), b)));
  }

  /** What the patterns see: the text with the listed secrets masked. A bearer text in it that no
      earlier one runs into comes out masked as a whole. */
  lemma BearerHidden(t: string, exact: seq<string>, w: Words, i: nat, e: nat, k: nat)
    requires var seen := ExactMasked(t, exact); BearerFrom(w, seen, i, e) && BearerReached(w, seen, i)
    requires i <= k < e <= |t|
    ensures Redacted(t, exact, w)[k] == MaskChar(t[k])
  {
    hide BearerFrom, BearerReached, Substitute, ApplyAll, MaskChar, ExactMasked;
    var seen := ExactMasked(t, exact);
    BearerMasked(w, seen, i, e, k);
    MaskOfExact(t, exact, k);
    PatternStages(w, seen);
    MaskKept([Jwt(w), QueryParam], Substitute(Bearer(w), seen), k, t[k]);
    RedactedIs(t, exact, w);
  }

  lemma RedactedIs(t: string, exact: seq<string>, w: Words)
    ensures Redacted(t, exact, w) == ApplyAll(Patterns(w), ExactMasked(t, exact))
  {
  }

  /** So does a dotted token, in what the bearer stage leaves. */
  lemma DottedHidden(t: string, exact: seq<string>, w: Words, i: nat, e: nat, k: nat)
    requires var seen := Substitute(Bearer(w), ExactMasked(t, exact)); DottedFrom(w, seen, i, e) && DottedReached(w, seen, i)
    requires i <= k < e <= |t|
    ensures Redacted(t, exact, w)[k] == MaskChar(t[k])
  {
    hide DottedFrom, DottedReached, Substitute, ApplyAll, MaskChar, ExactMasked;
    var first := ExactMasked(t, exact);
    var seen := Substitute(Bearer(w), first);
    DottedMasked(w, seen, i, e, k);
    MaskOfExact(t, exact, k);
    MaskOfStage(Bearer(w), first, k);
    StagesInTurn(w, first);
    RedactedIs(t, exact, w);
    StageKeepsMask(QueryParam, Substitute(Jwt(w), seen), k, t[k]);
  }

  lemma MaskOfStage(stage: Stage, s: string, k: nat)
    requires k < |s|
    ensures MaskChar(Substitute(stage, s)[k]) == MaskChar(s[k])
  {
    SubstituteIsPointwise(stage, s);
    MaskOfMask(s[k]);
    hide MaskChar, Substitute;
  }

  lemma StageKeepsMask(stage: Stage, s: string, k: nat, c: char)
    requires k < |s| && s[k] == MaskChar(c)
    ensures Substitute(stage, s)[k] == MaskChar(c)
  {
    SubstituteIsPointwise(stage, s);
    MaskOfMask(c);
    hide MaskChar, Substitute;
  }

  /** Neither a bearer text nor a dotted token reaches into the head of a parameter. */
  lemma BearerSparesHead(w: Words, s: string, p: nat, a: nat, m: nat)
    requires ParamHead(s, p, a) && p <= m < a
    ensures Substitute(Bearer(w), s)[m] == s[m]
  {
    hide ParamHead, BearerText, Marked, Substitute;
    HeadMark(s, p, a);
    MarkedIsMasked(Bearer(w), s, m);
    if Marked(Bearer(w), s, 0, m) {
      var i, e := BearerOnly(w, s, m);
      var b :| BearerText(w, s, i, b, e);
      BearerChars(w, s, i, b, e);
      if p < i {
        HeadIsPlain(s, p, a, i);
      }
    }
  }

  lemma BearerChars(w: Words, s: string, i: nat, a: nat, e: nat)
    requires BearerText(w, s, i, a, e)
    ensures s[i] == 'b' || s[i] == 'B'
    ensures forall m :: i <= m < e ==> s[m] != '?' && s[m] != '&'
  {
    BearerLetters(w, s, i);
    hide WordStands, WordChar;
    forall m | a <= m < e ensures s[m] != '?' && s[m] != '&' {
      TokenIsNoSpace(s[m]);
    }
    assert !IsSpace('?') && !IsSpace('&');
    hide IsSpace, TokenChar;
  }

  lemma DottedSparesHead(w: Words, s: string, p: nat, a: nat, m: nat)
    requires ParamHead(s, p, a) && p <= m < a
    ensures Substitute(Jwt(w), s)[m] == s[m]
  {
    hide ParamHead, DottedText, Marked, Substitute;
    HeadMark(s, p, a);
    MarkedIsMasked(Jwt(w), s, m);
    if Marked(Jwt(w), s, 0, m) {
      var i, e := DottedOnly(w, s, m);
      var b, c :| DottedText(w, s, i, b, c, e);
      DottedChars(w, s, i, b, c, e);
      HeadEnd(s, p, a);
      if p < i && i + 1 < a {
        HeadIsPlain(s, p, a, i + 1);
      }
    }
  }

  lemma HeadEnd(s: string, p: nat, a: nat)
    requires ParamHead(s, p, a)
    ensures p < a - 1 && s[a - 1] == '='
  {
    var name :| name in NAMES && WordStands(s, p + 1, name) && a == p + |name| + 2;
    NameChars(name);
    hide NAMES, WordStands;
  }

  lemma DottedChars(w: Words, s: string, i: nat, a: nat, b: nat, e: nat)
    requires DottedText(w, s, i, a, b, e)
    ensures i + 3 < e <= |s| && s[i] == 'e' && s[i + 1] == 'y'
    ensures forall m :: i <= m < e ==> s[m] != '?' && s[m] != '&'
  {
    hide WordChar, PartChar;
    var tag := s[i..i + 3];
    assert tag[0] == s[i] && tag[1] == s[i + 1] && tag[2] == s[i + 2];
    forall m | i <= m < e ensures s[m] != '?' && s[m] != '&' {
      PartIsNoMark(s[m]);
    }
  }

  lemma PartIsNoMark(c: char)
    ensures PartChar(c) ==> c != '?' && c != '&'
  {
    PartExactly(c);
    hide PartChar;
  }

  lemma HeadKept(s: string, r: string, p: nat, a: nat)
    requires ParamHead(s, p, a) && |r| == |s| && forall m :: p <= m < a ==> r[m] == s[m]
    ensures ParamHead(r, p, a)
  {
    var name :| name in NAMES && WordStands(s, p + 1, name) && a == p + |name| + 2;
    NameChars(name);
    hide NAMES, SameLetter;
    assert WordStands(r, p + 1, name);
  }

  lemma MaskIsValue(c: char)
    requires ValueChar(c)
    ensures ValueChar(MaskChar(c))
  {
  }

  lemma ValueKept(s: string, r: string, p: nat, a: nat, k: nat)
    requires ValueOf(s, p, a, k) && Pointwise(r, s) && forall m :: p <= m < a ==> r[m] == s[m]
    ensures ValueOf(r, p, a, k)
  {
    hide ParamHead, ValueChar, MaskChar;
    HeadKept(s, r, p, a);
    forall m | a <= m <= k ensures ValueChar(r[m]) {
      MaskIsValue(s[m]);
    }
  }

  lemma ValueSurvives(w: Words, s: string, p: nat, a: nat, k: nat)
    requires ValueOf(s, p, a, k)
    ensures ValueOf(Substitute(Jwt(w), Substitute(Bearer(w), s)), p, a, k)
  {
    hide Substitute, ParamHead, ValueChar, Pointwise;
    var b := Substitute(Bearer(w), s);
    forall m: nat | p <= m < a ensures b[m] == s[m] {
      BearerSparesHead(w, s, p, a, m);
    }
    SubstituteIsPointwise(Bearer(w), s);
    ValueKept(s, b, p, a, k);
    var j := Substitute(Jwt(w), b);
    forall m: nat | p <= m < a ensures j[m] == b[m] {
      DottedSparesHead(w, b, p, a, m);
    }
    SubstituteIsPointwise(Jwt(w), b);
    ValueKept(b, j, p, a, k);
  }

  /** Every character of the value of a parameter comes out masked. */
  lemma ParamHidden(t: string, exact: seq<string>, w: Words, k: nat)
    requires k < |t| && InValue(ExactMasked(t, exact), 0, k)
    ensures Redacted(t, exact, w)[k] == MaskChar(t[k])
  {
    hide Substitute, ApplyAll, MaskChar, ExactMasked, ValueOf;
    var seen := ExactMasked(t, exact);
    var p: nat, a: nat :| 0 <= p && ValueOf(seen, p, a, k);
    ValueSurvives(w, seen, p, a, k);
    var b := Substitute(Bearer(w), seen);
    var j := Substitute(Jwt(w), b);
    ParamStageExactly(j, k);
    StagesInTurn(w, seen);
    RedactedIs(t, exact, w);
    MaskOfExact(t, exact, k);
    MaskOfStage(Bearer(w), seen, k);
    MaskOfStage(Jwt(w), b, k);
  }

  lemma ValueAtHead(s: string, i: nat, b: nat, m: nat, p: nat)
    requires ValueOf(s, i, b, m) && b <= p <= m
    ensures InValue(s, 0, p)
  {
    hide ParamHead, ValueChar;
    assert 0 <= i && ValueOf(s, i, b, p);
  }

  /** A head that is in no value itself is not in one with its later characters either. */
  lemma HeadInNoValue(s: string, p: nat, a: nat, m: nat)
    requires ParamHead(s, p, a) && p <= m < a && !InValue(s, 0, p)
    ensures !InValue(s, 0, m)
  {
    hide ParamHead, ValueChar;
    HeadMark(s, p, a);
    if InValue(s, 0, m) {
      var i: nat, b: nat :| 0 <= i && ValueOf(s, i, b, m);
      HeadMark(s, i, b);
      if i < p < b {
        HeadIsPlain(s, i, b, p);
      } else if i < p {
        ValueAtHead(s, i, b, m, p);
      } else if i == p {
        SameHead(s, p, a, b);
      } else {
        HeadIsPlain(s, p, a, i);
      }
    }
  }

  /** The name of a parameter behind `&` stays readable, with its `=`. */
  lemma NameReadable(t: string, exact: seq<string>, w: Words, p: nat, a: nat, m: nat)
    requires ParamHead(ExactMasked(t, exact), p, a) && ExactMasked(t, exact)[p] == '&' && p <= m < a
    ensures Redacted(t, exact, w)[m] == ExactMasked(t, exact)[m]
  {
    hide Substitute, ApplyAll, ExactMasked, ParamHead;
    var seen := ExactMasked(t, exact);
    HeadMark(seen, p, a);
    var b := Substitute(Bearer(w), seen);
    forall x: nat | p <= x < a ensures b[x] == seen[x] {
      BearerSparesHead(w, seen, p, a, x);
    }
    HeadKept(seen, b, p, a);
    var j := Substitute(Jwt(w), b);
    forall x: nat | p <= x < a ensures j[x] == b[x] {
      DottedSparesHead(w, b, p, a, x);
    }
    HeadKept(b, j, p, a);
    HeadInNoValue(j, p, a, m);
    ParamStageExactly(j, m);
    StagesInTurn(w, seen);
    RedactedIs(t, exact, w);
  }

  // ---------------------------------------------------------------------------------------
  // Nothing else

  predicate NoWord(s: string, word: string) { forall i :: 0 <= i < |s| ==> !WordStands(s, i, word) }

  lemma NoBearerUntouched(w: Words, s: string)
    requires NoWord(s, "bearer")
    ensures Substitute(Bearer(w), s) == s
  {
    forall k: nat | k <= |s| ensures MatchAt(Bearer(w), s, k).len == 0 {
      WordStandsExactly(s, k, "bearer");
    }
    NotSubstituted(Bearer(w), s);
  }

  lemma NoTagUntouched(w: Words, s: string)
    requires !Contains(s, "eyJ")
    ensures Substitute(Jwt(w), s) == s
  {
    forall k: nat | k <= |s| ensures MatchAt(Jwt(w), s, k).len == 0 {
      assert !OccursAt(s, k, "eyJ");
    }
    NotSubstituted(Jwt(w), s);
  }

  lemma NoMarkUntouched(s: string)
    requires '?' !in s && '&' !in s
    ensures Substitute(QueryParam, s) == s
  {
    forall k: nat | k <= |s| ensures MatchAt(QueryParam, s, k).len == 0 {
    }
    NotSubstituted(QueryParam, s);
  }

  lemma {:induction false} NoSecretUntouched(exact: seq<string>, s: string)
    requires forall x :: x in exact ==> !Contains(s, x)
    ensures ApplyAll(ExactStages(exact), s) == s
    decreases |exact|
  {
    hide Substitute;
    if exact != [] {
      forall k: nat | k <= |s| ensures MatchAt(Exact(exact[0]), s, k).len == 0 {
        assert exact[0] in exact && !OccursAt(s, k, exact[0]);
      }
      NotSubstituted(Exact(exact[0]), s);
      NoSecretUntouched(exact[1..], s);
      assert ExactStages(exact)[1..] == ExactStages(exact[1..]);
    }
  }

  /** A text without a listed secret, the word `bearer` in any case, `eyJ`, `?` and `&` comes out
      as it is. */
  lemma PlainTextUntouched(t: string, secrets: seq<string>, exact: seq<string>, w: Words)
    requires Arranges(exact, secrets) && forall x :: x in secrets && x != "" ==> !Contains(t, x)
    requires NoWord(t, "bearer") && !Contains(t, "eyJ") && '?' !in t && '&' !in t
    ensures Redacted(t, exact, w) == t
  {
    hide Substitute, Contains, ApplyAll, LongestFirst;
    NoSecretUntouched(exact, t);
    NoBearerUntouched(w, t);
    NoTagUntouched(w, t);
    NoMarkUntouched(t);
    StagesInTurn(w, t);
  }
}
