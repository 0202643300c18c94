/** The stretches of text that CodeBuddy redaction masks: exact secrets and three regular
    expressions, as functions from a position to the match that starts there. */
module RedactionPatterns {
  import opened PyText

  /** `\w` beyond ASCII is the interpreter's Unicode table, so it is a parameter. */
  datatype Words = Words(beyondAscii: char -> bool)

  predicate IsAsciiAlnum(c: char) { 'a' <= c <= 'z' || 'A' <= c <= 'Z' || '0' <= c <= '9' }

  predicate IsWord(w: Words, c: char) {
    IsAsciiAlnum(c) || c == '_' || (c as int >= 0x80 && w.beyondAscii(c))
  }

  /** `\b` at position `i`. */
  predicate Boundary(w: Words, s: string, i: nat)
    requires i <= |s|
  {
    (i > 0 && IsWord(w, s[i - 1])) != (i < |s| && IsWord(w, s[i]))
  }

  /** The character classes the patterns repeat. */
  datatype Class = Space | BearerToken | JwtPart | ParamValue

  predicate InClass(k: Class, c: char) {
    match k
    case Space => IsSpace(c)
    // `[A-Za-z0-9._~+/=-]` under IGNORECASE, which lets four more letters into `[A-Za-z]`
    case BearerToken =>
      IsAsciiAlnum(c) || c in {'.', '_', '~', '+', '/', '=', '-', '\U{130}', '\U{131}', '\U{17F}', '\U{212A}'}
    case JwtPart => IsAsciiAlnum(c) || c == '_' || c == '-'
    // `[^&#\s]`
    case ParamValue => c != '&' && c != '#' && !IsSpace(c)
  }

  /** Where the longest run of a class from `i` ends. */
  function Run(k: Class, s: string, i: nat): (j: nat)
    requires i <= |s|
    ensures i <= j <= |s|
    ensures forall m :: i <= m < j ==> InClass(k, s[m])
    ensures j < |s| ==> !InClass(k, s[j])
    decreases |s| - i
  {
    if i < |s| && InClass(k, s[i]) then Run(k, s, i + 1) else i
  }

  /** A character under IGNORECASE, for a lower-case letter of the patterns: the long s and the
      Kelvin sign fold to ASCII letters. */
  predicate SameIgnoringCase(c: char, lower: char) {
    LowerChar(c) == lower || (lower == 's' && c == '\U{17F}')
  }

  predicate WordAt(s: string, i: nat, word: string) {
    i + |word| <= |s| && forall k :: 0 <= k < |word| ==> SameIgnoringCase(s[i + k], word[k])
  }

  /** A stage of redaction. */
  datatype Stage = Exact(secret: string) | Bearer(w: Words) | Jwt(w: Words) | QueryParam

  /** A match: `len` characters, the first `keep` of which stay readable; `len == 0` is no
      match. */
  datatype Match = Match(keep: nat, len: nat)

  const NONE := Match(0, 0)

  /** `(?i)\bBearer\s+[A-Za-z0-9._~+/=-]+` */
  function BearerAt(w: Words, s: string, i: nat): (m: Match)
    requires i <= |s|
    ensures m.keep == 0 && i + m.len <= |s|
  {
    if !WordAt(s, i, "bearer") || !Boundary(w, s, i) then NONE
    else
      var a := Run(Space, s, i + 6);
      var e := Run(BearerToken, s, a);
      if a > i + 6 && e > a then Match(0, e - i) else NONE
  }

  /** The last word boundary in `(low, j]`, or `low`. */
  function LastBoundary(w: Words, s: string, low: nat, j: nat): (r: nat)
    requires low <= j <= |s|
    ensures low <= r <= j
  {
    if j == low || Boundary(w, s, j) then j else LastBoundary(w, s, low, j - 1)
  }

  /** `\beyJ[A-Za-z0-9_-]+\.[A-Za-z0-9_-]+\.[A-Za-z0-9_-]+\b`; the last run gives characters
      back until a boundary follows it. */
  function JwtAt(w: Words, s: string, i: nat): (m: Match)
    requires i <= |s|
    ensures m.keep == 0 && i + m.len <= |s|
  {
    if !OccursAt(s, i, "eyJ") || !Boundary(w, s, i) then NONE
    else
      match DottedPart(s, i + 3)
      case None => NONE
      case Some(a) =>
        match DottedPart(s, a)
        case None => NONE
        case Some(b) =>
          var e := LastBoundary(w, s, b, Run(JwtPart, s, b));
          if e == b then NONE else Match(0, e - i)
  }

  /** A non-empty run of token characters with a point behind it: the position past the
      point. */
  function DottedPart(s: string, i: nat): (r: Option<nat>)
    requires i <= |s|
    ensures r.Some? ==> i < r.value <= |s|
  {
    var a := Run(JwtPart, s, i);
    if a > i && a < |s| && s[a] == '.' then Some(a + 1) else None
  }

  function ParamName(s: string, i: nat): (n: nat)
    ensures n > 0 ==> i + n <= |s| && forall k :: i <= k < i + n ==> !IsSpace(s[k])
  {
    if WordAt(s, i, "access_token") then WordIsTight(s, i, "access_token"); 12
    else if WordAt(s, i, "token") then WordIsTight(s, i, "token"); 5
    else if WordAt(s, i, "code") then WordIsTight(s, i, "code"); 4
    else if WordAt(s, i, "secret") then WordIsTight(s, i, "secret"); 6
    else 0
  }

  lemma WordIsTight(s: string, i: nat, word: string)
    requires WordAt(s, i, word) && forall k :: 0 <= k < |word| ==> word[k] > ' ' && word[k] < '\U{7F}'
    ensures forall k :: i <= k < i + |word| ==> !IsSpace(s[k])
  {
    forall k | i <= k < i + |word| ensures !IsSpace(s[k]) {
      assert SameIgnoringCase(s[i + (k - i)], word[k - i]);
    }
  }

  /** `(?i)([?&](?:access_token|token|code|secret)=)[^&#\s]+`, of which the group stays. */
  function QueryParamAt(s: string, i: nat): (m: Match)
    requires i <= |s|
    ensures i + m.len <= |s| && (m.len > 0 ==> m.keep < m.len)
  {
    if i >= |s| || (s[i] != '?' && s[i] != '&') then NONE
    else
      var a := i + 1 + ParamName(s, i + 1);
      if a == i + 1 || a >= |s| || s[a] != '=' then NONE
      else
        var e := Run(ParamValue, s, a + 1);
        if e == a + 1 then NONE else Match(a + 1 - i, e - i)
  }

  function MatchAt(stage: Stage, s: string, i: nat): (m: Match)
    requires i <= |s|
    ensures i + m.len <= |s| && (m.len > 0 ==> m.keep < m.len)
  {
    match stage
    case Exact(secret) => if OccursAt(s, i, secret) then Match(0, |secret|) else NONE
    case Bearer(w) => BearerAt(w, s, i)
    case Jwt(w) => JwtAt(w, s, i)
    case QueryParam => QueryParamAt(s, i)
  }

  // ---------------------------------------------------------------------------------------
  // A match sees one record

  /** `c` is the end of a record of `t`: the position after a newline. */
  predicate RecordEnd(t: string, c: nat) {
    0 < c <= |t| && t[c - 1] == '\n'
  }

  /** A stage that never matches across the end of a record. All but `Bearer`, whose `\s+` can
      take the newline. */
  predicate OneRecord(stage: Stage) {
    match stage
    case Exact(secret) => '\n' !in secret
    case Bearer(_) => false
    case _ => true
  }

  lemma BoundaryInPrefix(w: Words, t: string, c: nat, i: nat)
    requires i < c <= |t|
    ensures Boundary(w, t[..c], i) == Boundary(w, t, i)
  {
  }

  /** The newline before a record counts like the start of the text: neither is a word
      character. */
  lemma BoundaryInSuffix(w: Words, t: string, c: nat, i: nat)
    requires RecordEnd(t, c) && c <= i <= |t|
    ensures Boundary(w, t[c..], i - c) == Boundary(w, t, i)
  {
    assert !IsWord(w, '\n');
  }

  lemma {:induction false} LastBoundaryInPrefix(w: Words, t: string, c: nat, low: nat, j: nat)
    requires low <= j < c <= |t|
    ensures LastBoundary(w, t[..c], low, j) == LastBoundary(w, t, low, j)
    decreases j - low
  {
    BoundaryInPrefix(w, t, c, j);
    if j > low {
      LastBoundaryInPrefix(w, t, c, low, j - 1);
    }
  }

  lemma {:induction false} LastBoundaryInSuffix(w: Words, t: string, c: nat, low: nat, j: nat)
    requires RecordEnd(t, c) && c <= low <= j <= |t|
    ensures LastBoundary(w, t[c..], low - c, j - c) + c == LastBoundary(w, t, low, j)
    decreases j - low
  {
    BoundaryInSuffix(w, t, c, j);
    if j > low {
      LastBoundaryInSuffix(w, t, c, low, j - 1);
    }
  }

  lemma OccursInSuffix(t: string, c: nat, i: nat, u: string)
    requires c <= i
    requires c <= |t|
    ensures OccursAt(t[c..], i - c, u) <==> OccursAt(t, i, u)
  {
    if i + |u| <= |t| {
      assert t[c..][i - c..i - c + |u|] == t[i..i + |u|];
    }
  }

  /** A text without newlines that starts inside a record ends before the record does. */
  lemma ExactInRecord(t: string, c: nat, i: nat, u: string)
    requires RecordEnd(t, c) && i < c && '\n' !in u
    ensures OccursAt(t, i, u) ==> i + |u| < c
    ensures OccursAt(t[..c], i, u) <==> OccursAt(t, i, u)
  {
    if OccursAt(t, i, u) {
      forall m | i <= m < i + |u| ensures t[m] != '\n' {
        assert u[m - i] == t[i..i + |u|][m - i] == t[m];
        assert u[m - i] in u;
      }
    }
    if i + |u| <= c {
    }
  }

  lemma JwtInPrefix(w: Words, t: string, c: nat, i: nat)
    requires RecordEnd(t, c) && i < c
    ensures JwtAt(w, t[..c], i) == JwtAt(w, t, i) && i + JwtAt(w, t, i).len < c
  {
    hide OccursAt, Boundary, DottedPart, Run;
    ExactInRecord(t, c, i, "eyJ");
    BoundaryInPrefix(w, t, c, i);
    if OccursAt(t, i, "eyJ") {
      DottedPartInPrefix(t, c, i + 3);
      if DottedPart(t, i + 3).Some? {
        var a := DottedPart(t, i + 3).value;
        DottedPartInPrefix(t, c, a);
        if DottedPart(t, a).Some? {
          var b := DottedPart(t, a).value;
          LastBoundaryInPrefix(w, t, c, b, Run(JwtPart, t, b));
        }
      }
    }
  }

  lemma DottedPartInPrefix(t: string, c: nat, i: nat)
    requires RecordEnd(t, c) && i < c
    ensures DottedPart(t[..c], i) == DottedPart(t, i)
    ensures DottedPart(t, i).Some? ==> DottedPart(t, i).value < c
  {
  }

  lemma DottedPartInSuffix(t: string, c: nat, i: nat)
    requires c <= i <= |t|
    ensures DottedPart(t, i) == match DottedPart(t[c..], i - c) case None => None case Some(a) => Some(a + c)
  {
  }

  lemma JwtInSuffix(w: Words, t: string, c: nat, i: nat)
    requires RecordEnd(t, c) && c <= i <= |t|
    ensures JwtAt(w, t[c..], i - c) == JwtAt(w, t, i)
  {
    hide OccursAt, Boundary, DottedPart, Run, LastBoundary;
    OccursInSuffix(t, c, i, "eyJ");
    BoundaryInSuffix(w, t, c, i);
    if OccursAt(t, i, "eyJ") {
      OccursInside(t, i, "eyJ");
      DottedPartInSuffix(t, c, i + 3);
      if DottedPart(t, i + 3).Some? {
        var a := DottedPart(t, i + 3).value;
        DottedPartInSuffix(t, c, a);
        if DottedPart(t, a).Some? {
          var b := DottedPart(t, a).value;
          LastBoundaryInSuffix(w, t, c, b, Run(JwtPart, t, b));
        }
      }
    }
  }

  lemma ParamNameInPrefix(t: string, c: nat, i: nat)
    requires RecordEnd(t, c) && i < c
    ensures ParamName(t[..c], i) == ParamName(t, i) && i + ParamName(t, i) < c
  {
  }

  lemma QueryParamInPrefix(t: string, c: nat, i: nat)
    requires RecordEnd(t, c) && i < c
    ensures QueryParamAt(t[..c], i) == QueryParamAt(t, i) && i + QueryParamAt(t, i).len < c
  {
    hide ParamName;
    if t[i] == '?' || t[i] == '&' {
      ParamNameInPrefix(t, c, i + 1);
      var a := i + 1 + ParamName(t, i + 1);
      if t[a] == '=' {
      }
    }
  }

  lemma QueryParamInSuffix(t: string, c: nat, i: nat)
    requires c <= i <= |t|
    ensures QueryParamAt(t[c..], i - c) == QueryParamAt(t, i)
  {
    hide ParamName;
    if i < |t| && (t[i] == '?' || t[i] == '&') {
      ParamNameInSuffix(t, c, i + 1);
      var a := i + 1 + ParamName(t, i + 1);
      if a < |t| && t[a] == '=' {
      }
    }
  }

  lemma ParamNameInSuffix(t: string, c: nat, i: nat)
    requires c <= i <= |t|
    ensures ParamName(t[c..], i - c) == ParamName(t, i)
  {
  }

  /** A `Bearer` match that ends in its record is found in the record alone; one that does not
      is found nowhere there. */
  lemma BearerInPrefix(w: Words, t: string, c: nat, i: nat)
    requires RecordEnd(t, c) && i < c
    ensures BearerAt(w, t[..c], i) == if i + BearerAt(w, t, i).len <= c then BearerAt(w, t, i) else NONE
    ensures i + BearerAt(w, t[..c], i).len < c
  {
    BoundaryInPrefix(w, t, c, i);
    if WordAt(t, i, "bearer") {
      var a := Run(Space, t, i + 6);
      if a < c {
      } else {
      }
    }
  }

  lemma BearerInSuffix(w: Words, t: string, c: nat, i: nat)
    requires RecordEnd(t, c) && c <= i <= |t|
    ensures BearerAt(w, t[c..], i - c) == BearerAt(w, t, i)
  {
    BoundaryInSuffix(w, t, c, i);
    if WordAt(t, i, "bearer") {
    }
  }

  /** A stage matches a record the same whether or not more records follow, unless the match
      runs on into them. */
  lemma MatchInPrefix(stage: Stage, t: string, c: nat, i: nat)
    requires RecordEnd(t, c) && i < c && (OneRecord(stage) || stage.Bearer?)
    ensures MatchAt(stage, t[..c], i) == if i + MatchAt(stage, t, i).len <= c then MatchAt(stage, t, i) else NONE
    ensures i + MatchAt(stage, t[..c], i).len < c
    ensures OneRecord(stage) ==> i + MatchAt(stage, t, i).len < c
  {
    hide JwtAt, BearerAt, QueryParamAt;
    match stage {
      case Exact(secret) => ExactInRecord(t, c, i, secret);
      case Bearer(w) => BearerInPrefix(w, t, c, i);
      case Jwt(w) => JwtInPrefix(w, t, c, i);
      case QueryParam => QueryParamInPrefix(t, c, i);
    }
  }

  /** A stage matches a record the same whatever records came before. */
  lemma MatchInSuffix(stage: Stage, t: string, c: nat, i: nat)
    requires RecordEnd(t, c) && c <= i <= |t|
    ensures MatchAt(stage, t[c..], i - c) == MatchAt(stage, t, i)
  {
    hide JwtAt, BearerAt, QueryParamAt;
    match stage {
      case Exact(secret) => OccursInSuffix(t, c, i, secret);
      case Bearer(w) => BearerInSuffix(w, t, c, i);
      case Jwt(w) => JwtInSuffix(w, t, c, i);
      case QueryParam => QueryParamInSuffix(t, c, i);
    }
  }
}
