/** Which secrets can show up in their own redaction. */
module SecretExposure {
  import opened PyText
  import opened Utf8
  import opened RedactionPatterns
  import opened Redaction

  function Masked(u: string): (m: string)
    ensures |m| == |u| && forall k :: 0 <= k < |u| ==> m[k] == MaskChar(u[k])
  {
    seq(|u|, k requires 0 <= k < |u| => MaskChar(u[k]))
  }

  /** The first `a` characters of the secret are the mask of its last `a`. */
  predicate StartsAsMaskedEnd(u: string, a: nat)
    requires a <= |u|
  {
    forall k :: 0 <= k < a ==> u[k] == MaskChar(u[|u| - a + k])
  }

  /** The last `a` characters of the secret are the mask of its first `a`. */
  predicate EndsAsMaskedStart(u: string, a: nat)
    requires a <= |u|
  {
    forall k :: 0 <= k < a ==> u[|u| - a + k] == MaskChar(u[k])
  }

  ghost predicate FitsItsMask(u: string) {
    exists a: nat :: 1 <= a <= |u| && (StartsAsMaskedEnd(u, a) || EndsAsMaskedStart(u, a))
  }

  // ---------------------------------------------------------------------------------------
  // An exposed secret fits its mask

  /** A marked character belongs to an occurrence that is masked as a whole. */
  lemma {:induction false} RegionOf(u: string, s: string, i: nat, p: nat) returns (q: nat)
    requires u != "" && i <= p < |s| && Marked(Exact(u), s, i, p)
    ensures i <= q <= p < q + |u| <= |s| && OccursAt(s, q, u)
    ensures forall k :: q <= k < q + |u| ==> Marked(Exact(u), s, i, k)
    decreases |s| - i
  {
    hide Marked;
    var m := MatchAt(Exact(u), s, i);
    MarkedStep(Exact(u), s, i, p);
    if p < i + Advance(m) {
      q := i;
    } else {
      q := RegionOf(u, s, i + Advance(m), p);
    }
    forall k | q <= k < q + |u| ensures Marked(Exact(u), s, i, k) {
      MarkedStep(Exact(u), s, i, k);
    }
  }

  /** If a secret shows up at `p`, something in that place was masked. */
  lemma SomethingMasked(u: string, s: string, p: nat) returns (k: nat)
    requires u != "" && OccursAt(Substitute(Exact(u), s), p, u)
    ensures p <= k < p + |u| <= |s| && Marked(Exact(u), s, 0, k)
  {
    hide Marks;
    var r, marks := Substitute(Exact(u), s), Marks(Exact(u), s, 0);
    if j :| p <= j < p + |u| && marks[j] {
      k := j;
    } else {
      assert s[p..p + |u|] == r[p..p + |u|];
      k := OccurrenceIsMarked(u, s, 0, p);
    }
  }

  lemma ExposedFits(u: string, s: string)
    requires u != "" && Contains(Substitute(Exact(u), s), u)
    ensures FitsItsMask(u)
  {
    hide Marked, Substitute, FitsItsMask, MaskChar;
    var r := Substitute(Exact(u), s);
    var p: nat :| OccursAt(r, p, u);
    var k := SomethingMasked(u, s, p);
    var q := RegionOf(u, s, 0, k);
    RegionShows(u, s, q);
    forall j | 0 <= j < |u| ensures p + j < |r| && r[p + j] == u[j] {
      OccursChar(r, p, u, j);
    }
    OverlapFits(u, r, p, q);
  }

  lemma RegionShows(u: string, s: string, q: nat)
    requires OccursAt(s, q, u) && q + |u| <= |s|
    requires forall k :: q <= k < q + |u| ==> Marked(Exact(u), s, 0, k)
    ensures forall j :: 0 <= j < |u| ==> Substitute(Exact(u), s)[q + j] == MaskChar(u[j])
  {
    hide Marks, MaskChar;
    forall j | 0 <= j < |u| ensures Substitute(Exact(u), s)[q + j] == MaskChar(u[j]) {
      OccursChar(s, q, u, j);
      assert Marked(Exact(u), s, 0, q + j);
    }
  }

  /** Where the secret and a mask of it overlap. */
  lemma OverlapFits(u: string, r: string, p: nat, q: nat)
    requires p + |u| <= |r| && q + |u| <= |r| && p < q + |u| && q < p + |u|
    requires forall j :: 0 <= j < |u| ==> r[p + j] == u[j]
    requires forall j :: 0 <= j < |u| ==> r[q + j] == MaskChar(u[j])
    ensures FitsItsMask(u)
  {
    hide MaskChar;
    var n := |u|;
    if q <= p {
      var a := n - (p - q);
      forall j | 0 <= j < a ensures u[j] == MaskChar(u[n - a + j]) {
        assert r[p + j] == r[q + (n - a + j)];
      }
      assert StartsAsMaskedEnd(u, a);
    } else {
      var a := n - (q - p);
      forall j | 0 <= j < a ensures u[n - a + j] == MaskChar(u[j]) {
        assert r[q + j] == r[p + (n - a + j)];
      }
      assert EndsAsMaskedStart(u, a);
    }
  }

  // ---------------------------------------------------------------------------------------
  // A secret that fits its mask is exposed somewhere

  /** A text with one occurrence to mask, at `q`, none before it and none behind it. */
  predicate OnlyAt(u: string, s: string, q: nat) {
    && u != "" && OccursAt(s, q, u)
    && (forall k :: 0 <= k < q ==> !OccursAt(s, k, u))
    && forall k :: q + |u| <= k < |s| ==> !OccursAt(s, k, u)
  }

  lemma OnlyMarks(u: string, s: string, q: nat)
    requires OnlyAt(u, s, q)
    ensures q + |u| <= |s| && forall k :: 0 <= k < |s| ==> Marked(Exact(u), s, 0, k) == (q <= k < q + |u|)
  {
    hide Marked, OccursAt;
    var stage, e := Exact(u), q + |u|;
    OccursInside(s, q, u);
    SkipMarks(stage, s, 0, q);
    SkipMarks(stage, s, e, |s|);
    forall k | q <= k < |s| ensures Marked(stage, s, q, k) == (k < e) {
      MarkedStep(stage, s, q, k);
    }
  }

  lemma OneOccurrence(u: string, s: string, q: nat)
    requires OnlyAt(u, s, q)
    ensures q + |u| <= |s| && Substitute(Exact(u), s) == s[..q] + Masked(u) + s[q + |u|..]
  {
    hide Marks, OnlyAt;
    OnlyMarks(u, s, q);
    assert forall k :: 0 <= k < |s| ==> Marked(Exact(u), s, 0, k) == Marks(Exact(u), s, 0)[k];
    assert OccursAt(s, q, u) by { OnlyOccurs(u, s, q); }
    forall k | q <= k < q + |u| ensures s[k] == u[k - q] {
      OccursChar(s, q, u, k - q);
    }
  }

  lemma OnlyOccurs(u: string, s: string, q: nat)
    requires OnlyAt(u, s, q)
    ensures OccursAt(s, q, u)
  {
  }

  lemma StartExposes(u: string, a: nat)
    requires 1 <= a <= |u| && StartsAsMaskedEnd(u, a)
    ensures Contains(Substitute(Exact(u), u + u[a..]), u)
  {
    hide Substitute, MaskChar, OnlyAt;
    var s, n := u + u[a..], |u|;
    StartIsOnly(u, a);
    OneOccurrence(u, s, 0);
    var r, m := Substitute(Exact(u), s), Masked(u);
    assert r == m + u[a..];
    forall k | 0 <= k < n ensures r[n - a + k] == u[k] {
      if k < a {
        assert r[n - a + k] == m[n - a + k] == MaskChar(u[n - a + k]);
      } else {
        assert r[n - a + k] == u[a..][k - a];
      }
    }
    assert r[n - a..n - a + n] == u;
    assert OccursAt(r, n - a, u);
  }

  lemma StartIsOnly(u: string, a: nat)
    requires 1 <= a <= |u|
    ensures OnlyAt(u, u + u[a..], 0)
  {
    assert (u + u[a..])[0..|u|] == u;
  }

  /** The secret behind its own start. */
  function Twice(u: string, a: nat): string
    requires a <= |u|
  {
    u[..|u| - a] + u
  }

  lemma TwiceHasOne(u: string, a: nat)
    requires 1 <= a <= |u| && forall k :: 0 <= k < |u| - a ==> !OccursAt(Twice(u, a), k, u)
    ensures OnlyAt(u, Twice(u, a), |u| - a)
  {
    assert Twice(u, a)[|u| - a..|u| - a + |u|] == u;
  }

  lemma EndExposes(u: string, a: nat)
    requires 1 <= a <= |u| && EndsAsMaskedStart(u, a)
    requires forall k :: 0 <= k < |u| - a ==> !OccursAt(Twice(u, a), k, u)
    ensures Contains(Substitute(Exact(u), Twice(u, a)), u)
  {
    hide Substitute, OnlyAt, MaskChar;
    var n, s := |u|, Twice(u, a);
    TwiceHasOne(u, a);
    OneOccurrence(u, s, n - a);
    var r := Substitute(Exact(u), s);
    forall k | 0 <= k < n ensures r[k] == u[k] {
      if k >= n - a {
        assert r[k] == Masked(u)[k - (n - a)];
        assert u[n - a + (k - (n - a))] == MaskChar(u[k - (n - a)]);
      }
    }
    assert r[0..n] == u;
    assert OccursAt(r, 0, u);
  }

  /** An earlier occurrence in that text gives the secret a period. If the period fits into the
      masked end, the whole secret is masks; if not, its start is masks and recurs at its end. */
  lemma EarlierOccurrence(u: string, a: nat, i: nat)
    requires 1 <= a <= |u| && EndsAsMaskedStart(u, a)
    requires i < |u| - a && OccursAt(Twice(u, a), i, u)
    ensures StartsAsMaskedEnd(u, a)
  {
    var n := |u|;
    var s, d := Twice(u, a), n - a - i;
    forall k | d <= k < n ensures u[k] == u[k - d] {
      OccursChar(s, i, u, k);
    }
    if d <= a {
      AllMasks(u, a, d, n);
      assert forall k :: 0 <= k < a ==> u[k] == MaskChar(u[k]) && u[n - a + k] == MaskChar(u[k]);
    } else {
      forall k | 0 <= k < a ensures u[k] == MaskChar(u[n - a + k]) {
        OccursChar(s, i, u, k);
        assert u[n - a + k] == u[i + k];
        MaskOfMask(u[k]);
      }
    }
  }

  /** The last `a` characters are masks, and every character recurs among them. */
  lemma {:induction false} AllMasks(u: string, a: nat, d: nat, k: nat)
    requires 1 <= d <= a <= |u| && k <= |u| && EndsAsMaskedStart(u, a)
    requires forall j :: d <= j < |u| ==> u[j] == u[j - d]
    ensures forall j :: |u| - k <= j < |u| ==> MaskChar(u[j]) == u[j]
    decreases k
  {
    if k > 0 {
      AllMasks(u, a, d, k - 1);
      var j := |u| - k;
      if k <= a {
        MaskOfMask(u[j - (|u| - a)]);
      } else {
        assert u[j + d] == u[j + d - d];
      }
    }
  }

  lemma FittingIsExposed(u: string)
    requires FitsItsMask(u)
    ensures exists s :: Contains(Substitute(Exact(u), s), u)
  {
    hide Substitute;
    var a: nat :| 1 <= a <= |u| && (StartsAsMaskedEnd(u, a) || EndsAsMaskedStart(u, a));
    if i: nat :| !StartsAsMaskedEnd(u, a) && i < |u| - a && OccursAt(Twice(u, a), i, u) {
      EarlierOccurrence(u, a, i);
    } else if StartsAsMaskedEnd(u, a) {
      StartExposes(u, a);
    } else {
      EndExposes(u, a);
    }
  }

  /** A secret can show up in its own redaction, in some text, exactly if a stretch at one of its
      ends is the mask of an equally long stretch at the other. */
  lemma ExposedExactly(u: string)
    requires u != ""
    ensures (exists s :: Contains(Substitute(Exact(u), s), u)) <==> FitsItsMask(u)
  {
    if s :| Contains(Substitute(Exact(u), s), u) {
      ExposedFits(u, s);
    }
    if FitsItsMask(u) {
      FittingIsExposed(u);
    }
  }

  /** So a secret that begins and ends with characters that are no masks is never seen in its own
      redaction, whatever masks it has inside ... */
  lemma InnerMasksAreHidden(u: string, s: string)
    requires u != "" && !IsMask(u[0]) && !IsMask(u[|u| - 1])
    ensures !Contains(Substitute(Exact(u), s), u)
  {
    if Contains(Substitute(Exact(u), s), u) {
      ExposedFits(u, s);
      FittingEndsInMask(u);
    }
  }

  lemma FittingEndsInMask(u: string)
    requires FitsItsMask(u)
    ensures u != "" && (IsMask(u[0]) || IsMask(u[|u| - 1]))
  {
    var a: nat :| 1 <= a <= |u| && (StartsAsMaskedEnd(u, a) || EndsAsMaskedStart(u, a));
    if StartsAsMaskedEnd(u, a) {
      assert u[0] == MaskChar(u[|u| - a + 0]);
    } else {
      assert u[|u| - a + (a - 1)] == MaskChar(u[a - 1]);
    }
  }

  /** ... but the mask of another secret can complete it: with more than one secret, only the
      absence of mask characters is safe. */
  lemma OtherSecretExposes(w: Words)
    ensures Arranges(["a*b", "x"], ["x", "a*b"])
    ensures Redacted("axb", ["a*b", "x"], w) == "a*b"
  {
    hide Substitute, LongestFirst;
    var exact := ["a*b", "x"];
    assert LongestFirst(exact) by { TwoSecrets(); }
    assert exact[0] == "a*b" && exact[1] == "x";
    var stages := ExactStages(exact);
    assert stages == [Exact("a*b"), Exact("x")] && stages[1..] == [Exact("x")];
    OtherSecretMasked();
    assert ApplyAll([Exact("x")], "axb") == ApplyAll([], Substitute(Exact("x"), "axb"));
    ShortTextUntouched(w, "a*b");
    assert ExactStages([]) == [];
  }

  lemma TwoSecrets()
    ensures LongestFirst(["a*b", "x"])
  {
  }

  lemma OtherSecretMasked()
    ensures Substitute(Exact("a*b"), "axb") == "axb" && Substitute(Exact("x"), "axb") == "a*b"
  {
    hide Substitute;
    forall k | 0 <= k <= 3 ensures MatchAt(Exact("a*b"), "axb", k).len == 0 {
      if OccursAt("axb", k, "a*b") {
        OccursChar("axb", k, "a*b", 1);
      }
    }
    NotSubstituted(Exact("a*b"), "axb");
    assert "axb"[1..2] == "x" && "axb"[0..1] == "a" && "axb"[2..3] == "b";
    assert OnlyAt("x", "axb", 1);
    OneOccurrence("x", "axb", 1);
    assert Substitute(Exact("x"), "axb") == "a" + Masked("x") + "b" == "a*b";
  }

  /** That is no accident of these secrets: any secret of two or more characters with a mask
      character in it is exposed beside a secret of one character that it does not hold itself and
      that this is the mask of. */
  lemma ExposedBesideAnother(u: string, k: nat, c: char)
    requires |u| >= 2 && k < |u| && u[k] == MaskChar(c) && !IsMask(c) && c !in u
    ensures Arranges([u, [c]], [u, [c]])
    ensures ApplyAll(ExactStages([u, [c]]), u[..k] + [c] + u[k + 1..]) == u
  {
    hide Substitute, MaskChar;
    var s, exact := u[..k] + [c] + u[k + 1..], [u, [c]];
    assert exact[0] == u && exact[1] == [c];
    assert Masked([c]) == [u[k]];
    assert s[k] == c != u[k];
    NotHere(u, s, k);
    OnlyHere(u, s, k, c);
    OneOccurrence([c], s, k);
    assert s[..k] + Masked([c]) + s[k + 1..] == u;
    var stages := ExactStages(exact);
    assert stages == [Exact(u), Exact([c])] && stages[1..] == [Exact([c])] && stages[1..][1..] == [];
    assert ApplyAll(stages[1..], s) == ApplyAll([], Substitute(Exact([c]), s));
  }

  lemma NotHere(u: string, s: string, k: nat)
    requires |s| == |u| && k < |u| && s[k] != u[k]
    ensures Substitute(Exact(u), s) == s
  {
    hide OccursAt;
    forall i: nat | i <= |s| ensures MatchAt(Exact(u), s, i).len == 0 {
      if OccursAt(s, i, u) {
        OccursInside(s, i, u);
        OccursChar(s, i, u, k);
      }
    }
    NotSubstituted(Exact(u), s);
  }

  lemma OnlyHere(u: string, s: string, k: nat, c: char)
    requires k < |u| && c !in u && s == u[..k] + [c] + u[k + 1..]
    ensures OnlyAt([c], s, k)
  {
    assert s[k..k + 1] == [c];
    assert forall i :: 0 <= i < |s| && i != k ==> s[i] == u[i] && u[i] in u;
    forall i: nat | OccursAt(s, i, [c]) ensures i == k {
      OccursChar(s, i, [c], 0);
    }
  }
}
