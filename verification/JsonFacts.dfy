/** What the decoder guarantees: a decoded value depends only on its own characters. */
module JsonFacts {
  import opened PyText
  import opened Json

  /** `t` holds the characters of `s[i..j]`, moved by `d` positions. */
  predicate Same(s: string, i: nat, j: nat, t: string, d: int) {
    i <= j <= |s| && 0 <= i + d && j + d <= |t| && forall m {:trigger s[m]} :: i <= m < j ==> s[m] == t[m + d]
  }

  /** The decoder cannot read a number past `k`. */
  predicate Delimited(t: string, k: nat) {
    k < |t| ==> !IsDigit(t[k]) && t[k] != '.' && t[k] != 'e' && t[k] != 'E'
  }

  lemma {:induction false} SkipWsShift(s: string, i: nat, j: nat, t: string, d: int)
    requires Same(s, i, j, t, d) && SkipWs(s, i) < j
    ensures SkipWs(t, i + d) == SkipWs(s, i) + d
    decreases j - i
  {
    assert s[i] == t[i + d];
    if IsWs(s[i]) {
      SkipWsShift(s, i + 1, j, t, d);
    }
  }

  lemma {:induction false} SkipDigitsShift(s: string, i: nat, j: nat, t: string, d: int)
    requires Same(s, i, j, t, d) && SkipDigits(s, i) <= j
    requires SkipDigits(s, i) == j && j + d < |t| ==> !IsDigit(t[j + d])
    ensures SkipDigits(t, i + d) == SkipDigits(s, i) + d
    decreases j - i
  {
    if i < j {
      assert s[i] == t[i + d];
      if IsDigit(s[i]) {
        SkipDigitsShift(s, i + 1, j, t, d);
      }
    }
  }

  lemma IntEndShift(s: string, i: nat, j: nat, t: string, d: int)
    requires Same(s, i, j, t, d) && IntEnd(s, i).Some? && IntEnd(s, i).value <= j
    requires IntEnd(s, i) == Some(j) ==> Delimited(t, j + d)
    ensures IntEnd(t, i + d) == Some(IntEnd(s, i).value + d)
  {
    var b := if s[i] == '-' then i + 1 else i;
    assert s[i] == t[i + d] && s[b] == t[b + d];
    if s[b] != '0' {
      SkipDigitsShift(s, b, j, t, d);
    }
  }

  lemma FracEndShift(s: string, i: nat, j: nat, t: string, d: int)
    requires Same(s, i, j, t, d) && FracEnd(s, i) <= j
    requires FracEnd(s, i) == j ==> Delimited(t, j + d)
    requires FracEnd(s, i) == i < j ==> s[i] != '.'
    ensures FracEnd(t, i + d) == FracEnd(s, i) + d
  {
    if i < j {
      assert s[i] == t[i + d];
      if FracEnd(s, i) != i {
        assert s[i + 1] == t[i + 1 + d];
        SkipDigitsShift(s, i + 1, j, t, d);
      }
    }
  }

  lemma ExpEndShift(s: string, i: nat, j: nat, t: string, d: int)
    requires Same(s, i, j, t, d) && ExpEnd(s, i) == j && Delimited(t, j + d)
    ensures ExpEnd(t, i + d) == j + d
  {
    if i < j {
      var b := if s[i + 1] == '+' || s[i + 1] == '-' then i + 2 else i + 1;
      assert s[i] == t[i + d] && s[i + 1] == t[i + 1 + d] && s[b] == t[b + d];
      SkipDigitsShift(s, b, j, t, d);
    }
  }

  lemma SameSlice(s: string, i: nat, j: nat, t: string, d: int)
    requires Same(s, i, j, t, d)
    ensures s[i..j] == t[i + d..j + d]
  {
  }

  /** Where a number token ends, apart from what it is worth. */
  lemma NumberEndsShift(s: string, i: nat, t: string, d: int)
    requires i <= |s| && Number(s, i).At? && Same(s, i, Number(s, i).next, t, d)
    requires Delimited(t, Number(s, i).next + d)
    ensures IntEnd(t, i + d) == Some(IntEnd(s, i).value + d)
    ensures ExpEnd(t, FracEnd(t, IntEnd(t, i + d).value)) == Number(s, i).next + d
  {
    hide SkipDigits, IntEnd, FracEnd, IsDigit;
    var a := IntEnd(s, i).value;
    var b := FracEnd(s, a);
    var j := ExpEnd(s, b);
    IntEndShift(s, i, j, t, d);
    FracEndShift(s, a, j, t, d);
    ExpEndShift(s, b, j, t, d);
  }

  lemma NumberShift(s: string, i: nat, t: string, d: int)
    requires i <= |s| && Number(s, i).At? && Same(s, i, Number(s, i).next, t, d)
    requires Delimited(t, Number(s, i).next + d)
    ensures Number(t, i + d) == At(Number(s, i).value, Number(s, i).next + d)
  {
    NumberEndsShift(s, i, t, d);
    SameSlice(s, i, Number(s, i).next, t, d);
  }

  lemma LiteralShift(s: string, i: nat, t: string, d: int)
    requires i <= |s| && Literal(s, i).At? && Same(s, i, Literal(s, i).next, t, d)
    ensures Literal(t, i + d) == At(Literal(s, i).value, Literal(s, i).next + d)
  {
    var j := Literal(s, i).next;
    SameSlice(s, i, j, t, d);
    LiteralFirst(t, i + d);
    LiteralFirst(s, i);
    assert t[i + d..j + d][0] == t[i + d];
  }

  /** The literals differ in their first two characters, so one at most matches. */
  lemma LiteralFirst(t: string, k: nat)
    requires k <= |t|
    ensures OccursAt(t, k, "null") ==> t[k] == 'n'
    ensures OccursAt(t, k, "true") ==> t[k] == 't'
    ensures OccursAt(t, k, "false") ==> t[k] == 'f'
    ensures OccursAt(t, k, "NaN") ==> t[k] == 'N'
    ensures OccursAt(t, k, "Infinity") ==> t[k] == 'I'
    ensures OccursAt(t, k, "-Infinity") ==> t[k] == '-' && t[k + 1] == 'I'
  {
    if OccursAt(t, k, "null") { assert t[k..k + 4][0] == t[k]; }
    if OccursAt(t, k, "true") { assert t[k..k + 4][0] == t[k]; }
    if OccursAt(t, k, "false") { assert t[k..k + 5][0] == t[k]; }
    if OccursAt(t, k, "NaN") { assert t[k..k + 3][0] == t[k]; }
    if OccursAt(t, k, "Infinity") { assert t[k..k + 8][0] == t[k]; }
    if OccursAt(t, k, "-Infinity") { assert t[k..k + 9][0] == t[k] && t[k..k + 9][1] == t[k + 1]; }
  }

  lemma NotLiteral(t: string, k: nat)
    requires k <= |t| && Number(t, k).At?
    ensures Literal(t, k).Fail?
  {
    LiteralFirst(t, k);
  }

  /** A `\\u` escape that a string goes on with is there in full. */
  lemma EscapeFits(s: string, i: nat)
    requires i + 1 < |s| && s[i] == '\\' && s[i + 1] == 'u' && StringBody(s, i).At?
    ensures i + 6 < StringBody(s, i).next
  {
    var item := StringItem(s, i);
    assert item.next >= i + 6;
    assert StringBody(s, item.next).At?;
  }

  lemma StringItemShift(s: string, i: nat, j: nat, t: string, d: int)
    requires Same(s, i, j, t, d) && i < |s| && StringItem(s, i).At? && StringItem(s, i).next < j
    requires StringBody(s, StringItem(s, i).next).At? && StringBody(s, StringItem(s, i).next).next == j
    ensures StringItem(t, i + d) == At(StringItem(s, i).value, StringItem(s, i).next + d)
  {
    assert s[i] == t[i + d];
    if s[i] == '\\' {
      assert s[i + 1] == t[i + 1 + d];
      if s[i + 1] == 'u' {
        var n := UnicodeEscape(s, i + 2).next;
        if n == i + 6 && s[n] == '\\' && s[n + 1] == 'u' {
          EscapeFits(s, n);
        }
      }
    }
  }

  lemma {:induction false} StringBodyShift(s: string, i: nat, t: string, d: int)
    requires i <= |s| && StringBody(s, i).At? && Same(s, i, StringBody(s, i).next, t, d)
    ensures StringBody(t, i + d) == At(StringBody(s, i).value, StringBody(s, i).next + d)
    decreases |s| - i
  {
    assert s[i] == t[i + d];
    if s[i] != '\"' {
      var j := StringItem(s, i).next;
      StringItemShift(s, i, StringBody(s, i).next, t, d);
      StringBodyShift(s, j, t, d);
    }
  }

  lemma NameShift(s: string, i: nat, j: nat, t: string, d: int)
    requires i <= |s| && Name(s, i).At? && Same(s, i, j, t, d) && Name(s, i).next < j
    ensures Name(t, i + d) == At(Name(s, i).value, Name(s, i).next + d)
  {
    hide StringBody;
    var a := StringBody(s, i + 1).next;
    var b := SkipWs(s, a);
    assert s[i] == t[i + d];
    StringBodyShift(s, i + 1, t, d);
    SkipWsShift(s, a, j, t, d);
    assert s[b] == t[b + d];
    SkipWsShift(s, b + 1, j, t, d);
  }

  lemma AfterItemShift(s: string, c: nat, close: char, j: nat, t: string, d: int)
    requires c <= |s| && close in {'}', ']'} && AfterItem(s, c, close).At? && Same(s, c, j, t, d)
    requires if AfterItem(s, c, close).value then AfterItem(s, c, close).next < j else AfterItem(s, c, close).next <= j
    ensures AfterItem(t, c + d, close) == At(AfterItem(s, c, close).value, AfterItem(s, c, close).next + d)
    ensures Delimited(t, c + d)
  {
    var e := SkipWs(s, c);
    assert s[c] == t[c + d];
    SkipWsShift(s, c, j, t, d);
    assert s[e] == t[e + d];
    if s[e] == ',' {
      SkipWsShift(s, e + 1, j, t, d);
    }
  }

  lemma {:induction false} ValueShift(s: string, i: nat, t: string, d: int)
    requires i <= |s| && Value(s, i).At? && Same(s, i, Value(s, i).next, t, d)
    requires s[i] in {'{', '[', '\"'} || Delimited(t, Value(s, i).next + d)
    ensures Value(t, i + d) == At(Value(s, i).value, Value(s, i).next + d)
    decreases |s| - i, 0
  {
    hide StringBody, Members, Elements, Number, Literal, SkipWs;
    var j := Value(s, i).next;
    assert s[i] == t[i + d];
    if s[i] == '\"' {
      StringBodyShift(s, i + 1, t, d);
    } else if s[i] == '{' || s[i] == '[' {
      var a := SkipWs(s, i + 1);
      SkipWsShift(s, i + 1, j, t, d);
      assert s[a] == t[a + d];
      if s[i] == '{' && s[a] != '}' {
        MembersShift(s, a, t, d);
      } else if s[i] == '[' && s[a] != ']' {
        ElementsShift(s, a, t, d);
      }
    } else if Literal(s, i).At? {
      LiteralShift(s, i, t, d);
    } else {
      NumberShift(s, i, t, d);
      NotLiteral(t, i + d);
    }
  }

  lemma {:induction false} MembersShift(s: string, i: nat, t: string, d: int)
    requires i <= |s| && Members(s, i).At? && Same(s, i, Members(s, i).next, t, d)
    ensures Members(t, i + d) == At(Members(s, i).value, Members(s, i).next + d)
    decreases |s| - i, 1
  {
    hide Name, Value, Elements, AfterItem, Delimited;
    var j := Members(s, i).next;
    var b := Name(s, i).next;
    var c := Value(s, b).next;
    var after := AfterItem(s, c, '}');
    NameShift(s, i, j, t, d);
    AfterItemShift(s, c, '}', j, t, d);
    ValueShift(s, b, t, d);
    if after.value {
      MembersShift(s, after.next, t, d);
    }
  }

  lemma {:induction false} ElementsShift(s: string, i: nat, t: string, d: int)
    requires i <= |s| && Elements(s, i).At? && Same(s, i, Elements(s, i).next, t, d)
    ensures Elements(t, i + d) == At(Elements(s, i).value, Elements(s, i).next + d)
    decreases |s| - i, 1
  {
    hide Name, Value, Members, AfterItem, Delimited;
    var j := Elements(s, i).next;
    var c := Value(s, i).next;
    var after := AfterItem(s, c, ']');
    AfterItemShift(s, c, ']', j, t, d);
    ValueShift(s, i, t, d);
    if after.value {
      ElementsShift(s, after.next, t, d);
    }
  }

  /** An object text decodes to its object wherever it stands. */
  lemma ObjectAnywhere(s: string, k: nat, o: string)
    requires IsObjectText(o) && OccursAt(s, k, o)
    ensures Value(s, k) == At(ObjectOf(o), k + |o|)
  {
    forall m {:trigger o[m]} | 0 <= m < |o| ensures o[m] == s[m + k] {
      assert s[k..k + |o|][m] == s[m + k];
    }
    ValueShift(o, 0, s, k);
  }
}
