/** The string-aware bracket counter that the hand-written scanners share, and how it runs over
    decodable JSON. */
module Lexing {
  import opened PyText
  import opened Json

  /** Which brackets a scanner counts: the object extractor only braces, the row reframer
      square brackets too. */
  datatype Brackets = Curly | CurlyAndSquare

  datatype Lex = Lex(inString: bool, escape: bool, depth: nat) {
    predicate Outside() { !inString && !escape }
  }

  const START := Lex(false, false, 0)

  predicate Opens(m: Brackets, c: char) { c == '{' || (m == CurlyAndSquare && c == '[') }

  predicate Closes(m: Brackets, c: char) { c == '}' || (m == CurlyAndSquare && c == ']') }

  function Step(m: Brackets, st: Lex, c: char): Lex {
    if st.inString then
      if st.escape then st.(escape := false)
      else if c == '\\' then st.(escape := true)
      else if c == '\"' then st.(inString := false)
      else st
    else if c == '\"' then st.(inString := true)
    else if Opens(m, c) then st.(depth := st.depth + 1)
    else if Closes(m, c) && st.depth > 0 then st.(depth := st.depth - 1)
    else st
  }

  /** The counter after reading `s[i..j]` from `st`. */
  function Run(m: Brackets, s: string, i: nat, j: nat, st: Lex): Lex
    requires i <= j <= |s|
    decreases j - i
  {
    if i == j then st else Run(m, s, i + 1, j, Step(m, st, s[i]))
  }

  /** The scanner takes the character as it stands: to the reframer a newline inside a string is
      a defect, the extractor takes everything. */
  predicate Takes(m: Brackets, st: Lex, c: char) {
    m == CurlyAndSquare && st.inString ==> c != '\n'
  }

  /** While reading `s[i..j]`, every character is taken as it stands and the depth never falls
      below `d`. */
  predicate Above(m: Brackets, s: string, i: nat, j: nat, st: Lex, d: nat)
    requires i <= j <= |s|
    decreases j - i
  {
    i < j ==> Takes(m, st, s[i]) && Step(m, st, s[i]).depth >= d && Above(m, s, i + 1, j, Step(m, st, s[i]), d)
  }

  /** Reading `s[i..j]` from `st` ends in `to` without falling below the depth of `st`. */
  predicate Moves(m: Brackets, s: string, i: nat, j: nat, st: Lex, to: Lex)
    requires i <= j <= |s|
  {
    Run(m, s, i, j, st) == to && Above(m, s, i, j, st, st.depth)
  }

  lemma {:induction false} RunSplit(m: Brackets, s: string, i: nat, j: nat, k: nat, st: Lex, d: nat)
    requires i <= j <= k <= |s|
    ensures Run(m, s, i, k, st) == Run(m, s, j, k, Run(m, s, i, j, st))
    ensures Above(m, s, i, k, st, d) <==> Above(m, s, i, j, st, d) && Above(m, s, j, k, Run(m, s, i, j, st), d)
    decreases j - i
  {
    if i < j {
      RunSplit(m, s, i + 1, j, k, Step(m, st, s[i]), d);
    }
  }

  lemma {:induction false} AboveLower(m: Brackets, s: string, i: nat, j: nat, st: Lex, d: nat, e: nat)
    requires i <= j <= |s| && e <= d && Above(m, s, i, j, st, d)
    ensures Above(m, s, i, j, st, e)
    decreases j - i
  {
    if i < j {
      AboveLower(m, s, i + 1, j, Step(m, st, s[i]), d, e);
    }
  }

  /** Two stretches in a row; the second may start deeper than the first. */
  lemma MovesTrans(m: Brackets, s: string, i: nat, j: nat, k: nat, a: Lex, b: Lex, c: Lex)
    requires i <= j <= k <= |s| && a.depth <= b.depth
    requires Moves(m, s, i, j, a, b) && Moves(m, s, j, k, b, c)
    ensures Moves(m, s, i, k, a, c)
  {
    AboveLower(m, s, j, k, b, b.depth, a.depth);
    RunSplit(m, s, i, j, k, a, a.depth);
  }

  /** Two texts that agree on a stretch move the counter alike. */
  lemma {:induction false} RunAgree(m: Brackets, s: string, i: nat, t: string, k: nat, n: nat, st: Lex, d: nat)
    requires i + n <= |s| && k + n <= |t| && s[i..i + n] == t[k..k + n]
    ensures Run(m, s, i, i + n, st) == Run(m, t, k, k + n, st)
    ensures Above(m, s, i, i + n, st, d) <==> Above(m, t, k, k + n, st, d)
    decreases n
  {
    if n > 0 {
      assert s[i] == s[i..i + n][0] && t[k] == t[k..k + n][0];
      assert s[i + 1..i + n] == s[i..i + n][1..] && t[k + 1..k + n] == t[k..k + n][1..];
      RunAgree(m, s, i + 1, t, k + 1, n - 1, Step(m, st, s[i]), d);
    }
  }

  /** A character that means nothing to the counter, inside or outside a string. */
  predicate Plain(c: char) {
    c !in {'\"', '\\', '{', '}', '[', ']'}
  }

  lemma {:induction false} PlainStays(m: Brackets, s: string, i: nat, j: nat, st: Lex)
    requires i <= j <= |s| && !st.escape && forall k :: i <= k < j ==> Plain(s[k]) && Takes(m, st, s[k])
    ensures Moves(m, s, i, j, st, st)
    decreases j - i
  {
    if i < j {
      PlainStays(m, s, i + 1, j, st);
    }
  }

  lemma WsStays(m: Brackets, s: string, i: nat, st: Lex)
    requires i <= |s| && st.Outside()
    ensures Moves(m, s, i, SkipWs(s, i), st, st)
  {
    PlainStays(m, s, i, SkipWs(s, i), st);
  }

  lemma StringItemStays(m: Brackets, s: string, i: nat, st: Lex)
    requires i < |s| && StringItem(s, i).At? && s[i] != '\"' && st.inString && !st.escape
    ensures Moves(m, s, i, StringItem(s, i).next, st, st)
  {
    var j := StringItem(s, i).next;
    if s[i] == '\\' {
      MovesTrans(m, s, i, i + 1, i + 2, st, st.(escape := true), st);
      if s[i + 1] == 'u' {
        HexStays(m, s, i + 2, st);
        MovesTrans(m, s, i, i + 2, i + 6, st, st, st);
        if j != i + 6 {
          MovesTrans(m, s, i + 6, i + 7, i + 8, st, st.(escape := true), st);
          HexStays(m, s, i + 8, st);
          MovesTrans(m, s, i + 6, i + 8, i + 12, st, st, st);
          MovesTrans(m, s, i, i + 6, i + 12, st, st, st);
        }
      }
    }
  }

  lemma HexStays(m: Brackets, s: string, i: nat, st: Lex)
    requires Hex4(s, i).Some? && !st.escape
    ensures Moves(m, s, i, i + 4, st, st)
  {
    PlainStays(m, s, i, i + 4, st);
  }

  lemma {:induction false} StringBodyCloses(m: Brackets, s: string, i: nat, d: nat)
    requires i <= |s| && StringBody(s, i).At?
    ensures Moves(m, s, i, StringBody(s, i).next, Lex(true, false, d), Lex(false, false, d))
    decreases |s| - i
  {
    var st := Lex(true, false, d);
    if s[i] == '\"' {
    } else {
      var j := StringItem(s, i).next;
      StringItemStays(m, s, i, st);
      StringBodyCloses(m, s, j, d);
      MovesTrans(m, s, i, j, StringBody(s, i).next, st, st, Lex(false, false, d));
    }
  }

  /** A quoted string, opening quote included, leaves the counter where it was. */
  lemma QuotedStays(m: Brackets, s: string, i: nat, st: Lex)
    requires i < |s| && s[i] == '\"' && StringBody(s, i + 1).At? && st.Outside()
    ensures Moves(m, s, i, StringBody(s, i + 1).next, st, st)
  {
    StringBodyCloses(m, s, i + 1, st.depth);
    MovesTrans(m, s, i, i + 1, StringBody(s, i + 1).next, st, st.(inString := true), st);
  }

  lemma NameStays(m: Brackets, s: string, i: nat, st: Lex)
    requires i <= |s| && Name(s, i).At? && st.Outside()
    ensures Moves(m, s, i, Name(s, i).next, st, st)
  {
    var a := StringBody(s, i + 1).next;
    var b := SkipWs(s, a);
    var c := SkipWs(s, b + 1);
    QuotedStays(m, s, i, st);
    WsStays(m, s, a, st);
    MovesTrans(m, s, i, a, b, st, st, st);
    MovesTrans(m, s, i, b, b + 1, st, st, st);
    WsStays(m, s, b + 1, st);
    MovesTrans(m, s, i, b + 1, c, st, st, st);
  }

  lemma LiteralPlain(s: string, i: nat)
    requires i <= |s| && Literal(s, i).At?
    ensures forall k :: i <= k < Literal(s, i).next ==> Plain(s[k])
  {
    var w := s[i..Literal(s, i).next];
    assert w in {"null", "true", "false", "NaN", "Infinity", "-Infinity"};
    assert forall k :: 0 <= k < |w| ==> Plain(w[k]);
    forall k | i <= k < Literal(s, i).next ensures Plain(s[k]) {
      assert w[k - i] == s[k];
    }
  }

  lemma NumberPlain(s: string, i: nat)
    requires i <= |s| && Number(s, i).At?
    ensures forall k :: i <= k < Number(s, i).next ==> Plain(s[k])
  {
  }

  /** What an opening bracket does: one deeper, until the matching close. */
  function Deeper(m: Brackets, c: char, st: Lex): Lex {
    if Opens(m, c) then st.(depth := st.depth + 1) else st
  }

  /** The last character of a bracketed value comes back up from the inside. */
  lemma CloseBracket(m: Brackets, s: string, i: nat, j: nat, open: char, st: Lex)
    requires i <= j < |s| && st.Outside() && open in {'{', '['} && s[j] == if open == '{' then '}' else ']'
    requires Moves(m, s, i, j, Deeper(m, open, st), Deeper(m, open, st))
    ensures Run(m, s, i, j + 1, Deeper(m, open, st)) == st
    ensures Above(m, s, i, j + 1, Deeper(m, open, st), st.depth)
  {
    var into := Deeper(m, open, st);
    assert Step(m, into, s[j]) == st;
    RunSplit(m, s, i, j, j + 1, into, into.depth);
    AboveLower(m, s, i, j, into, into.depth, st.depth);
    RunSplit(m, s, i, j, j + 1, into, st.depth);
    assert Run(m, s, j + 1, j + 1, st) == st;
    assert Above(m, s, j + 1, j + 1, st, st.depth);
  }

  /** From just after the opening bracket to just past the closing one: inside until the last
      character, then back at `st`. */
  predicate Finishes(m: Brackets, s: string, i: nat, k: nat, open: char, st: Lex)
    requires i <= k <= |s|
  {
    i < k && Moves(m, s, i, k - 1, Deeper(m, open, st), Deeper(m, open, st))
    && s[k - 1] == (if open == '{' then '}' else ']')
  }

  lemma FinishesLater(m: Brackets, s: string, i: nat, j: nat, k: nat, open: char, st: Lex)
    requires i <= j <= k <= |s| && Finishes(m, s, j, k, open, st)
    requires Moves(m, s, i, j, Deeper(m, open, st), Deeper(m, open, st))
    ensures Finishes(m, s, i, k, open, st)
  {
    var into := Deeper(m, open, st);
    MovesTrans(m, s, i, j, k - 1, into, into, into);
  }

  lemma WholeBracket(m: Brackets, s: string, i: nat, k: nat, st: Lex)
    requires i < k <= |s| && s[i] in {'{', '['} && st.Outside() && Finishes(m, s, i + 1, k, s[i], st)
    ensures Moves(m, s, i, k, st, st)
  {
    CloseBracket(m, s, i + 1, k - 1, s[i], st);
    assert Step(m, st, s[i]) == Deeper(m, s[i], st);
  }

  /** Any decodable value, whatever its spacing and escapes, returns the counter to its state
      and never takes it below its depth. */
  lemma {:induction false} ValueStays(m: Brackets, s: string, i: nat, st: Lex)
    requires i <= |s| && Value(s, i).At? && st.Outside()
    ensures Moves(m, s, i, Value(s, i).next, st, st)
    ensures s[i] in {'{', '['} ==> Finishes(m, s, i + 1, Value(s, i).next, s[i], st)
    decreases |s| - i, 0
  {
    if s[i] == '\"' {
      QuotedStays(m, s, i, st);
    } else if s[i] == '{' || s[i] == '[' {
      var into := Deeper(m, s[i], st);
      var j := SkipWs(s, i + 1);
      var k := Value(s, i).next;
      WsStays(m, s, i + 1, into);
      if !(j < |s| && s[j] == if s[i] == '{' then '}' else ']') {
        if s[i] == '{' {
          MembersFinish(m, s, j, st);
        } else {
          ElementsFinish(m, s, j, st);
        }
        FinishesLater(m, s, i + 1, j, k, s[i], st);
      }
      WholeBracket(m, s, i, k, st);
    } else if Literal(s, i).At? {
      LiteralPlain(s, i);
      PlainStays(m, s, i, Literal(s, i).next, st);
    } else {
      NumberPlain(s, i);
      PlainStays(m, s, i, Number(s, i).next, st);
    }
  }

  /** What follows an item: either one more item, or the closing bracket. */
  lemma AfterItemLex(m: Brackets, s: string, i: nat, c: nat, d: nat, open: char, st: Lex)
    requires i <= c <= d <= |s| && open in {'{', '['} && st.Outside()
    requires Moves(m, s, i, c, Deeper(m, open, st), Deeper(m, open, st))
    requires Moves(m, s, c, d, Deeper(m, open, st), Deeper(m, open, st))
    requires AfterItem(s, d, if open == '{' then '}' else ']').At?
    ensures var after := AfterItem(s, d, if open == '{' then '}' else ']');
      if after.value then Moves(m, s, i, after.next, Deeper(m, open, st), Deeper(m, open, st))
      else Finishes(m, s, i, after.next, open, st)
  {
    var into := Deeper(m, open, st);
    var e := SkipWs(s, d);
    MovesTrans(m, s, i, c, d, into, into, into);
    WsStays(m, s, d, into);
    MovesTrans(m, s, i, d, e, into, into, into);
    if s[e] == ',' {
      MovesTrans(m, s, i, e, e + 1, into, into, into);
      WsStays(m, s, e + 1, into);
      MovesTrans(m, s, i, e + 1, SkipWs(s, e + 1), into, into, into);
    }
  }

  lemma {:induction false} MembersFinish(m: Brackets, s: string, i: nat, st: Lex)
    requires i <= |s| && Members(s, i).At? && st.Outside()
    ensures Finishes(m, s, i, Members(s, i).next, '{', st)
    decreases |s| - i, 1
  {
    hide Name, Value, AfterItem, Moves, Finishes;
    var into := Deeper(m, '{', st);
    var c := Name(s, i).next;
    var d := Value(s, c).next;
    NameStays(m, s, i, into);
    ValueStays(m, s, c, into);
    AfterItemLex(m, s, i, c, d, '{', st);
    var after := AfterItem(s, d, '}');
    if after.value {
      MembersFinish(m, s, after.next, st);
      FinishesLater(m, s, i, after.next, Members(s, after.next).next, '{', st);
    }
  }

  lemma {:induction false} ElementsFinish(m: Brackets, s: string, i: nat, st: Lex)
    requires i <= |s| && Elements(s, i).At? && st.Outside()
    ensures Finishes(m, s, i, Elements(s, i).next, '[', st)
    decreases |s| - i, 1
  {
    hide Name, Value, AfterItem, Finishes;
    var into := Deeper(m, '[', st);
    var d := Value(s, i).next;
    ValueStays(m, s, i, into);
    assert Moves(m, s, i, i, into, into);
    AfterItemLex(m, s, i, i, d, '[', st);
    var after := AfterItem(s, d, ']');
    if after.value {
      ElementsFinish(m, s, after.next, st);
      FinishesLater(m, s, i, after.next, Elements(s, after.next).next, '[', st);
    }
  }

  /** How a decoded value ends: only an object ends with a closing brace, and no value ends
      with a space. */
  lemma ValueEnds(s: string, i: nat)
    requires i <= |s| && Value(s, i).At?
    ensures var last := s[Value(s, i).next - 1];
      (last == '}' <==> s[i] == '{') && !IsSpace(last)
  {
    ValueStays(CurlyAndSquare, s, i, START);
    if s[i] != '{' && s[i] != '[' && s[i] != '\"' {
      if Literal(s, i).At? {
        LiteralEnds(s, i);
      } else {
      }
    }
  }

  lemma LiteralEnds(s: string, i: nat)
    requires i <= |s| && Literal(s, i).At?
    ensures var last := s[Literal(s, i).next - 1]; last != '}' && !IsSpace(last)
  {
    var n := Literal(s, i).next;
    assert s[i..n][n - 1 - i] == s[n - 1];
  }

  /** An object text ends with its closing brace. */
  lemma ObjectEnds(o: string)
    requires IsObjectText(o)
    ensures o != "" && o[|o| - 1] == '}'
  {
    ValueEnds(o, 0);
  }
}
