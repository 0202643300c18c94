/** The decoder accepts nothing but spellings: what it reads as a value is one of the ways to
    write that value. With the other direction, decoding and spelling are the same relation. */
module JsonGrammar {
  import opened PyText
  import opened Json
  import opened JsonSpelling
  import opened JsonRoundTrip

  /** `t` is a way to write the value. */
  ghost predicate Spells(t: string, v: Json) {
    exists w :: Valid(w) && Text(w) == t && Meaning(w) == v
  }

  /** `t` stands in `s` from `i` to `j`. */
  predicate Stands(s: string, i: nat, j: nat, t: string) {
    OccursAt(s, i, t) && j == i + |t|
  }

  lemma SliceStands(s: string, i: nat, j: nat)
    requires i <= j <= |s|
    ensures Stands(s, i, j, s[i..j])
  {
  }

  lemma StandsAppend(s: string, i: nat, j: nat, k: nat, t: string, u: string)
    requires Stands(s, i, j, t) && Stands(s, j, k, u)
    ensures Stands(s, i, k, t + u)
  {
    OccursAtSplit(s, i, t, u);
  }

  lemma SpaceStands(s: string, i: nat)
    requires i <= |s|
    ensures var t := s[i..SkipWs(s, i)]; AllWs(t) && Stands(s, i, SkipWs(s, i), t)
  {
  }

  // ---------------------------------------------------------------------------------------
  // Numbers and names

  lemma {:induction false} PrintOfDigits(t: string)
    requires t != "" && AllDigits(t) && (|t| > 1 ==> t[0] != '0')
    ensures PrintNat(DigitsValue(t)) == t && (t[0] != '0' ==> DigitsValue(t) > 0)
  {
    var front, last := t[..|t| - 1], t[|t| - 1];
    assert t == front + [last];
    if |t| > 1 {
      PrintOfDigits(front);
      assert DigitsValue(t) / 10 == DigitsValue(front) && DigitsValue(t) % 10 == DigitValue(last);
    } else {
      assert front == "";
    }
  }

  lemma IntWritten(t: string)
    requires IntEnd(t, 0) == Some(|t|)
    ensures ScalarText(t, Int(IntValue(t)))
  {
    var d := if t[0] == '-' then 1 else 0;
    var digits := t[d..];
    assert t[d] == digits[0];
    assert forall k :: 0 <= k < |digits| ==> digits[k] == t[k + d];
    PrintOfDigits(digits);
    if d == 1 {
      assert t == "-" + digits;
    } else {
      assert t == digits;
    }
  }

  /** Where the parts of a float are. */
  lemma FloatWritten(s: string, i: nat)
    requires i <= |s| && Number(s, i).At? && Number(s, i).value.Float?
    ensures FloatText(s[i..Number(s, i).next]) && Number(s, i).value == Float(s[i..Number(s, i).next])
  {
    hide SkipDigits, IntEnd, FracEnd, ExpEnd;
    var j := IntEnd(s, i).value;
    var f := FracEnd(s, j);
    var e := ExpEnd(s, f);
    var d := if s[i] == '-' then i + 1 else i;
    WholeWritten(s, i, d, j);
    FractionWritten(s, j, f);
    ExponentWritten(s, f, e);
    assert s[i..e] == s[i..d] + s[d..j] + s[j..f] + s[f..e];
    PartsWritten(NumberParts(s[i] == '-', s[d..j], s[j..f], s[f..e]), s[i..e]);
  }

  lemma PartsWritten(p: NumberParts, t: string)
    requires IsWhole(p.whole) && IsFraction(p.fraction) && IsExponent(p.exponent) && (p.fraction != "" || p.exponent != "")
    requires t == (if p.minus then "-" else "") + p.whole + p.fraction + p.exponent
    ensures FloatText(t)
  {
    assert p.Valid() && p.Text() == t;
  }

  predicate IsFraction(t: string) { t != "" ==> |t| > 1 && t[0] == '.' && AllDigits(t[1..]) }

  predicate IsExponent(t: string) {
    t != "" ==>
      t[0] in {'e', 'E'}
      && var d := if |t| > 1 && t[1] in {'+', '-'} then 2 else 1;
         |t| > d && AllDigits(t[d..])
  }

  predicate IsWhole(t: string) { t != "" && AllDigits(t) && (|t| > 1 ==> t[0] != '0') }

  lemma WholeWritten(s: string, i: nat, d: nat, j: nat)
    requires i <= |s| && IntEnd(s, i) == Some(j) && d == (if i < |s| && s[i] == '-' then i + 1 else i)
    ensures d < j && IsWhole(s[d..j]) && s[i..d] == if s[i] == '-' then "-" else ""
  {
    assert s[d..j][0] == s[d];
  }

  lemma FractionWritten(s: string, j: nat, f: nat)
    requires j <= |s| && FracEnd(s, j) == f
    ensures IsFraction(s[j..f])
  {
    if f > j {
      assert s[j..f][1..] == s[j + 1..f];
      assert IsDigit(s[j + 1]) && f > j + 1;
    }
  }

  lemma ExponentWritten(s: string, f: nat, e: nat)
    requires f <= |s| && ExpEnd(s, f) == e
    ensures IsExponent(s[f..e])
  {
    if e > f {
      var t := s[f..e];
      var g := if f + 1 < |s| && (s[f + 1] == '+' || s[f + 1] == '-') then f + 2 else f + 1;
      assert g < e && t[0] == s[f] && t[1] == s[f + 1];
      assert t[g - f..] == s[g..e];
    }
  }

  lemma NumberWritten(s: string, i: nat)
    requires i <= |s| && Number(s, i).At?
    ensures ScalarText(s[i..Number(s, i).next], Number(s, i).value)
  {
    if Number(s, i).value.Float? {
      FloatWritten(s, i);
    } else {
      IntWritten(s[i..Number(s, i).next]);
    }
  }

  lemma LiteralWritten(s: string, i: nat)
    requires i <= |s| && Literal(s, i).At?
    ensures ScalarText(s[i..Literal(s, i).next], Literal(s, i).value)
  {
  }

  // ---------------------------------------------------------------------------------------
  // Strings

  lemma UnicodeWritten(s: string, i: nat)
    requires i + 2 <= |s| && s[i] == '\\' && s[i + 1] == 'u' && UnicodeEscape(s, i + 2).At?
    ensures Glyph(s[i..UnicodeEscape(s, i + 2).next], UnicodeEscape(s, i + 2).value)
    ensures UnicodeEscape(s, i + 2).next == i + 6 ==> !(High(s[i..i + 6]) && LowAt(s, i + 6))
  {
    hide Hex4, Unit;
    var n := Hex4(s, i + 2).value;
    var c, j := UnicodeEscape(s, i + 2).value, UnicodeEscape(s, i + 2).next;
    UnitWritten(s, i, n);
    if j == i + 12 {
      var lo := Hex4(s, i + 8).value;
      UnitWritten(s, i + 6, lo);
      assert s[i..j][..6] == s[i..i + 6] && s[i..j][6..] == s[i + 6..i + 12];
      assert Pair(s[i..j], c);
    } else {
      if 0xD800 <= n < 0xE000 {
        assert High(s[i..j]) || Low(s[i..j]);
      } else {
        assert Unit(s[i..j], c as int);
      }
      if High(s[i..j]) && LowAt(s, i + 6) {
        var hi :| Unit(s[i..j], hi) && 0xD800 <= hi <= 0xDBFF;
        var lo :| Unit(s[i + 6..i + 12], lo) && 0xDC00 <= lo <= 0xDFFF;
        SliceStands(s, i, j);
        SliceStands(s, i + 6, i + 12);
        UnitRead(s, i, s[i..j], hi);
        UnitRead(s, i + 6, s[i + 6..i + 12], lo);
      }
    }
  }

  lemma ItemWritten(s: string, i: nat)
    requires i < |s| && s[i] != '\"' && StringItem(s, i).At?
    ensures Glyph(s[i..StringItem(s, i).next], StringItem(s, i).value)
    ensures High(s[i..StringItem(s, i).next]) ==> !LowAt(s, StringItem(s, i).next)
  {
    hide Hex4, High, Low, LowAt, Pair, Unit, UnicodeEscape;
    var j := StringItem(s, i).next;
    if s[i] == '\\' && s[i + 1] == 'u' {
      UnicodeWritten(s, i);
      if High(s[i..j]) {
        HighIsSix(s[i..j]);
      }
    } else {
      PlainItemWritten(s, i);
      if High(s[i..j]) {
        HighIsSix(s[i..j]);
      }
    }
  }

  lemma PlainItemWritten(s: string, i: nat)
    requires i < |s| && s[i] != '\"' && StringItem(s, i).At? && !(s[i] == '\\' && s[i + 1] == 'u')
    ensures Glyph(s[i..StringItem(s, i).next], StringItem(s, i).value) && StringItem(s, i).next <= i + 2
  {
    hide High, Low, Pair, Unit;
    var t, c := s[i..StringItem(s, i).next], StringItem(s, i).value;
    if s[i] == '\\' {
      assert |t| == 2 && t[0] == '\\' && t[1] == s[i + 1] && Letter(t[1], c);
    } else {
      assert t == [c];
    }
  }

  lemma {:induction false} BodyWritten(s: string, i: nat) returns (glyphs: seq<string>)
    requires i <= |s| && StringBody(s, i).At?
    ensures Glyphs(glyphs, StringBody(s, i).value) && Stands(s, i, StringBody(s, i).next, Concat(glyphs) + "\"")
    decreases |s| - i
  {
    hide StringItem, Glyph, High, Low, LowAt, OccursAt;
    var text, k := StringBody(s, i).value, StringBody(s, i).next;
    if s[i] == '\"' {
      glyphs := [];
      SliceStands(s, i, i + 1);
      assert s[i..i + 1] == "" + "\"";
    } else {
      var j := StringItem(s, i).next;
      var rest := BodyWritten(s, j);
      var g := s[i..j];
      ItemWritten(s, i);
      glyphs := [g] + rest;
      SliceStands(s, i, j);
      StandsAppend(s, i, j, k, g, Concat(rest) + "\"");
      assert glyphs[1..] == rest;
      assert g + (Concat(rest) + "\"") == Concat(glyphs) + "\"";
      GlyphsCons(s, i, j, rest, text[1..], text[0], k);
    }
  }

  /** A glyph that the decoder took alone makes no pair with the one behind it. */
  lemma GlyphsCons(s: string, i: nat, j: nat, rest: seq<string>, text: string, c: char, k: nat)
    requires i <= j <= |s| && Glyph(s[i..j], c) && (High(s[i..j]) ==> !LowAt(s, j))
    requires Glyphs(rest, text) && Stands(s, j, k, Concat(rest) + "\"")
    ensures Glyphs([s[i..j]] + rest, [c] + text)
  {
    hide Glyph, High, Unit;
    var g, glyphs, all := s[i..j], [s[i..j]] + rest, [c] + text;
    if text != "" && High(g) && Low(rest[0]) {
      OccursAtSplit(s, j, Concat(rest), "\"");
      OccursAtSplit(s, j, rest[0], Concat(rest[1..]));
      var n :| Unit(rest[0], n) && 0xDC00 <= n <= 0xDFFF;
      UnitLength(rest[0], n);
      assert s[j..j + 6] == rest[0];
    }
    hide Low;
    forall m | 0 < m < |all| ensures !(High(glyphs[m - 1]) && Low(glyphs[m])) {
      if m > 1 {
        assert glyphs[m - 1] == rest[m - 2] && glyphs[m] == rest[m - 1];
      }
    }
  }

  lemma QuotedWritten(s: string, i: nat) returns (glyphs: seq<string>)
    requires i < |s| && s[i] == '\"' && StringBody(s, i + 1).At?
    ensures Glyphs(glyphs, StringBody(s, i + 1).value) && Stands(s, i, StringBody(s, i + 1).next, QuotedText(glyphs))
  {
    hide OccursAt;
    glyphs := BodyWritten(s, i + 1);
    SliceStands(s, i, i + 1);
    assert s[i..i + 1] == "\"";
    StandsAppend(s, i, i + 1, StringBody(s, i + 1).next, "\"", Concat(glyphs) + "\"");
  }

  // ---------------------------------------------------------------------------------------
  // Values

  lemma {:induction false} DecodedIsWritten(s: string, i: nat) returns (w: Written)
    requires i <= |s| && Value(s, i).At?
    ensures Valid(w) && Meaning(w) == Value(s, i).value && Stands(s, i, Value(s, i).next, Text(w))
    decreases |s| - i, 0
  {
    hide StringBody, Members, Elements, Number, Literal, SkipWs, OccursAt, Glyphs, ScalarText;
    var j := Value(s, i).next;
    SliceStands(s, i, j);
    if s[i] == '\"' {
      var glyphs := QuotedWritten(s, i);
      w := Quoted(glyphs, StringBody(s, i + 1).value);
    } else if s[i] == '{' {
      w := ObjectWritten(s, i);
    } else if s[i] == '[' {
      w := ListWritten(s, i);
    } else if Literal(s, i).At? {
      LiteralWritten(s, i);
      w := Scalar(s[i..j], Value(s, i).value);
    } else {
      NumberWritten(s, i);
      w := Scalar(s[i..j], Value(s, i).value);
    }
  }

  lemma {:induction false} ListWritten(s: string, i: nat) returns (w: Written)
    requires i < |s| && s[i] == '[' && Value(s, i).At?
    ensures Valid(w) && Meaning(w) == Value(s, i).value && Stands(s, i, Value(s, i).next, Text(w))
    decreases |s| - i - 1, 2
  {
    hide StringBody, Members, Elements, Number, Literal, SkipWs, OccursAt, AllWs;
    var a, j := SkipWs(s, i + 1), Value(s, i).next;
    var gap := s[i + 1..a];
    SpaceStands(s, i + 1);
    SliceStands(s, i, i + 1);
    assert s[i..i + 1] == "[";
    if s[a] == ']' {
      w := Listed(gap, []);
      SliceStands(s, a, a + 1);
      assert s[a..a + 1] == "]";
      StandsAppend(s, i + 1, a, a + 1, gap, "]");
      StandsAppend(s, i, i + 1, j, "[", gap + "]");
    } else {
      var items := ItemsWritten(s, i + 1);
      w := Listed("", items);
      assert AllWs("") by { NoSpace(); }
      assert Meaning(w) == Arr(Values(items));
      StandsAppend(s, i, i + 1, j, "[", ItemsText(items));
    }
  }

  lemma NoSpace()
    ensures AllWs("")
  {
  }

  /** An element, and the bracket or the elements behind it. */
  lemma ElementsParts(s: string, j: nat)
    requires j <= |s| && Elements(s, j).At?
    ensures Value(s, j).At?
    ensures var v := Value(s, j);
      var e := SkipWs(s, v.next);
      && j <= e < |s|
      && if s[e] == ']' then Elements(s, j) == At([v.value], e + 1)
         else
           s[e] == ',' && Elements(s, SkipWs(s, e + 1)).At?
           && Elements(s, j) == At([v.value] + Elements(s, SkipWs(s, e + 1)).value, Elements(s, SkipWs(s, e + 1)).next)
  {
    hide Value, SkipWs;
  }

  lemma MembersParts(s: string, j: nat)
    requires j <= |s| && Members(s, j).At?
    ensures Name(s, j).At? && Value(s, Name(s, j).next).At?
    ensures var v := Value(s, Name(s, j).next);
      var e := SkipWs(s, v.next);
      && j <= e < |s|
      && if s[e] == '}' then Members(s, j) == At([(Name(s, j).value, v.value)], e + 1)
         else
           s[e] == ',' && Members(s, SkipWs(s, e + 1)).At?
           && Members(s, j)
             == At([(Name(s, j).value, v.value)] + Members(s, SkipWs(s, e + 1)).value, Members(s, SkipWs(s, e + 1)).next)
  {
    hide Value, SkipWs, Name;
  }

  lemma {:induction false} ItemsWritten(s: string, i: nat) returns (items: seq<Item>)
    requires i <= |s| && Elements(s, SkipWs(s, i)).At?
    ensures items != [] && Values(items) == Elements(s, SkipWs(s, i)).value
    ensures forall k :: 0 <= k < |items| ==> AllWs(items[k].before) && Valid(items[k].w) && AllWs(items[k].after)
    ensures Stands(s, i, Elements(s, SkipWs(s, i)).next, ItemsText(items))
    decreases |s| - i, 1
  {
    hide Value, SkipWs, Stands, AllWs, Meaning, Valid, Text, Elements;
    var j, k := SkipWs(s, i), Elements(s, SkipWs(s, i)).next;
    ElementsParts(s, j);
    var w := DecodedIsWritten(s, j);
    var d := Value(s, j).next;
    var e := SkipWs(s, d);
    SpaceStands(s, i);
    SpaceStands(s, d);
    var item := Item(s[i..j], w, s[d..e]);
    var rest, tail := "]", [];
    SliceStands(s, e, e + 1);
    assert s[e..e + 1] == [s[e]];
    if s[e] != ']' {
      tail := ItemsWritten(s, e + 1);
      rest := "," + ItemsText(tail);
      StandsAppend(s, e, e + 1, k, ",", ItemsText(tail));
    }
    items := [item] + tail;
    assert items[1..] == tail;
    assert Values(items) == [Meaning(w)] + Values(tail);
    FourStand(s, i, j, d, e, k, item.before, Text(w), item.after, rest);
  }

  lemma FourStand(s: string, i: nat, j: nat, d: nat, e: nat, k: nat, a: string, b: string, c: string, rest: string)
    requires Stands(s, i, j, a) && Stands(s, j, d, b) && Stands(s, d, e, c) && Stands(s, e, k, rest)
    ensures Stands(s, i, k, a + (b + (c + rest)))
  {
    hide Stands;
    StandsAppend(s, d, e, k, c, rest);
    StandsAppend(s, j, d, k, b, c + rest);
    StandsAppend(s, i, j, k, a, b + (c + rest));
  }

  lemma {:induction false} ObjectWritten(s: string, i: nat) returns (w: Written)
    requires i < |s| && s[i] == '{' && Value(s, i).At?
    ensures w.Braced? && Valid(w) && Meaning(w) == Value(s, i).value && Stands(s, i, Value(s, i).next, Text(w))
    decreases |s| - i - 1, 2
  {
    hide StringBody, Members, Elements, Number, Literal, SkipWs, OccursAt, AllWs, NameValid;
    var a, j := SkipWs(s, i + 1), Value(s, i).next;
    var gap := s[i + 1..a];
    SpaceStands(s, i + 1);
    SliceStands(s, i, i + 1);
    assert s[i..i + 1] == "{";
    if s[a] == '}' {
      w := Braced(gap, []);
      SliceStands(s, a, a + 1);
      assert s[a..a + 1] == "}";
      StandsAppend(s, i + 1, a, a + 1, gap, "}");
      StandsAppend(s, i, i + 1, j, "{", gap + "}");
    } else {
      var members := MembersWritten(s, i + 1);
      w := Braced("", members);
      assert AllWs("") by { NoSpace(); }
      assert Meaning(w) == Obj(Pairs(members));
      StandsAppend(s, i, i + 1, j, "{", MembersText(members));
    }
  }

  lemma NameWritten(s: string, i: nat) returns (glyphs: seq<string>, colon: string, gap: string)
    requires i <= |s| && Name(s, i).At?
    ensures Glyphs(glyphs, Name(s, i).value) && AllWs(colon) && AllWs(gap)
    ensures Stands(s, i, Name(s, i).next, QuotedText(glyphs) + (colon + (":" + gap)))
  {
    hide StringBody, SkipWs, OccursAt, AllWs, QuotedText, Glyphs;
    glyphs := QuotedWritten(s, i);
    var a := StringBody(s, i + 1).next;
    var b, v := SkipWs(s, a), Name(s, i).next;
    SpaceStands(s, a);
    SpaceStands(s, b + 1);
    SliceStands(s, b, b + 1);
    assert s[b..b + 1] == ":";
    colon, gap := s[a..b], s[b + 1..v];
    StandsAppend(s, b, b + 1, v, ":", gap);
    StandsAppend(s, a, b, v, colon, ":" + gap);
    StandsAppend(s, i, a, v, QuotedText(glyphs), colon + (":" + gap));
  }

  lemma {:induction false} MembersWritten(s: string, i: nat) returns (members: seq<Member>)
    requires i <= |s| && Members(s, SkipWs(s, i)).At?
    ensures members != [] && Pairs(members) == Members(s, SkipWs(s, i)).value
    ensures forall k :: 0 <= k < |members| ==> NameValid(members[k]) && Valid(members[k].w) && AllWs(members[k].after)
    ensures Stands(s, i, Members(s, SkipWs(s, i)).next, MembersText(members))
    decreases |s| - i, 1
  {
    hide Value, Name, SkipWs, Stands, AllWs, Meaning, Valid, Text, NameValid, MemberText, QuotedText, Glyphs, Members;
    var j, k := SkipWs(s, i), Members(s, SkipWs(s, i)).next;
    MembersParts(s, j);
    var glyphs, colon, gap := NameWritten(s, j);
    var v := Name(s, j).next;
    var w := DecodedIsWritten(s, v);
    var d := Value(s, v).next;
    var e := SkipWs(s, d);
    SpaceStands(s, i);
    SpaceStands(s, d);
    var m := Member(s[i..j], glyphs, Name(s, j).value, colon, gap, w, s[d..e]);
    assert NameValid(m) by { NameIsValid(m); }
    var rest, tail := "}", [];
    SliceStands(s, e, e + 1);
    assert s[e..e + 1] == [s[e]];
    if s[e] != '}' {
      tail := MembersWritten(s, e + 1);
      rest := "," + MembersText(tail);
      StandsAppend(s, e, e + 1, k, ",", MembersText(tail));
    }
    members := [m] + tail;
    assert members[1..] == tail;
    assert Pairs(members) == [(m.name, Meaning(w))] + Pairs(tail);
    StandsAppend(s, j, v, d, QuotedText(glyphs) + (colon + (":" + gap)), Text(w));
    MemberGroups(m);
    FourStand(s, i, j, d, e, k, m.before, MemberText(m), m.after, rest);
  }

  lemma NameIsValid(m: Member)
    requires AllWs(m.before) && Glyphs(m.glyphs, m.name) && AllWs(m.colon) && AllWs(m.gap)
    ensures NameValid(m)
  {
  }

  lemma MemberGroups(m: Member)
    ensures QuotedText(m.glyphs) + (m.colon + (":" + m.gap)) + Text(m.w) == MemberText(m)
  {
    hide QuotedText, Text;
  }

  // ---------------------------------------------------------------------------------------
  // Decoding is reading a spelling

  /** The decoder takes a text for a value exactly if the text is a spelling of it. */
  lemma DecodesExactly(t: string, v: Json)
    ensures Value(t, 0) == At(v, |t|) <==> Spells(t, v)
  {
    if Value(t, 0) == At(v, |t|) {
      var w := DecodedIsWritten(t, 0);
      assert t[0..|t|] == t;
    }
    if Spells(t, v) {
      var w :| Valid(w) && Text(w) == t && Meaning(w) == v;
      WrittenDecodes(w);
    }
  }

  /** A text is an object text exactly if it is a spelling of that object. */
  lemma ObjectTextExactly(t: string, v: Json)
    ensures IsObjectText(t) && ObjectOf(t) == v <==> v.Obj? && Spells(t, v)
  {
    hide Value, Valid, Text, Meaning;
    DecodesExactly(t, v);
    if v.Obj? && Spells(t, v) {
      var w :| Valid(w) && Text(w) == t && Meaning(w) == v;
      MeansObject(w);
      WrittenObject(w);
    }
    if IsObjectText(t) && ObjectOf(t) == v {
      ObjectTextIsObject(t);
    }
  }

  lemma MeansObject(w: Written)
    requires Valid(w) && Meaning(w).Obj?
    ensures w.Braced?
  {
  }

  lemma ObjectTextIsObject(t: string)
    requires IsObjectText(t)
    ensures ObjectOf(t).Obj?
  {
  }

  /** A spelling with JSON whitespace around it. */
  ghost predicate Document(s: string, v: Json) {
    exists before, t, after :: s == before + (t + after) && AllWs(before) && AllWs(after) && Spells(t, v)
  }

  lemma LoadedIsDocument(s: string, v: Json)
    requires Loads(s) == Some(v)
    ensures Document(s, v)
  {
    hide Valid, Text, Meaning, Value;
    var i := SkipWs(s, 0);
    var w := DecodedIsWritten(s, i);
    var j := Value(s, i).next;
    assert Text(w) == s[i..j];
    assert Spells(s[i..j], v);
    hide Spells;
    assert AllWs(s[..i]) && AllWs(s[j..]);
    hide AllWs, Loads;
    assert s == s[..i] + (s[i..j] + s[j..]);
  }

  /** `json.loads` gives a value exactly if the text is a document of it, and fails on every other
      text. */
  lemma LoadsExactly(s: string, v: Json)
    ensures Loads(s) == Some(v) <==> Document(s, v)
  {
    hide Loads, Valid, Text, Meaning, AllWs;
    if Loads(s) == Some(v) {
      LoadedIsDocument(s, v);
    }
    if Document(s, v) {
      var before, t, after :| s == before + (t + after) && AllWs(before) && AllWs(after) && Spells(t, v);
      var w :| Valid(w) && Text(w) == t && Meaning(w) == v;
      LoadsOfWritten(before, w, after);
      assert before + t + after == s;
    }
  }
}
