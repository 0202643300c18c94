/** The decoder reads every spelling of a value as that value, and so it undoes the printer. */
module JsonRoundTrip {
  import opened PyText
  import opened Json
  import opened JsonFacts
  import opened JsonSpelling

  // ---------------------------------------------------------------------------------------
  // Numbers

  lemma {:induction false} PrintNatValue(n: nat)
    ensures DigitsValue(PrintNat(n)) == n
    ensures PrintNat(n)[0] == '0' ==> |PrintNat(n)| == 1
    ensures n > 0 ==> PrintNat(n)[0] != '0'
  {
    var t := PrintNat(n);
    if n < 10 {
      assert t[..0] == "";
      assert DigitsValue(t) == DigitsValue(t[..0]) * 10 + DigitValue(t[0]);
    } else {
      PrintNatValue(n / 10);
      assert t[..|t| - 1] == PrintNat(n / 10);
      assert DigitsValue(t) == DigitsValue(t[..|t| - 1]) * 10 + DigitValue(t[|t| - 1]);
    }
  }

  lemma PrintIntDecodes(n: int)
    ensures Number(PrintInt(n), 0) == At(Int(n), |PrintInt(n)|)
  {
    var t := PrintInt(n);
    var d := if n < 0 then 1 else 0;
    PrintNatValue(if n < 0 then -n else n);
    assert t[d..] == PrintNat(if n < 0 then -n else n);
    assert t[d] == t[d..][0] && IsDigit(t[d]);
    forall k | d <= k < |t| ensures IsDigit(t[k]) {
      assert t[k] == t[d..][k - d];
    }
    assert IntEnd(t, 0) == Some(|t|);
    assert t[0..|t|] == t;
  }

  lemma MinusZeroDecodes()
    ensures Number("-0", 0) == At(Int(0), 2)
  {
    var t := "-0";
    assert t[1..] == "0" && "0"[..0] == "" && t[0..2] == t;
    assert DigitsValue("0") == DigitsValue("0"[..0]) * 10 + DigitValue("0"[0]);
  }

  lemma {:induction false} DigitsEnd(s: string, i: nat, j: nat)
    requires i <= j <= |s| && (forall k :: i <= k < j ==> IsDigit(s[k])) && (j < |s| ==> !IsDigit(s[j]))
    ensures SkipDigits(s, i) == j
    decreases j - i
  {
    if i < j {
      DigitsEnd(s, i + 1, j);
    }
  }

  /** Where the parts of a number stand in its text: after the sign at `d`, up to `j` and `e`. */
  predicate Laid(t: string, p: NumberParts, d: nat, j: nat, e: nat) {
    && d == (if p.minus then 1 else 0) && j == d + |p.whole| && e == j + |p.fraction| && |t| == e + |p.exponent|
    && (p.minus ==> t[0] == '-')
    && (forall k :: d <= k < j ==> t[k] == p.whole[k - d])
    && (forall k :: j <= k < e ==> t[k] == p.fraction[k - j])
    && (forall k :: e <= k < |t| ==> t[k] == p.exponent[k - e])
  }

  lemma FloatDecodes(t: string)
    requires FloatText(t)
    ensures Number(t, 0) == At(Float(t), |t|)
  {
    var p: NumberParts :| p.Valid() && p.Text() == t && (p.fraction != "" || p.exponent != "");
    var d := if p.minus then 1 else 0;
    var j := d + |p.whole|;
    var e := j + |p.fraction|;
    PartsAreLaid(p);
    NumberEnds(t, p, d, j, e);
    hide Laid, IntEnd, FracEnd, ExpEnd;
    assert t[0..|t|] == t;
  }

  lemma PartsAreLaid(p: NumberParts)
    ensures var d := if p.minus then 1 else 0;
      Laid(p.Text(), p, d, d + |p.whole|, d + |p.whole| + |p.fraction|)
  {
  }

  /** The three parts end where the decoder says. */
  lemma NumberEnds(t: string, p: NumberParts, d: nat, j: nat, e: nat)
    requires p.Valid() && Laid(t, p, d, j, e)
    ensures IntEnd(t, 0) == Some(j) && FracEnd(t, j) == e && ExpEnd(t, e) == |t|
  {
    WholeEnds(t, p, d, j, e);
    FractionEnds(t, p, d, j, e);
    ExponentEnds(t, p, d, j, e);
  }

  lemma WholeEnds(t: string, p: NumberParts, d: nat, j: nat, e: nat)
    requires p.Valid() && Laid(t, p, d, j, e)
    ensures IntEnd(t, 0) == Some(j)
  {
    DigitsEnd(t, d, j);
  }

  lemma FractionEnds(t: string, p: NumberParts, d: nat, j: nat, e: nat)
    requires p.Valid() && Laid(t, p, d, j, e)
    ensures FracEnd(t, j) == e
  {
    if p.fraction != "" {
      assert forall k :: j < k < e ==> t[k] == p.fraction[1..][k - j - 1];
      DigitsEnd(t, j + 1, e);
    }
  }

  lemma ExponentEnds(t: string, p: NumberParts, d: nat, j: nat, e: nat)
    requires p.Valid() && Laid(t, p, d, j, e)
    ensures ExpEnd(t, e) == |t|
  {
    if p.exponent != "" {
      var g := if |p.exponent| > 1 && p.exponent[1] in {'+', '-'} then 2 else 1;
      assert forall k :: e + g <= k < |t| ==> t[k] == p.exponent[g..][k - e - g];
      assert t[e] == p.exponent[0] && t[e + 1] == p.exponent[1];
      DigitsEnd(t, e + g, |t|);
    }
  }

  lemma NamedFloat(token: string)
    requires token in {"NaN", "Infinity", "-Infinity"}
    ensures Value(token, 0) == At(Float(token), |token|)
  {
    LiteralFirst(token, 0);
    assert OccursAt(token, 0, token);
  }

  lemma NumberDecodes(token: string, v: Json)
    requires Number(token, 0) == At(v, |token|)
    ensures Value(token, 0) == At(v, |token|)
    ensures token[0] == '-' || IsDigit(token[0])
  {
    hide Literal, StringBody, Members, Elements, SkipWs, SkipDigits, FracEnd, ExpEnd, IntValue;
    NotLiteral(token, 0);
  }

  /** A scalar decodes to its value, and starts with a character that ends whitespace and closes
      nothing. */
  lemma PlainDecodes(t: string, v: Json)
    requires ScalarText(t, v)
    ensures t != "" && !IsWs(t[0]) && t[0] !in {']', '}'} && Value(t, 0) == At(v, |t|)
  {
    hide Value, Number, Literal, StringBody, Members, Elements, SkipWs, PrintInt, FloatText;
    match v {
      case Int(n) =>
        PrintIntDecodes(n);
        MinusZeroDecodes();
        NumberDecodes(t, v);
      case Float(token) =>
        if token in {"NaN", "Infinity", "-Infinity"} {
          NamedFloat(token);
        } else {
          FloatDecodes(t);
          NumberDecodes(t, v);
        }
      case Null => LiteralDecodes(t, v);
      case Bool(_) => LiteralDecodes(t, v);
      case _ =>
    }
  }

  lemma LiteralDecodes(t: string, v: Json)
    requires (v == Null && t == "null") || (v == Bool(true) && t == "true") || (v == Bool(false) && t == "false")
    ensures Value(t, 0) == At(v, |t|)
  {
    LiteralFirst(t, 0);
    assert OccursAt(t, 0, t);
  }

  // ---------------------------------------------------------------------------------------
  // Strings

  lemma HexValueExactly(c: char, v: nat)
    ensures HexValue(c) == Some(v) <==> HexDigit(c, v)
  {
  }

  lemma DigitsRead(s: string, i: nat, a: nat, b: nat, c: nat, d: nat)
    requires i + 4 <= |s| && HexDigit(s[i], a) && HexDigit(s[i + 1], b) && HexDigit(s[i + 2], c) && HexDigit(s[i + 3], d)
    ensures Hex4(s, i) == Some(a * 4096 + b * 256 + c * 16 + d)
  {
    HexValueExactly(s[i], a);
    HexValueExactly(s[i + 1], b);
    HexValueExactly(s[i + 2], c);
    HexValueExactly(s[i + 3], d);
    hide HexValue, HexDigit;
  }

  /** The four digits of a code unit escape. */
  lemma UnitRead(s: string, i: nat, t: string, n: int)
    requires OccursAt(s, i, t) && Unit(t, n)
    ensures i + 6 <= |s| && s[i] == '\\' && s[i + 1] == 'u' && Hex4(s, i + 2) == Some(n)
  {
    hide Hex4, HexDigit;
    var a: nat, b: nat, c: nat, d: nat :| HexDigit(t[2], a) && HexDigit(t[3], b) && HexDigit(t[4], c) && HexDigit(t[5], d)
      && n == a * 4096 + b * 256 + c * 16 + d;
    OccursInside(s, i, t);
    assert forall k :: 0 <= k < 6 ==> s[i..i + 6][k] == t[k];
    DigitsRead(s, i + 2, a, b, c, d);
  }

  /** A low surrogate is written at `j`. */
  ghost predicate LowAt(s: string, j: nat) {
    j + 6 <= |s| && Low(s[j..j + 6])
  }

  lemma LowRead(s: string, j: nat, n: nat)
    requires j + 6 <= |s| && s[j] == '\\' && s[j + 1] == 'u' && Hex4(s, j + 2) == Some(n) && 0xDC00 <= n < 0xE000
    ensures LowAt(s, j)
  {
    UnitWritten(s, j, n);
  }

  lemma UnitWritten(s: string, j: nat, n: nat)
    requires j + 6 <= |s| && s[j] == '\\' && s[j + 1] == 'u' && Hex4(s, j + 2) == Some(n)
    ensures Unit(s[j..j + 6], n)
  {
    var t := s[j..j + 6];
    var a, b, c, d := HexValue(t[2]).value, HexValue(t[3]).value, HexValue(t[4]).value, HexValue(t[5]).value;
    HexValueExactly(t[2], a);
    HexValueExactly(t[3], b);
    HexValueExactly(t[4], c);
    HexValueExactly(t[5], d);
    assert n == a * 4096 + b * 256 + c * 16 + d;
  }

  lemma PairRead(s: string, i: nat, t: string, c: char)
    requires OccursAt(s, i, t) && Pair(t, c)
    ensures i + 12 <= |s| && s[i] == '\\' && s[i + 1] == 'u' && UnicodeEscape(s, i + 2) == At(c, i + 12)
    ensures High(s[i..i + 6])
  {
    hide Hex4, Unit;
    var hi, lo :| Unit(t[..6], hi) && Unit(t[6..], lo) && 0xD800 <= hi <= 0xDBFF && 0xDC00 <= lo <= 0xDFFF
      && c as int == 0x1_0000 + (hi - 0xD800) * 0x400 + (lo - 0xDC00);
    assert t == t[..6] + t[6..];
    OccursAtSplit(s, i, t[..6], t[6..]);
    UnitRead(s, i, t[..6], hi);
    UnitRead(s, i + 6, t[6..], lo);
  }

  lemma SurrogateRead(s: string, i: nat, t: string)
    requires OccursAt(s, i, t) && (High(t) || Low(t)) && !(High(t) && LowAt(s, i + 6))
    ensures i + 6 <= |s| && s[i] == '\\' && s[i + 1] == 'u' && UnicodeEscape(s, i + 2) == At('\U{FFFD}', i + 6)
    ensures |t| == 6
  {
    hide Hex4, Unit, LowAt;
    var n :| Unit(t, n) && (0xD800 <= n <= 0xDBFF || 0xDC00 <= n <= 0xDFFF);
    UnitLength(t, n);
    UnitRead(s, i, t, n);
    if i + 12 <= |s| && s[i + 6] == '\\' && s[i + 7] == 'u' && Hex4(s, i + 8).Some? {
      var lo := Hex4(s, i + 8).value;
      if 0xDC00 <= lo < 0xE000 {
        LowRead(s, i + 6, lo);
      }
    }
  }

  lemma UnitLength(t: string, n: int)
    requires Unit(t, n)
    ensures |t| == 6
  {
  }

  /** One glyph is read as its character, if it is no high surrogate with a low one behind it. */
  lemma GlyphRead(s: string, i: nat, t: string, c: char)
    requires OccursAt(s, i, t) && Glyph(t, c) && !(High(t) && LowAt(s, i + 6))
    ensures i < |s| && s[i] != '\"' && StringItem(s, i) == At(c, i + |t|)
  {
    hide Hex4, Unit, High, Low, LowAt, Pair, UnicodeEscape;
    if t == [c] && c >= ' ' && c != '\"' && c != '\\' {
      OccursChar(s, i, t, 0);
    } else if |t| == 2 && t[0] == '\\' && Letter(t[1], c) {
      OccursChar(s, i, t, 0);
      OccursChar(s, i, t, 1);
    } else if Unit(t, c as int) {
      UnitLength(t, c as int);
      UnitRead(s, i, t, c as int);
      CodeRead(s, i + 2, c);
    } else if Pair(t, c) {
      PairLength(t, c);
      PairRead(s, i, t, c);
    } else {
      SurrogateRead(s, i, t);
    }
  }

  lemma PairLength(t: string, c: char)
    requires Pair(t, c)
    ensures |t| == 12
  {
  }

  lemma CodeRead(s: string, i: nat, c: char)
    requires Hex4(s, i) == Some(c as int)
    ensures UnicodeEscape(s, i) == At(c, i + 4)
  {
    hide Hex4;
  }

  /** What is written behind a glyph that is not followed by a low surrogate is none. */
  lemma NoLowAt(s: string, j: nat, t: string, c: char)
    requires OccursAt(s, j, t) && Glyph(t, c) && !Low(t)
    ensures !LowAt(s, j)
  {
    assert |t| == 6 ==> s[j..j + 6] == t;
    OccursChar(s, j, t, 0);
    if |t| == 2 {
      OccursChar(s, j, t, 1);
    }
    hide Hex4, Unit;
    if LowAt(s, j) && |t| != 6 {
      var n :| Unit(s[j..j + 6], n) && 0xDC00 <= n <= 0xDFFF;
      UnitRead(s, j, s[j..j + 6], n);
      if Pair(t, c) {
        PairRead(s, j, t, c);
        var m :| Unit(s[j..j + 6], m) && 0xD800 <= m <= 0xDBFF;
        UnitRead(s, j, s[j..j + 6], m);
      }
    }
  }

  lemma QuoteIsNoLow(s: string, j: nat)
    requires OccursAt(s, j, "\"")
    ensures !LowAt(s, j)
  {
    OccursChar(s, j, "\"", 0);
  }

  /** Any spelling of any text, between quotes, decodes to that text. */
  lemma {:induction false} GlyphsDecode(s: string, i: nat, glyphs: seq<string>, text: string)
    requires Glyphs(glyphs, text) && OccursAt(s, i, Concat(glyphs) + "\"")
    ensures StringBody(s, i) == At(text, i + |Concat(glyphs)| + 1)
    decreases |text|
  {
    hide StringItem, Glyph, High, Low, LowAt, OccursAt;
    OccursAtSplit(s, i, Concat(glyphs), "\"");
    if text == "" {
      OccursChar(s, i, "\"", 0);
    } else {
      var g, rest := glyphs[0], Concat(glyphs[1..]);
      OccursAtSplit(s, i, g, rest);
      OccursAtSplit(s, i + |g|, rest, "\"");
      if High(g) {
        HighIsSix(g);
        NoLowBehind(s, i + |g|, glyphs[1..], text[1..]);
      }
      GlyphRead(s, i, g, text[0]);
      forall k | 0 < k < |text| - 1 ensures !(High(glyphs[1..][k - 1]) && Low(glyphs[1..][k])) {
        assert !(High(glyphs[k]) && Low(glyphs[k + 1]));
      }
      GlyphsDecode(s, i + |g|, glyphs[1..], text[1..]);
      assert [text[0]] + text[1..] == text;
    }
  }

  lemma HighIsSix(t: string)
    requires High(t)
    ensures |t| == 6
  {
  }

  lemma NoLowBehind(s: string, j: nat, glyphs: seq<string>, text: string)
    requires OccursAt(s, j, Concat(glyphs) + "\"") && |glyphs| == |text|
    requires text != "" ==> Glyph(glyphs[0], text[0]) && !Low(glyphs[0])
    ensures !LowAt(s, j)
  {
    hide Glyph, High, Low, LowAt, OccursAt;
    OccursAtSplit(s, j, Concat(glyphs), "\"");
    if text == "" {
      QuoteIsNoLow(s, j);
    } else {
      OccursAtSplit(s, j, glyphs[0], Concat(glyphs[1..]));
      NoLowAt(s, j, glyphs[0], text[0]);
    }
  }

  lemma QuotedStarts(glyphs: seq<string>)
    ensures QuotedText(glyphs) != "" && QuotedText(glyphs)[0] == '\"' && !IsWs(QuotedText(glyphs)[0])
  {
  }

  lemma QuotedDecodes(s: string, i: nat, glyphs: seq<string>, text: string)
    requires Glyphs(glyphs, text) && OccursAt(s, i, QuotedText(glyphs))
    ensures i < |s| && s[i] == '\"' && StringBody(s, i + 1) == At(text, i + |QuotedText(glyphs)|)
  {
    OccursAtSplit(s, i, "\"", Concat(glyphs) + "\"");
    assert s[i..i + 1][0] == s[i];
    GlyphsDecode(s, i + 1, glyphs, text);
  }

  // ---------------------------------------------------------------------------------------
  // Values

  function Values(items: seq<Item>): seq<Json> {
    seq(|items|, k requires 0 <= k < |items| => Meaning(items[k].w))
  }

  function Pairs(members: seq<Member>): seq<(string, Json)> {
    seq(|members|, k requires 0 <= k < |members| => (members[k].name, Meaning(members[k].w)))
  }

  lemma TextStarts(w: Written)
    requires Valid(w)
    ensures Text(w) != "" && !IsWs(Text(w)[0]) && Text(w)[0] !in {']', '}'}
  {
    match w {
      case Scalar(t, v) => PlainDecodes(t, v);
      case _ =>
    }
  }

  /** Whitespace in front of something else is skipped up to it. */
  lemma SkipToText(s: string, i: nat, ws: string, t: string)
    requires AllWs(ws) && OccursAt(s, i, ws + t) && t != "" && !IsWs(t[0])
    ensures SkipWs(s, i) == i + |ws|
    ensures OccursAt(s, i + |ws|, t) && i + |ws| < |s| && s[i + |ws|] == t[0]
  {
    OccursAtSplit(s, i, ws, t);
    OccursChar(s, i + |ws|, t, 0);
    forall k | i <= k < i + |ws| ensures IsWs(s[k]) {
      OccursChar(s, i, ws, k - i);
    }
  }

  /** A value decodes where it stands, if no digit or exponent follows it. */
  lemma ValueInPlace(s: string, i: nat, t: string, v: Json)
    requires Value(t, 0) == At(v, |t|) && OccursAt(s, i, t) && Delimited(s, i + |t|)
    ensures Value(s, i) == At(v, i + |t|)
  {
    hide Value, Delimited;
    forall m {:trigger t[m]} | 0 <= m < |t| ensures t[m] == s[m + i] {
      OccursChar(s, i, t, m);
    }
    ValueShift(t, 0, s, i);
  }

  /** After an item: its bracket, or a comma and more. */
  lemma AfterInPlace(s: string, d: nat, after: string, close: char, rest: string)
    requires close in {'}', ']'} && AllWs(after) && (rest == [close] || (rest != "" && rest[0] == ','))
    requires OccursAt(s, d, after + rest)
    ensures Delimited(s, d) && OccursAt(s, d + |after|, rest) && SkipWs(s, d) == d + |after|
    ensures d + |after| < |s|
    ensures rest == [close] ==> AfterItem(s, d, close) == At(false, d + |after| + 1)
    ensures rest != [close] ==> AfterItem(s, d, close) == At(true, SkipWs(s, d + |after| + 1))
  {
    SkipToText(s, d, after, rest);
    if after != "" {
      OccursAtSplit(s, d, after, rest);
      OccursChar(s, d, after, 0);
    }
  }

  lemma {:induction false} WrittenDecodes(w: Written)
    requires Valid(w)
    ensures Value(Text(w), 0) == At(Meaning(w), |Text(w)|)
    decreases w
  {
    hide StringBody, Members, Elements, Number, Literal, ItemsText, MembersText, Glyphs;
    var t := Text(w);
    assert OccursAt(t, 0, t);
    match w {
      case Scalar(text, v) => PlainDecodes(text, v);
      case Quoted(glyphs, s) => QuotedDecodes(t, 0, glyphs, s);
      case Listed(gap, items) => ListDecodes(gap, items, w);
      case Braced(gap, members) => ObjectDecodes(gap, members, w);
    }
  }

  lemma {:induction false} ListDecodes(gap: string, items: seq<Item>, whole: Written)
    requires whole == Listed(gap, items) && Valid(whole)
    ensures Value(Text(whole), 0) == At(Meaning(whole), |Text(whole)|)
    decreases whole, 0
  {
    hide StringBody, Number, Literal, Elements, Members, ItemsText;
    var t := Text(whole);
    assert Meaning(whole) == Arr(Values(items));
    var body := if items == [] then gap + "]" else ItemsText(items);
    OccursAtSplit(t, 0, "[", body);
    if items == [] {
      SkipToText(t, 1, gap, "]");
      assert Values(items) == [];
    } else {
      ItemsDecode(t, 1, items, whole);
    }
  }

  lemma {:induction false} ItemsDecode(s: string, i: nat, items: seq<Item>, whole: Written)
    requires items != [] && OccursAt(s, i, ItemsText(items))
    requires forall k :: 0 <= k < |items| ==>
      AllWs(items[k].before) && Valid(items[k].w) && AllWs(items[k].after) && items[k].w < whole
    ensures var j := i + |items[0].before|;
      SkipWs(s, i) == j < |s| && s[j] != ']' && Elements(s, j) == At(Values(items), i + |ItemsText(items)|)
    decreases whole, 0, |items|
  {
    hide Value, Delimited, AfterItem, Text, Valid, Members, OccursAt, Meaning, SkipWs, AllWs;
    var item := items[0];
    var t := Text(item.w);
    var d := i + |item.before| + |t| + |item.after|;
    var rest := if |items| == 1 then "]" else "," + ItemsText(items[1..]);
    WrittenDecodes(item.w);
    ItemInPlace(s, i, item, rest);
    if |items| == 1 {
      assert Values(items) == [Meaning(item.w)];
    } else {
      OccursAtSplit(s, d, ",", ItemsText(items[1..]));
      ItemsDecode(s, d + 1, items[1..], whole);
      assert Values(items) == [Meaning(item.w)] + Values(items[1..]);
    }
  }

  lemma ItemInPlace(s: string, i: nat, item: Item, rest: string)
    requires AllWs(item.before) && Valid(item.w) && AllWs(item.after)
    requires Value(Text(item.w), 0) == At(Meaning(item.w), |Text(item.w)|)
    requires rest == "]" || (rest != "" && rest[0] == ',')
    requires OccursAt(s, i, item.before + (Text(item.w) + (item.after + rest)))
    ensures var j := i + |item.before|;
      var d := j + |Text(item.w)|;
      && SkipWs(s, i) == j < |s| && s[j] != ']' && Value(s, j) == At(Meaning(item.w), d)
      && OccursAt(s, d + |item.after|, rest)
      && (rest == "]" ==> AfterItem(s, d, ']') == At(false, d + |item.after| + 1))
      && (rest != "]" ==> AfterItem(s, d, ']') == At(true, SkipWs(s, d + |item.after| + 1)))
  {
    hide Value, Delimited, AfterItem, Text, Valid, OccursAt, Meaning, SkipWs;
    var t := Text(item.w);
    var j := i + |item.before|;
    TextStarts(item.w);
    SkipToText(s, i, item.before, t + (item.after + rest));
    OccursAtSplit(s, j, t, item.after + rest);
    AfterInPlace(s, j + |t|, item.after, ']', rest);
    ValueInPlace(s, j, t, Meaning(item.w));
  }

  lemma {:induction false} ObjectDecodes(gap: string, members: seq<Member>, whole: Written)
    requires whole == Braced(gap, members) && Valid(whole)
    ensures Value(Text(whole), 0) == At(Meaning(whole), |Text(whole)|)
    decreases whole, 0
  {
    hide StringBody, Number, Literal, Elements, Members, MembersText, NameValid;
    var t := Text(whole);
    assert Meaning(whole) == Obj(Pairs(members));
    var body := if members == [] then gap + "}" else MembersText(members);
    OccursAtSplit(t, 0, "{", body);
    if members == [] {
      SkipToText(t, 1, gap, "}");
      assert Pairs(members) == [];
    } else {
      MembersDecode(t, 1, members, whole);
    }
  }

  /** A member's name, its colon and the start of its value. */
  lemma NameInPlace(s: string, i: nat, m: Member, rest: string)
    requires NameValid(m) && rest != "" && !IsWs(rest[0])
    requires OccursAt(s, i, m.before + (QuotedText(m.glyphs) + (m.colon + (":" + (m.gap + rest)))))
    ensures var j := i + |m.before|;
      var v := j + |QuotedText(m.glyphs)| + |m.colon| + 1 + |m.gap|;
      SkipWs(s, i) == j < |s| && s[j] != '}' && Name(s, j) == At(m.name, v) && OccursAt(s, v, rest)
  {
    hide StringBody, OccursAt, Glyphs, SkipWs, QuotedText, AllWs, IsWs;
    var q := QuotedText(m.glyphs);
    QuotedStarts(m.glyphs);
    var tail := m.colon + (":" + (m.gap + rest));
    SkipToText(s, i, m.before, q + tail);
    var j := i + |m.before|;
    OccursAtSplit(s, j, q, tail);
    QuotedDecodes(s, j, m.glyphs, m.name);
    ColonInPlace(s, j + |q|, m.colon, m.gap, rest);
  }

  lemma ColonIsNoSpace()
    ensures !IsWs(':')
  {
  }

  lemma ColonInPlace(s: string, a: nat, colon: string, gap: string, rest: string)
    requires AllWs(colon) && AllWs(gap) && rest != "" && !IsWs(rest[0])
    requires OccursAt(s, a, colon + (":" + (gap + rest)))
    ensures var b := a + |colon|;
      b < |s| && SkipWs(s, a) == b && s[b] == ':' && SkipWs(s, b + 1) == b + 1 + |gap| && OccursAt(s, b + 1 + |gap|, rest)
  {
    hide OccursAt, SkipWs, AllWs, IsWs;
    assert !IsWs(':') by { ColonIsNoSpace(); }
    SkipToText(s, a, colon, ":" + (gap + rest));
    OccursAtSplit(s, a + |colon|, ":", gap + rest);
    SkipToText(s, a + |colon| + 1, gap, rest);
  }

  lemma {:induction false} MembersDecode(s: string, i: nat, members: seq<Member>, whole: Written)
    requires members != [] && OccursAt(s, i, MembersText(members))
    requires forall k :: 0 <= k < |members| ==>
      NameValid(members[k]) && Valid(members[k].w) && AllWs(members[k].after) && members[k].w < whole
    ensures var j := i + |members[0].before|;
      SkipWs(s, i) == j < |s| && s[j] != '}' && Members(s, j) == At(Pairs(members), i + |MembersText(members)|)
    decreases whole, 0, |members|
  {
    hide Value, Delimited, AfterItem, Text, Valid, Elements, OccursAt, Meaning, Name, NameValid, MemberText, SkipWs, AllWs;
    var m := members[0];
    var d := i + |m.before| + |MemberText(m)| + |m.after|;
    var rest := if |members| == 1 then "}" else "," + MembersText(members[1..]);
    WrittenDecodes(m.w);
    MemberInPlace(s, i, m, rest);
    if |members| == 1 {
      assert Pairs(members) == [(m.name, Meaning(m.w))];
    } else {
      OccursAtSplit(s, d, ",", MembersText(members[1..]));
      MembersDecode(s, d + 1, members[1..], whole);
      assert Pairs(members) == [(m.name, Meaning(m.w))] + Pairs(members[1..]);
    }
  }

  lemma MemberInPlace(s: string, i: nat, m: Member, rest: string)
    requires NameValid(m) && Valid(m.w) && AllWs(m.after)
    requires Value(Text(m.w), 0) == At(Meaning(m.w), |Text(m.w)|)
    requires rest == "}" || (rest != "" && rest[0] == ',')
    requires OccursAt(s, i, m.before + (MemberText(m) + (m.after + rest)))
    ensures var j := i + |m.before|;
      var d := j + |MemberText(m)|;
      var v := d - |Text(m.w)|;
      && d + |m.after| < |s| && SkipWs(s, i) == j && s[j] != '}'
      && Name(s, j) == At(m.name, v) && Value(s, v) == At(Meaning(m.w), d)
      && OccursAt(s, d + |m.after|, rest)
      && (rest == "}" ==> AfterItem(s, d, '}') == At(false, d + |m.after| + 1))
      && (rest != "}" ==> AfterItem(s, d, '}') == At(true, SkipWs(s, d + |m.after| + 1)))
  {
    hide Value, Delimited, AfterItem, Text, Valid, OccursAt, Meaning, Name, NameValid, QuotedText, SkipWs;
    var t := Text(m.w);
    var v := i + |m.before| + |MemberText(m)| - |t|;
    TextStarts(m.w);
    MemberRegroups(m, t, m.after + rest);
    NameInPlace(s, i, m, t + (m.after + rest));
    OccursAtSplit(s, v, t, m.after + rest);
    AfterInPlace(s, v + |t|, m.after, '}', rest);
    ValueInPlace(s, v, t, Meaning(m.w));
  }

  lemma MemberRegroups(m: Member, t: string, rest: string)
    requires t == Text(m.w)
    ensures m.before + (MemberText(m) + rest) == m.before + (QuotedText(m.glyphs) + (m.colon + (":" + (m.gap + (t + rest)))))
  {
    hide QuotedText, Text;
    assert MemberText(m) + rest == QuotedText(m.glyphs) + (m.colon + (":" + (m.gap + (t + rest))));
  }

  /** An object, however it is written, is an object text. */
  lemma WrittenObject(w: Written)
    requires Valid(w) && w.Braced?
    ensures IsObjectText(Text(w)) && ObjectOf(Text(w)) == Meaning(w)
  {
    WrittenDecodes(w);
  }

  /** And a document may have whitespace around it. */
  lemma LoadsOfWritten(before: string, w: Written, after: string)
    requires Valid(w) && AllWs(before) && AllWs(after)
    ensures Loads(before + Text(w) + after) == Some(Meaning(w))
  {
    hide Value, Text, Valid, Meaning, Delimited, SkipWs, OccursAt;
    var t := Text(w);
    TextStarts(w);
    WrittenDecodes(w);
    assert before + t + after == before + (t + after);
    WholeOccurs(before + (t + after));
    SkipToText(before + (t + after), 0, before, t + after);
    OccursAtSplit(before + (t + after), |before|, t, after);
    SpaceDelimits(before + (t + after), |before| + |t|);
    ValueInPlace(before + (t + after), |before|, t, Meaning(w));
    SpacesEnd(before + (t + after), |before| + |t|);
  }

  lemma WholeOccurs(s: string)
    ensures OccursAt(s, 0, s)
  {
  }

  lemma SpaceDelimits(s: string, k: nat)
    requires k < |s| ==> IsWs(s[k])
    ensures Delimited(s, k)
  {
  }

  lemma {:induction false} SpacesEnd(s: string, i: nat)
    requires i <= |s| && forall k :: i <= k < |s| ==> IsWs(s[k])
    ensures SkipWs(s, i) == |s|
    decreases |s| - i
  {
    if i < |s| {
      SpacesEnd(s, i + 1);
    }
  }

  // ---------------------------------------------------------------------------------------
  // The printer's spelling

  lemma PrintCharIsGlyph(c: char)
    ensures Glyph(PrintChar(c), c) && !High(PrintChar(c)) && !Low(PrintChar(c))
  {
    var t, n := PrintChar(c), c as int;
    if |t| == 6 {
      assert HexDigit(t[2], 0) && HexDigit(t[3], 0) && HexDigit(t[4], n / 16) && HexDigit(t[5], n % 16);
      assert n == 0 * 4096 + 0 * 256 + n / 16 * 16 + n % 16;
      assert Unit(t, n);
      OnlyUnit(t, n);
    }
  }

  lemma OnlyUnit(t: string, n: int)
    requires Unit(t, n)
    ensures forall m :: Unit(t, m) ==> m == n
  {
    hide Hex4, Unit;
    assert OccursAt(t, 0, t);
    UnitRead(t, 0, t, n);
    forall m | Unit(t, m) ensures m == n {
      UnitRead(t, 0, t, m);
    }
  }

  lemma PrintCharsAreGlyphs(s: string)
    ensures Glyphs(PrintChars(s), s)
  {
    hide Glyph, PrintChar, High, Low;
    forall k | 0 <= k < |s| ensures Glyph(PrintChars(s)[k], s[k]) && !High(PrintChars(s)[k]) {
      PrintCharIsGlyph(s[k]);
    }
  }

  /** What the printer writes is a spelling of the value. */
  lemma {:induction false} PrintedIsSpelling(v: Json, sp: Spacing)
    requires sp.Valid() && Printable(v)
    ensures Valid(Printed(v, sp)) && Meaning(Printed(v, sp)) == v
  {
    hide Glyphs, PrintInt;
    match v {
      case Str(s) => PrintCharsAreGlyphs(s);
      case Arr(items) =>
        forall k | 0 <= k < |items| ensures Valid(Printed(items[k], sp)) && Meaning(Printed(items[k], sp)) == items[k] {
          PrintedIsSpelling(items[k], sp);
        }
      case Obj(members) =>
        forall k | 0 <= k < |members|
          ensures Valid(Printed(members[k].1, sp)) && Meaning(Printed(members[k].1, sp)) == members[k].1
          ensures Glyphs(PrintChars(members[k].0), members[k].0) {
          PrintedIsSpelling(members[k].1, sp);
          PrintCharsAreGlyphs(members[k].0);
        }
      case _ =>
    }
  }

  /** The printer's text for a value decodes to that value and is used up exactly. */
  lemma PrintDecodes(v: Json, sp: Spacing)
    requires sp.Valid() && Printable(v)
    ensures Value(Print(v, sp), 0) == At(v, |Print(v, sp)|)
  {
    PrintedIsSpelling(v, sp);
    WrittenDecodes(Printed(v, sp));
  }

  /** A printed object is an object text. */
  lemma PrintedObject(v: Json, sp: Spacing)
    requires sp.Valid() && Printable(v) && v.Obj?
    ensures IsObjectText(Print(v, sp)) && ObjectOf(Print(v, sp)) == v
  {
    PrintedIsSpelling(v, sp);
    WrittenObject(Printed(v, sp));
  }

  /** `json.loads(json.dumps(v)) == v`. */
  lemma LoadsOfPrint(v: Json, sp: Spacing)
    requires sp.Valid() && Printable(v)
    ensures Loads(Print(v, sp)) == Some(v)
  {
    hide Loads, Text, Printed, Valid, Meaning, Printable;
    PrintedIsSpelling(v, sp);
    LoadsOfWritten("", Printed(v, sp), "");
    assert "" + Print(v, sp) + "" == Print(v, sp);
  }
}
