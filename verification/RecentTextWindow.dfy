/** The byte-bounded window over the most recent text of a stream. */
module RecentTextWindow {
  import opened PyText
  import opened Utf8

  // ---------------------------------------------------------------------------------------
  // What one append does to the chunks

  /** The last `maxBytes` bytes of an oversize text, as far as they are whole characters. */
  function Trim(text: string, maxBytes: nat): string
    requires maxBytes <= Size(text)
  {
    var encoded := Encode(text);
    DecodeIgnore(encoded[|encoded| - maxBytes..], 0)
  }

  /** Chunks dropped from the left while the window is too large. */
  function Evict(chunks: seq<string>, maxBytes: nat): seq<string> {
    if chunks != [] && Size(Concat(chunks)) > maxBytes then Evict(chunks[1..], maxBytes) else chunks
  }

  function Appended(chunks: seq<string>, text: string, maxBytes: nat): seq<string> {
    if text == "" then chunks
    else if Size(text) >= maxBytes then (if Trim(text, maxBytes) == "" then [] else [Trim(text, maxBytes)])
    else Evict(chunks + [text], maxBytes)
  }

  function AppendAll(chunks: seq<string>, texts: seq<string>, maxBytes: nat): seq<string>
    decreases |texts|
  {
    if texts == [] then chunks else AppendAll(Appended(chunks, texts[0], maxBytes), texts[1..], maxBytes)
  }

  // ---------------------------------------------------------------------------------------
  // The window's invariant

  /** The window is the end of `history`, at most `maxBytes` long; and if it is not all of it,
      the piece `cut` just before it (a dropped chunk, or one character after an oversize
      append) would not have fitted. */
  predicate WindowOf(window: string, maxBytes: nat, history: string, cut: Option<string>) {
    && Size(window) <= maxBytes
    && match cut
       case None => window == history
       case Some(d) =>
         d != "" && |d| + |window| <= |history| && history[|history| - |window|..] == window
         && history[|history| - |window| - |d|..|history| - |window|] == d && Size(d) + Size(window) > maxBytes
  }

  /** `_RecentTextWindow`. */
  class Window {
    const maxBytes: nat
    var chunks: seq<string>
    var bytes: nat
    ghost var history: string
    ghost var cut: Option<string>

    ghost predicate Valid()
      reads this
    {
      maxBytes >= 1 && bytes == Size(Concat(chunks)) && WindowOf(Concat(chunks), maxBytes, history, cut)
    }

    constructor (limit: int)
      ensures Valid() && history == "" && chunks == [] && maxBytes == if limit > 1 then limit else 1
    {
      maxBytes := if limit > 1 then limit else 1;
      chunks, bytes := [], 0;
      history, cut := "", None;
    }

    method Append(text: string)
      requires Valid()
      modifies this
      ensures Valid()
      ensures history == old(history) + text
      ensures chunks == Appended(old(chunks), text, maxBytes)
    {
      hide WindowOf, Encode, DecodeIgnore, Size, Evict, Concat;
      if text == "" {
        assert history + text == history;
        return;
      }
      cut := AppendedKeepsWindow(chunks, text, maxBytes, history, cut);
      history := history + text;
      var textBytes := Size(text);
      if textBytes >= maxBytes {
        chunks, bytes := [], 0;
        EmptyConcat();
        var encoded := Encode(text);
        var trimmed := DecodeIgnore(encoded[|encoded| - maxBytes..], 0);
        if trimmed != "" {
          OneChunk(trimmed);
          chunks, bytes := [trimmed], Size(trimmed);
        }
        return;
      }
      SizeOfSnoc(chunks, text);
      chunks, bytes := chunks + [text], bytes + textBytes;
      DropOldChunks();
    }

    /** The eviction loop of `append`. */
    method DropOldChunks()
      requires bytes == Size(Concat(chunks))
      modifies this`chunks, this`bytes
      ensures chunks == Evict(old(chunks), maxBytes) && bytes == Size(Concat(chunks))
    {
      while chunks != [] && bytes > maxBytes
        invariant bytes == Size(Concat(chunks)) && Evict(chunks, maxBytes) == Evict(old(chunks), maxBytes)
        decreases |chunks|
      {
        var dropped := chunks[0];
        SizeAppend(dropped, Concat(chunks[1..]));
        chunks, bytes := chunks[1..], bytes - Size(dropped);
      }
    }

    /** A whole run of appends. */
    method AppendEach(texts: seq<string>)
      requires Valid()
      modifies this
      ensures Valid()
      ensures chunks == AppendAll(old(chunks), texts, maxBytes) && history == old(history) + Concat(texts)
    {
      hide WindowOf, Appended;
      ghost var before := history;
      assert texts[..0] == [] && history + "" == history;
      for k := 0 to |texts|
        invariant Valid()
        invariant AppendAll(chunks, texts[k..], maxBytes) == AppendAll(old(chunks), texts, maxBytes)
        invariant history == before + Concat(texts[..k])
      {
        assert texts[k..][1..] == texts[k + 1..] && texts[..k + 1] == texts[..k] + [texts[k]];
        ConcatAppend(texts[..k], [texts[k]]);
        OneChunk(texts[k]);
        assert before + Concat(texts[..k]) + texts[k] == before + (Concat(texts[..k]) + texts[k]);
        Append(texts[k]);
      }
      assert texts[..|texts|] == texts && texts[|texts|..] == [];
    }

    method Render() returns (text: string)
      requires Valid()
      ensures text == Concat(chunks)
      ensures |text| <= |history| && text == history[|history| - |text|..] && Size(text) == bytes <= maxBytes
    {
      text := Concat(chunks);
    }
  }

  // ---------------------------------------------------------------------------------------
  // The invariant is kept

  lemma SizeOfSnoc(chunks: seq<string>, text: string)
    ensures Concat(chunks + [text]) == Concat(chunks) + text
    ensures Size(Concat(chunks + [text])) == Size(Concat(chunks)) + Size(text)
  {
    ConcatAppend(chunks, [text]);
    OneChunk(text);
    SizeAppend(Concat(chunks), text);
  }

  /** An oversize text leaves its longest suffix of whole characters that fits; at most three
      bytes of the limit stay unused. */
  lemma TrimIsLongestSuffix(text: string, maxBytes: nat)
    requires maxBytes <= Size(text)
    ensures var t := Trim(text, maxBytes);
      && |t| <= |text| && text[|text| - |t|..] == t
      && Size(t) <= maxBytes
      && maxBytes < Size(t) + 4
      && (|t| < |text| ==> Width(text[|text| - |t| - 1]) + Size(t) > maxBytes)
  {
    var encoded := Encode(text);
    var skip := |encoded| - maxBytes;
    DecodeOfSlice(encoded, skip, skip);
    assert encoded[0..] == encoded;
    DecodeSuffix(encoded, 0, text, skip);
    CutIsTight(text, skip);
    var k := CharsCut(text, skip);
    assert text[k..] == Trim(text, maxBytes);
    if k == 0 {
      assert text[0..] == text;
    }
  }

  lemma SizeOfOne(c: char)
    ensures Size([c]) == Width(c) >= 1
  {
    assert [c][1..] == "";
  }

  lemma OversizeKeepsWindow(text: string, maxBytes: nat, history: string) returns (cut: Option<string>)
    requires 1 <= maxBytes <= Size(text)
    ensures WindowOf(Trim(text, maxBytes), maxBytes, history + text, cut)
  {
    hide Trim, Size, Width;
    var t, whole := Trim(text, maxBytes), history + text;
    TrimIsLongestSuffix(text, maxBytes);
    var k := |whole| - |t|;
    assert whole[k..] == t;
    if k == 0 {
      cut := None;
    } else {
      var d := whole[k - 1..k];
      cut := Some(d);
      assert d == [whole[k - 1]];
      SizeOfOne(whole[k - 1]);
      if |t| < |text| {
        assert whole[k - 1] == text[|text| - |t| - 1];
      } else {
        assert t == text;
      }
    }
  }

  /** Appending a text that fits keeps the end of the history, and what did not fit before
      fits even less. */
  lemma GrowKeepsEnd(window: string, text: string, history: string, cut: Option<string>, maxBytes: nat)
    requires WindowOf(window, maxBytes, history, cut)
    ensures |window + text| <= |history + text|
    ensures (history + text)[|history + text| - |window + text|..] == window + text
    ensures Size(window + text) <= maxBytes ==> WindowOf(window + text, maxBytes, history + text, cut)
  {
    hide Size;
    SizeAppend(window, text);
    var whole, n := history + text, |history| - |window|;
    assert history[n..] == window;
    assert whole[n..] == window + text;
    if cut.Some? {
      SliceBefore(history, text, n - |cut.value|, n);
    }
  }

  lemma SliceBefore(s: string, t: string, i: nat, j: nat)
    requires i <= j <= |s|
    ensures (s + t)[i..j] == s[i..j]
  {
  }

  lemma {:induction false} EvictKeepsWindow(chunks: seq<string>, maxBytes: nat, history: string) returns (cut: Option<string>)
    requires |Concat(chunks)| <= |history| && history[|history| - |Concat(chunks)|..] == Concat(chunks)
    requires Size(Concat(chunks)) > maxBytes
    ensures WindowOf(Concat(Evict(chunks, maxBytes)), maxBytes, history, cut)
    decreases |chunks|
  {
    var d, rest := chunks[0], Concat(chunks[1..]);
    var n := |history| - |d + rest|;
    SizeAppend(d, rest);
    assert history[n..] == d + rest;
    assert history[n + |d|..] == history[n..][|d|..] == rest;
    if Size(rest) > maxBytes {
      cut := EvictKeepsWindow(chunks[1..], maxBytes, history);
    } else {
      assert history[n..n + |d|] == history[n..][..|d|] == d;
      cut := Some(d);
    }
  }

  /** One append keeps the invariant, whatever the text. */
  lemma AppendedKeepsWindow(chunks: seq<string>, text: string, maxBytes: nat, history: string, cut: Option<string>)
    returns (cut': Option<string>)
    requires maxBytes >= 1 && WindowOf(Concat(chunks), maxBytes, history, cut)
    ensures WindowOf(Concat(Appended(chunks, text, maxBytes)), maxBytes, history + text, cut')
  {
    if text == "" {
      assert history + text == history;
      cut' := cut;
    } else if Size(text) >= maxBytes {
      cut' := OversizeKeepsWindow(text, maxBytes, history);
      var t := Trim(text, maxBytes);
      OneChunk(t);
    } else {
      SizeOfSnoc(chunks, text);
      GrowKeepsEnd(Concat(chunks), text, history, cut, maxBytes);
      if Size(Concat(chunks + [text])) > maxBytes {
        cut' := EvictKeepsWindow(chunks + [text], maxBytes, history + text);
      } else {
        cut' := cut;
      }
    }
  }

  /** After any sequence of appends the window is an exact end of everything appended, within
      the limit, and as much of it as the chunks allow. */
  lemma {:induction false} WindowAfterRun(chunks: seq<string>, texts: seq<string>, maxBytes: nat, history: string, cut: Option<string>)
    returns (cut': Option<string>)
    requires maxBytes >= 1 && WindowOf(Concat(chunks), maxBytes, history, cut)
    ensures WindowOf(Concat(AppendAll(chunks, texts, maxBytes)), maxBytes, history + Concat(texts), cut')
    decreases |texts|
  {
    hide WindowOf, Appended;
    if texts == [] {
      assert history + "" == history;
      cut' := cut;
    } else {
      var next := AppendedKeepsWindow(chunks, texts[0], maxBytes, history, cut);
      cut' := WindowAfterRun(Appended(chunks, texts[0], maxBytes), texts[1..], maxBytes, history + texts[0], next);
      assert history + texts[0] + Concat(texts[1..]) == history + Concat(texts);
    }
  }

  /** What the invariant means from outside: the window ends the text; a window shorter than
      the text is short of the limit only by the piece before it; and a text that fits whole
      is never cut. */
  lemma WindowOfWholeRun(texts: seq<string>, maxBytes: nat) returns (cut: Option<string>)
    requires maxBytes >= 1
    ensures var window := Concat(AppendAll([], texts, maxBytes));
      && WindowOf(window, maxBytes, Concat(texts), cut)
      && (cut.Some? ==> Size(window) > maxBytes - Size(cut.value))
      && (Size(Concat(texts)) <= maxBytes ==> window == Concat(texts))
  {
    hide Concat, AppendAll;
    assert Concat([]) == "" by { EmptyConcat(); }
    assert "" + Concat(texts) == Concat(texts);
    cut := WindowAfterRun([], texts, maxBytes, "", None);
    CutMeansTooLong(Concat(AppendAll([], texts, maxBytes)), maxBytes, Concat(texts), cut);
  }

  lemma EmptyConcat()
    ensures Concat([]) == "" && Size("") == 0
  {
  }

  lemma OneChunk(text: string)
    ensures Concat([text]) == text
  {
    assert Concat([text]) == text + "" == text;
  }

  lemma CutMeansTooLong(window: string, maxBytes: nat, whole: string, cut: Option<string>)
    requires WindowOf(window, maxBytes, whole, cut)
    ensures if cut.Some? then Size(whole) > maxBytes else window == whole
  {
    if cut.Some? {
      var n := |whole| - |window|;
      var m := n - |cut.value|;
      assert whole == whole[..m] + (cut.value + window);
      SizeAppend(whole[..m], cut.value + window);
      SizeAppend(cut.value, window);
    }
  }

  // ---------------------------------------------------------------------------------------
  // What eviction leaves

  /** The window is as many of the last chunks as fit: no chunk more would. */
  predicate LongestFrom(window: seq<string>, chunks: seq<string>, maxBytes: nat, k: nat) {
    && k <= |chunks| && window == chunks[k..] && Size(Concat(window)) <= maxBytes
    && (k > 0 ==> Size(Concat(chunks[k - 1..])) > maxBytes)
  }

  lemma {:induction false} EvictIsLongest(chunks: seq<string>, maxBytes: nat) returns (k: nat)
    ensures LongestFrom(Evict(chunks, maxBytes), chunks, maxBytes, k)
    decreases |chunks|
  {
    hide Size;
    if chunks != [] && Size(Concat(chunks)) > maxBytes {
      var j := EvictIsLongest(chunks[1..], maxBytes);
      k := j + 1;
      assert chunks[k..] == chunks[1..][j..];
      if j > 0 {
        assert chunks[k - 1..] == chunks[1..][j - 1..];
      } else {
        assert chunks[0..] == chunks;
      }
    } else {
      k := 0;
      assert chunks[0..] == chunks;
      assert chunks == [] ==> Size(Concat(chunks)) == 0 by { EmptyConcat(); }
    }
  }

  /** An append of a text below the limit leaves the chunks and the text but for the least number
      of old chunks whose absence makes room, and so always the text itself. */
  lemma AppendEvictsLeast(chunks: seq<string>, text: string, maxBytes: nat) returns (k: nat)
    requires text != "" && Size(text) < maxBytes
    ensures LongestFrom(Appended(chunks, text, maxBytes), chunks + [text], maxBytes, k)
    ensures k <= |chunks|
  {
    k := EvictIsLongest(chunks + [text], maxBytes);
    if k == |chunks| + 1 {
      assert (chunks + [text])[k - 1..] == [text];
      OneChunk(text);
    }
  }

  /** The texts since the last one that alone fills the window, and what is left of that one. */
  function Since(texts: seq<string>, maxBytes: nat): seq<string> {
    if texts == [] then []
    else
      var front, last := Since(texts[..|texts| - 1], maxBytes), texts[|texts| - 1];
      if last == "" then front
      else if Size(last) >= maxBytes then (if Trim(last, maxBytes) == "" then [] else [Trim(last, maxBytes)])
      else front + [last]
  }

  lemma {:induction false} AppendAllSnoc(chunks: seq<string>, texts: seq<string>, text: string, maxBytes: nat)
    ensures AppendAll(chunks, texts + [text], maxBytes) == Appended(AppendAll(chunks, texts, maxBytes), text, maxBytes)
    decreases |texts|
  {
    hide Appended;
    if texts == [] {
      assert (texts + [text])[1..] == [];
    } else {
      assert (texts + [text])[1..] == texts[1..] + [text];
      AppendAllSnoc(Appended(chunks, texts[0], maxBytes), texts[1..], text, maxBytes);
    }
  }

  /** One more text below the limit, behind a window that is as long as can be. */
  lemma LongestGrows(window: seq<string>, chunks: seq<string>, text: string, maxBytes: nat, k: nat) returns (m: nat)
    requires LongestFrom(window, chunks, maxBytes, k) && text != "" && Size(text) < maxBytes
    ensures LongestFrom(Appended(window, text, maxBytes), chunks + [text], maxBytes, m) && m <= |chunks|
  {
    hide Size, Appended, Concat;
    var j := AppendEvictsLeast(window, text, maxBytes);
    m := k + j;
    var all := chunks + [text];
    assert window + [text] == all[k..];
    assert (window + [text])[j..] == all[m..];
    if j > 0 {
      assert (window + [text])[j - 1..] == all[m - 1..];
    } else if k > 0 {
      assert all[k - 1..] == chunks[k - 1..] + [text];
      SizeOfSnoc(chunks[k - 1..], text);
    }
  }

  /** After any appends the window is the longest run of whole texts that fits among those since
      the last oversize one, of which the longest suffix of whole characters that fits counts as a
      text; and the newest text below the limit is always in it. */
  lemma {:induction false} WindowIsLongestRun(texts: seq<string>, maxBytes: nat) returns (k: nat)
    requires maxBytes >= 1
    ensures LongestFrom(AppendAll([], texts, maxBytes), Since(texts, maxBytes), maxBytes, k)
    ensures texts != [] && 0 < Size(texts[|texts| - 1]) < maxBytes ==> k < |Since(texts, maxBytes)|
    decreases |texts|
  {
    hide LongestFrom, Appended, Size;
    if texts == [] {
      k := 0;
      assert LongestFrom([], [], maxBytes, 0) by { NothingIsLongest(maxBytes); }
    } else {
      var front, last := texts[..|texts| - 1], texts[|texts| - 1];
      var j := WindowIsLongestRun(front, maxBytes);
      assert texts == front + [last];
      AppendAllSnoc([], front, last, maxBytes);
      var window := AppendAll([], front, maxBytes);
      hide AppendAll;
      if last == "" {
        k := j;
        AppendNothing(window, maxBytes);
        EmptyConcat();
      } else if Size(last) >= maxBytes {
        k := 0;
        OversizeIsLongest(window, last, maxBytes);
      } else {
        k := LongestGrows(window, Since(front, maxBytes), last, maxBytes, j);
      }
    }
  }

  lemma NothingIsLongest(maxBytes: nat)
    ensures LongestFrom([], [], maxBytes, 0)
  {
    EmptyConcat();
  }

  lemma AppendNothing(window: seq<string>, maxBytes: nat)
    ensures Appended(window, "", maxBytes) == window
  {
  }

  lemma OversizeIsLongest(window: seq<string>, text: string, maxBytes: nat)
    requires 1 <= maxBytes <= Size(text)
    ensures var t := Trim(text, maxBytes);
      var left := if t == "" then [] else [t];
      Appended(window, text, maxBytes) == left && LongestFrom(left, left, maxBytes, 0)
  {
    hide Trim;
    TrimIsLongestSuffix(text, maxBytes);
    OneChunk(Trim(text, maxBytes));
    EmptyConcat();
  }
}
