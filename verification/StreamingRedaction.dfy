/** The streaming redactor: it holds text back until a record is complete, and redacts complete
    records at once. */
module StreamingRedaction {
  import opened PyText
  import opened Utf8
  import opened RedactionPatterns
  import opened Redaction

  /** `str.rfind("\n")`. */
  function LastNewline(s: string): (r: Option<nat>)
    ensures r.Some? ==> r.value < |s| && s[r.value] == '\n' && '\n' !in s[r.value + 1..]
    ensures r.None? ==> '\n' !in s
  {
    if s == "" then None
    else if s[|s| - 1] == '\n' then Some(|s| - 1)
    else
      assert s == s[..|s| - 1] + [s[|s| - 1]];
      var r := LastNewline(s[..|s| - 1]);
      assert r.Some? ==> s[r.value + 1..] == s[..|s| - 1][r.value + 1..] + [s[|s| - 1]];
      r
  }

  /** How much of `s` is complete records. */
  function ReadyLength(s: string): (n: nat)
    ensures n <= |s| && (n > 0 ==> RecordEnd(s, n)) && '\n' !in s[n..]
  {
    match LastNewline(s)
    case None => 0
    case Some(k) => k + 1
  }

  /** What follows the last newline. */
  function Rest(s: string): (r: string)
    ensures '\n' !in r
  {
    s[ReadyLength(s)..]
  }

  /** A complete record, and whether its redaction was handed out: a feed that raises has already
      taken its records out of the pending text, and they come out nowhere. */
  datatype Taken = Taken(text: string, delivered: bool)

  function Texts(records: seq<Taken>): (r: seq<string>)
    ensures |r| == |records| && forall k :: 0 <= k < |r| ==> r[k] == records[k].text
  {
    seq(|records|, k requires 0 <= k < |records| => records[k].text)
  }

  /** `CodeBuddySecretRedactor`. A set of the same secrets yields them in the same order each
      time, so they are arranged once. */
  class SecretRedactor {
    const exact: seq<string>
    const words: Words
    const maxPendingBytes: nat
    var pending: string
    ghost var fed: string
    ghost var records: seq<Taken>

    ghost predicate Valid()
      reads this
    {
      && LongestFirst(exact) && '\n' !in pending && maxPendingBytes >= 1
      && fed == Concat(Texts(records)) + pending
      && forall k :: 0 <= k < |records| ==> RecordEnd(records[k].text, |records[k].text|)
    }

    constructor (secrets: seq<string>, words: Words, limit: int)
      ensures Valid() && Arranges(exact, secrets)
      ensures this.words == words && maxPendingBytes == if limit > 1 then limit else 1
      ensures pending == "" && fed == "" && records == []
    {
      var arranged := Arrange(secrets);
      this.exact, this.words := arranged, words;
      maxPendingBytes := if limit > 1 then limit else 1;
      pending, fed, records := "", "", [];
    }

    /** `feed`: `None` is the RuntimeError for a rest beyond the byte limit. The text is taken in
        all the same, and the records that it completed are lost. */
    method Feed(text: string) returns (output: Option<string>)
      requires Valid()
      modifies this
      ensures Valid() && fed == old(fed) + text
      ensures pending == Rest(old(pending) + text)
      ensures output.None? <==> Size(pending) > maxPendingBytes
      ensures var all := old(pending) + text; var n := ReadyLength(all);
        && (output.Some? ==> output.value == Redacted(all[..n], exact, words))
        && records == (if n > 0 then old(records) + [Taken(all[..n], output.Some?)] else old(records))
    {
      hide Redacted, LongestFirst, Size, LastNewline, Concat, Texts;
      ghost var before, taken := pending, Texts(records);
      pending := pending + text;
      fed := fed + text;
      MoveBoundary(Concat(taken), before, text);
      var recordEnd := LastNewline(pending);
      if recordEnd.None? {
        assert pending[0..] == pending && pending[..0] == "";
        if Size(pending) > maxPendingBytes {
          return None;
        }
        assert Redacted("", exact, words) == "";
        return Some("");
      }
      var split := recordEnd.value + 1;
      var ready := pending[..split];
      assert ready[|ready| - 1] == '\n';
      AppendRecord(records, ready);
      assert pending == ready + pending[split..];
      MoveBoundary(Concat(taken), ready, pending[split..]);
      pending := pending[split..];
      if Size(pending) > maxPendingBytes {
        records := records + [Taken(ready, false)];
        return None;
      }
      records := records + [Taken(ready, true)];
      var redacted := RedactArranged(ready, exact, words);
      return redacted;
    }

    method Flush() returns (output: string)
      requires Valid()
      modifies this
      ensures Valid() && pending == "" && records == [] && fed == ""
      ensures output == Redacted(old(pending), exact, words)
    {
      var redacted := RedactArranged(pending, exact, words);
      output := redacted.value;
      pending, fed, records := "", "", [];
    }

    /** A whole stream: every chunk fed, and the flush; or the output up to the chunk that
        raised. */
    method Stream(chunks: seq<string>) returns (output: string, raised: bool)
      requires Valid() && pending == ""
      modifies this
      ensures output == Emitted("", chunks, exact, words, maxPendingBytes)
      ensures raised == StreamOutput("", chunks, exact, words, maxPendingBytes).None?
      ensures !raised ==> StreamOutput("", chunks, exact, words, maxPendingBytes) == Some(output)
    {
      hide Redacted, Size, Emitted, StreamOutput, Rest, ReadyLength;
      output := "";
      BehindNothing(StreamOutput("", chunks, exact, words, maxPendingBytes));
      assert "" + Emitted("", chunks, exact, words, maxPendingBytes) == Emitted("", chunks, exact, words, maxPendingBytes);
      for k := 0 to |chunks|
        invariant Valid()
        invariant output + Emitted(pending, chunks[k..], exact, words, maxPendingBytes)
          == Emitted("", chunks, exact, words, maxPendingBytes)
        invariant StreamOutput("", chunks, exact, words, maxPendingBytes)
          == Behind(output, StreamOutput(pending, chunks[k..], exact, words, maxPendingBytes))
      {
        assert chunks[k..] == [chunks[k]] + chunks[k + 1..];
        StreamStep(output, pending, chunks[k], chunks[k + 1..], exact, words, maxPendingBytes);
        var piece := Feed(chunks[k]);
        if piece.None? {
          return output, true;
        }
        output := output + piece.value;
      }
      assert chunks[|chunks|..] == [];
      StreamEnds(pending, exact, words, maxPendingBytes);
      var last := Flush();
      return output + last, false;
    }
  }

  function Behind(output: string, rest: Option<string>): Option<string> {
    match rest
    case None => None
    case Some(more) => Some(output + more)
  }

  lemma BehindNothing(rest: Option<string>)
    ensures Behind("", rest) == rest
  {
    if rest.Some? {
      assert "" + rest.value == rest.value;
    }
  }

  lemma StreamEnds(pending: string, exact: seq<string>, w: Words, limit: nat)
    ensures Emitted(pending, [], exact, w, limit) == Redacted(pending, exact, w)
    ensures StreamOutput(pending, [], exact, w, limit) == Some(Redacted(pending, exact, w))
  {
  }

  lemma StreamStep(output: string, pending: string, chunk: string, chunks: seq<string>,
                   exact: seq<string>, w: Words, limit: nat)
    ensures var all := pending + chunk;
      var piece := Redacted(all[..ReadyLength(all)], exact, w);
      if Size(Rest(all)) > limit then
        output + Emitted(pending, [chunk] + chunks, exact, w, limit) == output
        && StreamOutput(pending, [chunk] + chunks, exact, w, limit).None?
      else
        output + Emitted(pending, [chunk] + chunks, exact, w, limit)
          == output + piece + Emitted(Rest(all), chunks, exact, w, limit)
        && Behind(output, StreamOutput(pending, [chunk] + chunks, exact, w, limit))
          == Behind(output + piece, StreamOutput(Rest(all), chunks, exact, w, limit))
  {
    hide Redacted, Size, ReadyLength;
    var all := pending + chunk;
    var piece, rest := Redacted(all[..ReadyLength(all)], exact, w), Emitted(Rest(all), chunks, exact, w, limit);
    assert ([chunk] + chunks)[1..] == chunks;
    MoveBoundary(output, piece, rest);
    assert output + "" == output;
    match StreamOutput(Rest(all), chunks, exact, w, limit) {
      case None =>
      case Some(more) => MoveBoundary(output, piece, more);
    }
  }

  lemma MoveBoundary(a: string, b: string, c: string)
    ensures a + (b + c) == a + b + c
  {
  }

  lemma AppendRecord(records: seq<Taken>, ready: string)
    ensures forall d :: Concat(Texts(records + [Taken(ready, d)])) == Concat(Texts(records)) + ready
  {
    forall d ensures Concat(Texts(records + [Taken(ready, d)])) == Concat(Texts(records)) + ready {
      assert Texts(records + [Taken(ready, d)]) == Texts(records) + [ready];
      ConcatAppend(Texts(records), [ready]);
      assert Concat([ready]) == ready + "" == ready;
    }
  }

  // ---------------------------------------------------------------------------------------
  // Runs of the redactor

  /** The parts a run releases: what each feed finds complete, and the rest at the flush. */
  function Parts(pending: string, chunks: seq<string>): (parts: seq<string>)
    ensures parts != []
    decreases |chunks|
  {
    if chunks == [] then [pending]
    else
      var all := pending + chunks[0];
      var n := ReadyLength(all);
      if n > 0 then [all[..n]] + Parts(all[n..], chunks[1..]) else Parts(all[n..], chunks[1..])
  }

  /** The concatenated output of feeding the chunks and flushing, unless a feed raises. */
  function StreamOutput(pending: string, chunks: seq<string>, exact: seq<string>, w: Words, limit: nat): Option<string>
    decreases |chunks|
  {
    if chunks == [] then Some(Redacted(pending, exact, w))
    else
      var all := pending + chunks[0];
      var n := ReadyLength(all);
      if Size(all[n..]) > limit then None
      else
        match StreamOutput(all[n..], chunks[1..], exact, w, limit)
        case None => None
        case Some(rest) => Some(Redacted(all[..n], exact, w) + rest)
  }

  /** What has come out when the stream ends: at the flush, or at the feed that raises. */
  function Emitted(pending: string, chunks: seq<string>, exact: seq<string>, w: Words, limit: nat): string
    decreases |chunks|
  {
    if chunks == [] then Redacted(pending, exact, w)
    else
      var all := pending + chunks[0];
      var n := ReadyLength(all);
      if Size(all[n..]) > limit then ""
      else Redacted(all[..n], exact, w) + Emitted(all[n..], chunks[1..], exact, w, limit)
  }

  function RedactParts(parts: seq<string>, exact: seq<string>, w: Words): string {
    if parts == [] then "" else Redacted(parts[0], exact, w) + RedactParts(parts[1..], exact, w)
  }

  /** Every part but the last ends with a newline. */
  predicate Records(parts: seq<string>) {
    parts != [] && (|parts| > 1 ==> RecordEnd(parts[0], |parts[0]|) && Records(parts[1..]))
  }

  lemma {:induction false} PartsFacts(pending: string, chunks: seq<string>)
    ensures Records(Parts(pending, chunks))
    ensures Concat(Parts(pending, chunks)) == pending + Concat(chunks)
    decreases |chunks|
  {
    hide ReadyLength;
    if chunks == [] {
      assert Concat([pending]) == pending + "" == pending;
    } else {
      var all := pending + chunks[0];
      var n := ReadyLength(all);
      var rest, more := Parts(all[n..], chunks[1..]), Concat(chunks[1..]);
      PartsFacts(all[n..], chunks[1..]);
      MoveBoundary(pending, chunks[0], more);
      MoveBoundary(all[..n], all[n..], more);
      assert all == all[..n] + all[n..];
      if n > 0 {
        assert ([all[..n]] + rest)[1..] == rest;
      } else {
        assert all[..n] + (all[n..] + more) == all[n..] + more;
      }
    }
  }

  lemma {:induction false} OutputIsParts(pending: string, chunks: seq<string>, exact: seq<string>, w: Words, limit: nat)
    requires StreamOutput(pending, chunks, exact, w, limit).Some?
    ensures StreamOutput(pending, chunks, exact, w, limit) == Some(RedactParts(Parts(pending, chunks), exact, w))
    decreases |chunks|
  {
    hide Redacted;
    if chunks == [] {
      assert [pending][1..] == [] && Redacted(pending, exact, w) + "" == Redacted(pending, exact, w);
    } else {
      var all := pending + chunks[0];
      var n := ReadyLength(all);
      var rest := Parts(all[n..], chunks[1..]);
      OutputIsParts(all[n..], chunks[1..], exact, w, limit);
      if n > 0 {
        assert ([all[..n]] + rest)[1..] == rest;
      } else {
        assert all[..n] == "";
        assert "" + RedactParts(rest, exact, w) == RedactParts(rest, exact, w);
      }
    }
  }

  // ---------------------------------------------------------------------------------------
  // When a stream raises

  /** A text of complete records and a rest without newline is cut where it says. */
  lemma ReadyIs(ready: string, rest: string)
    requires (ready != "" ==> ready[|ready| - 1] == '\n') && '\n' !in rest
    ensures ReadyLength(ready + rest) == |ready| && Rest(ready + rest) == rest
  {
    hide LastNewline;
    var s := ready + rest;
    var n := ReadyLength(s);
    forall k | n <= k < |s| ensures s[k] != '\n' {
      assert s[n..][k - n] == s[k];
    }
    forall k | |ready| <= k < |s| ensures s[k] != '\n' {
      assert s[k] == rest[k - |ready|];
    }
    assert s[|ready|..] == rest;
  }

  /** The rest only depends on the rest so far. */
  lemma RestOfAppended(a: string, b: string)
    ensures Rest(Rest(a) + b) == Rest(a + b)
  {
    hide ReadyLength;
    var n, x := ReadyLength(a), Rest(a) + b;
    var m := ReadyLength(x);
    var ready := a[..n] + x[..m];
    assert a == a[..n] + Rest(a) && x == x[..m] + Rest(x);
    MoveBoundary(a[..n], Rest(a), b);
    MoveBoundary(a[..n], x[..m], Rest(x));
    assert ready != "" ==> ready[|ready| - 1] == '\n';
    ReadyIs(ready, Rest(x));
  }

  /** At the end of every feed the unfinished record is within the limit. */
  predicate Fits(chunks: seq<string>, limit: nat) {
    forall k :: 1 <= k <= |chunks| ==> Size(Rest(Concat(chunks[..k]))) <= limit
  }

  predicate FitsBehind(before: string, chunks: seq<string>, limit: nat) {
    forall k :: 1 <= k <= |chunks| ==> Size(Rest(before + Concat(chunks[..k]))) <= limit
  }

  lemma FitsStep(before: string, chunks: seq<string>, limit: nat)
    requires chunks != []
    ensures FitsBehind(before, chunks, limit) <==>
      Size(Rest(before + chunks[0])) <= limit && FitsBehind(before + chunks[0], chunks[1..], limit)
  {
    hide Rest, Size;
    forall k | 1 <= k <= |chunks| ensures before + Concat(chunks[..k]) == before + chunks[0] + Concat(chunks[1..][..k - 1]) {
      assert chunks[..k][0] == chunks[0] && chunks[..k][1..] == chunks[1..][..k - 1];
    }
    assert chunks[1..][..0] == [] && before + chunks[0] + "" == before + chunks[0];
    forall k | 1 <= k <= |chunks| - 1 && FitsBehind(before, chunks, limit)
      ensures Size(Rest(before + chunks[0] + Concat(chunks[1..][..k]))) <= limit {
      assert before + Concat(chunks[..k + 1]) == before + chunks[0] + Concat(chunks[1..][..k]);
    }
    if FitsBehind(before, chunks, limit) {
      assert before + Concat(chunks[..1]) == before + chunks[0];
    }
  }

  lemma {:induction false} RaisesBehind(before: string, chunks: seq<string>, exact: seq<string>, w: Words, limit: nat)
    ensures StreamOutput(Rest(before), chunks, exact, w, limit).Some? <==> FitsBehind(before, chunks, limit)
    decreases |chunks|
  {
    hide Redacted, Size, FitsBehind, Rest;
    if chunks == [] {
      assert FitsBehind(before, [], limit) by { NothingToFit(before, limit); }
    } else {
      var all := Rest(before) + chunks[0];
      RestOfAppended(before, chunks[0]);
      assert all[ReadyLength(all)..] == Rest(all) by { RestIs(all); }
      RaisesBehind(before + chunks[0], chunks[1..], exact, w, limit);
      FitsStep(before, chunks, limit);
    }
  }

  lemma NothingToFit(before: string, limit: nat)
    ensures FitsBehind(before, [], limit)
  {
  }

  lemma RestIs(s: string)
    ensures Rest(s) == s[ReadyLength(s)..]
  {
  }

  /** A stream raises exactly if some feed ends in the middle of a record that has outgrown the
      limit. */
  lemma RaisesExactly(chunks: seq<string>, exact: seq<string>, w: Words, limit: nat)
    ensures StreamOutput("", chunks, exact, w, limit).Some? <==> Fits(chunks, limit)
  {
    ReadyIs("", "");
    assert Rest("") == "" by { assert "" + "" == ""; }
    RaisesBehind("", chunks, exact, w, limit);
    forall k | 1 <= k <= |chunks| ensures "" + Concat(chunks[..k]) == Concat(chunks[..k]) {
    }
  }

  /** No piece of a record is larger than the limit. */
  ghost predicate SmallRecords(t: string, limit: nat) {
    forall i, j :: 0 <= i <= j <= |t| && '\n' !in t[i..j] ==> Size(t[i..j]) <= limit
  }

  /** Whether a text can make a stream raise, however it is cut: exactly if it has a record, or an
      unfinished one at its end, larger than the limit. */
  lemma NoSplitRaisesExactly(t: string, limit: nat)
    ensures (forall chunks | Concat(chunks) == t :: Fits(chunks, limit)) <==> SmallRecords(t, limit)
  {
    if SmallRecords(t, limit) {
      forall chunks | Concat(chunks) == t ensures Fits(chunks, limit) {
        SmallFits(t, chunks, limit);
      }
    } else {
      var i, j :| 0 <= i <= j <= |t| && '\n' !in t[i..j] && Size(t[i..j]) > limit;
      LargeRaises(t, i, j, limit);
    }
  }

  lemma SmallFits(t: string, chunks: seq<string>, limit: nat)
    requires Concat(chunks) == t && SmallRecords(t, limit)
    ensures Fits(chunks, limit)
  {
    hide ReadyLength, Size;
    forall k | 1 <= k <= |chunks| ensures Size(Rest(Concat(chunks[..k]))) <= limit {
      var done := Concat(chunks[..k]);
      ConcatAppend(chunks[..k], chunks[k..]);
      assert chunks[..k] + chunks[k..] == chunks;
      assert t[ReadyLength(done)..|done|] == Rest(done);
    }
  }

  lemma LargeRaises(t: string, i: nat, j: nat, limit: nat)
    requires i <= j <= |t| && '\n' !in t[i..j] && Size(t[i..j]) > limit
    ensures Concat([t[..j], t[j..]]) == t && !Fits([t[..j], t[j..]], limit)
  {
    hide ReadyLength, Size;
    var chunks := [t[..j], t[j..]];
    assert chunks[1..] == [t[j..]] && Concat([t[j..]]) == t[j..] + "";
    assert chunks[..1] == [t[..j]] && Concat([t[..j]]) == t[..j] + "" == t[..j];
    RestReaches(t, i, j);
    var n := ReadyLength(t[..j]);
    SizeAppend(t[n..i], t[i..j]);
    assert Rest(Concat(chunks[..1])) == t[n..i] + t[i..j];
  }

  lemma RestReaches(t: string, i: nat, j: nat)
    requires i <= j <= |t| && '\n' !in t[i..j]
    ensures ReadyLength(t[..j]) <= i && Rest(t[..j]) == t[ReadyLength(t[..j])..i] + t[i..j]
  {
    hide LastNewline;
    var n := ReadyLength(t[..j]);
    forall k | i <= k < j ensures t[k] != '\n' {
      assert t[i..j][k - i] == t[k];
    }
    assert t[..j][n..] == t[n..j];
  }

  /** Raising depends on the cuts, apart from any secret: the same text in one feed and in two. */
  lemma CutsDecideRaising()
    ensures Concat(["ab\n"]) == Concat(["ab", "\n"]) == "ab\n"
    ensures Fits(["ab\n"], 1) && !Fits(["ab", "\n"], 1)
  {
    assert ["ab\n"][1..] == [] && ["ab\n"][..1] == ["ab\n"];
    assert "ab\n" + "" == "ab\n";
    ReadyIs("ab\n", "");
    assert "ab"[0..2] == "ab" && "ab\n"[..2] == "ab" && "ab\n"[2..] == "\n";
    assert Size("ab") == 2 by { assert "ab"[1..] == "b" && "b"[1..] == ""; }
    assert '\n' !in "ab\n"[0..2] && "ab\n"[0..2] == "ab";
    LargeRaises("ab\n", 0, 2, 1);
  }

  /** The parts whose redactions come out. */
  function EmittedParts(pending: string, chunks: seq<string>, limit: nat): (parts: seq<string>)
    ensures parts != []
    decreases |chunks|
  {
    if chunks == [] then [pending]
    else
      var all := pending + chunks[0];
      var n := ReadyLength(all);
      if Size(all[n..]) > limit then [""]
      else (if n > 0 then [all[..n]] else []) + EmittedParts(all[n..], chunks[1..], limit)
  }

  lemma {:induction false} EmittedFacts(pending: string, chunks: seq<string>, exact: seq<string>, w: Words, limit: nat)
    ensures Records(EmittedParts(pending, chunks, limit))
    ensures Emitted(pending, chunks, exact, w, limit) == RedactParts(EmittedParts(pending, chunks, limit), exact, w)
    decreases |chunks|
  {
    hide Redacted, Size;
    if chunks == [] {
      OnePart(pending, exact, w);
    } else {
      var all := pending + chunks[0];
      var n := ReadyLength(all);
      if Size(all[n..]) > limit {
        OnePart("", exact, w);
      } else {
        var rest := EmittedParts(all[n..], chunks[1..], limit);
        EmittedFacts(all[n..], chunks[1..], exact, w, limit);
        if n > 0 {
          assert ([all[..n]] + rest)[1..] == rest;
        } else {
          assert [] + rest == rest && all[..n] == "";
          assert "" + RedactParts(rest, exact, w) == RedactParts(rest, exact, w);
        }
      }
    }
  }

  lemma OnePart(p: string, exact: seq<string>, w: Words)
    ensures Records([p]) && RedactParts([p], exact, w) == Redacted(p, exact, w)
  {
    hide Redacted;
    assert [p][1..] == [] && Redacted(p, exact, w) + "" == Redacted(p, exact, w);
  }

  /** Where a stream raises, and what of the text before that its emitted parts hold. */
  lemma {:induction false} RaisesAt(before: string, chunks: seq<string>, limit: nat) returns (k: nat)
    requires !FitsBehind(before, chunks, limit)
    ensures k < |chunks| && Size(Rest(before + Concat(chunks[..k + 1]))) > limit && FitsBehind(before, chunks[..k], limit)
    ensures Rest(before) + Concat(chunks[..k]) == Concat(EmittedParts(Rest(before), chunks, limit)) + Rest(before + Concat(chunks[..k]))
    decreases |chunks|
  {
    hide Size, FitsBehind, Rest, ReadyLength;
    assert chunks != [] by { NothingToFit(before, limit); }
    var all := Rest(before) + chunks[0];
    var n := ReadyLength(all);
    RestOfAppended(before, chunks[0]);
    RestIs(all);
    FitsStep(before, chunks, limit);
    assert chunks[..1] == [chunks[0]] && Concat([chunks[0]]) == chunks[0] + "" == chunks[0];
    assert chunks[..0] == [] && before + "" == before;
    if Size(Rest(all)) > limit {
      k := 0;
      NothingToFit(before, limit);
      assert EmittedParts(Rest(before), chunks, limit) == [""];
      assert Concat(chunks[..0]) == "" && Concat([""]) == "";
      assert Rest(before) + "" == "" + Rest(before);
    } else {
      var next := before + chunks[0];
      var j := RaisesAt(next, chunks[1..], limit);
      k := j + 1;
      assert chunks[..k][1..] == chunks[1..][..j] && chunks[..k + 1][1..] == chunks[1..][..j + 1];
      FitsStep(before, chunks[..k], limit);
      var done := Concat(chunks[1..][..j]);
      MoveBoundary(before, chunks[0], done);
      MoveBoundary(before, chunks[0], Concat(chunks[1..][..j + 1]));
      assert chunks == [chunks[0]] + chunks[1..];
      PartsStep(Rest(before), chunks[0], chunks[1..], limit);
      assert all == all[..n] + Rest(all);
      Regroup(Rest(before), chunks[0], all[..n], Rest(all), done,
              Concat(EmittedParts(Rest(all), chunks[1..], limit)), Rest(next + done));
    }
  }

  lemma PartsStep(pending: string, chunk: string, chunks: seq<string>, limit: nat)
    requires Size(Rest(pending + chunk)) <= limit
    ensures var all := pending + chunk;
      Concat(EmittedParts(pending, [chunk] + chunks, limit))
        == all[..ReadyLength(all)] + Concat(EmittedParts(Rest(all), chunks, limit))
  {
    hide Size, ReadyLength;
    var all := pending + chunk;
    var n, rest := ReadyLength(all), EmittedParts(Rest(all), chunks, limit);
    assert ([chunk] + chunks)[1..] == chunks;
    if n > 0 {
      assert ([all[..n]] + rest)[1..] == rest;
    } else {
      assert [] + rest == rest && all[..n] + Concat(rest) == Concat(rest);
    }
  }

  lemma Regroup(a: string, b: string, ready: string, r: string, done: string, x: string, y: string)
    requires a + b == ready + r && r + done == x + y
    ensures a + (b + done) == ready + x + y
  {
    MoveBoundary(a, b, done);
    MoveBoundary(ready, r, done);
    MoveBoundary(ready, x, y);
  }

  /** What a raising stream loses: what comes out is the redaction of the complete records of the
      chunks before the one that raises, and of nothing else; the records that the raising chunk
      completed do not come out, though they were within the limit. */
  lemma RaisingLosesRecords(chunks: seq<string>, exact: seq<string>, w: Words, limit: nat) returns (k: nat, parts: seq<string>)
    requires !Fits(chunks, limit)
    ensures k < |chunks| && Size(Rest(Concat(chunks[..k + 1]))) > limit && Fits(chunks[..k], limit)
    ensures Records(parts) && Emitted("", chunks, exact, w, limit) == RedactParts(parts, exact, w)
    ensures var fed := Concat(chunks[..k]); Concat(parts) == fed[..ReadyLength(fed)]
  {
    hide Size, ReadyLength, Emitted, EmittedParts, RedactParts;
    ReadyIs("", "");
    assert Rest("") == "" by { assert "" + "" == ""; }
    BehindNothingFits(chunks, limit);
    k := RaisesAt("", chunks, limit);
    BehindNothingFits(chunks[..k], limit);
    parts := EmittedParts("", chunks, limit);
    EmittedFacts("", chunks, exact, w, limit);
    var fed := Concat(chunks[..k]);
    assert "" + fed == fed && "" + Concat(chunks[..k + 1]) == Concat(chunks[..k + 1]);
    assert fed == fed[..ReadyLength(fed)] + Rest(fed);
    SuffixCancels(Concat(parts), fed[..ReadyLength(fed)], Rest(fed));
  }

  lemma SuffixCancels(a: string, b: string, c: string)
    requires a + c == b + c
    ensures a == b
  {
    assert |a| == |b|;
    assert a == (a + c)[..|a|] && b == (b + c)[..|b|];
  }

  lemma BehindNothingFits(chunks: seq<string>, limit: nat)
    ensures FitsBehind("", chunks, limit) <==> Fits(chunks, limit)
  {
    hide Size, Rest;
    assert forall k :: 1 <= k <= |chunks| ==> "" + Concat(chunks[..k]) == Concat(chunks[..k]);
  }

  /** A record within the limit that is lost because of the one begun behind it. */
  lemma CompletedRecordLost(exact: seq<string>, w: Words)
    ensures ReadyLength("a\nbc") == 2 && Emitted("", ["a\nbc"], exact, w, 1) == ""
  {
    hide Redacted;
    assert "a\n" + "bc" == "a\nbc" && "" + "a\nbc" == "a\nbc" && "a\nbc"[2..] == "bc";
    ReadyIs("a\n", "bc");
    assert Size("bc") == 2 by { assert "bc"[1..] == "c" && "c"[1..] == ""; }
  }

  // ---------------------------------------------------------------------------------------
  // One cut

  /** The scan of a stage takes a match that starts before the cut `c` and ends after it. */
  predicate Straddles(stage: Stage, t: string, i: nat, c: nat)
    requires i <= |t|
    decreases |t| - i
  {
    if i >= c || i == |t| then false
    else
      var m := MatchAt(stage, t, i);
      i + Advance(m) > c || Straddles(stage, t, i + Advance(m), c)
  }

  /** A cut at the end of a record that no match straddles separates the marks. */
  lemma {:induction false} MarksSplit(stage: Stage, t: string, i: nat, c: nat)
    requires RecordEnd(t, c) && i <= c && (OneRecord(stage) || stage.Bearer?) && !Straddles(stage, t, i, c)
    ensures Marks(stage, t, i) == Marks(stage, t[..c], i) + Marks(stage, t[c..], 0)
    decreases c - i
  {
    hide MatchAt, StepMarks, OneRecord, Marks;
    if i == c {
      MarksOfSuffix(stage, t, c, c);
    } else {
      var m := MatchAt(stage, t, i);
      var next := i + Advance(m);
      MatchInPrefix(stage, t, c, i);
      MarksSplit(stage, t, next, c);
      MarksStep(stage, t, i);
      MarksStep(stage, t[..c], i);
      assert StepMarks(m) + (Marks(stage, t[..c], next) + Marks(stage, t[c..], 0))
        == StepMarks(m) + Marks(stage, t[..c], next) + Marks(stage, t[c..], 0);
    }
  }

  lemma {:induction false} MarksOfSuffix(stage: Stage, t: string, c: nat, i: nat)
    requires RecordEnd(t, c) && c <= i <= |t|
    ensures Marks(stage, t, i) == Marks(stage, t[c..], i - c)
    decreases |t| - i
  {
    hide MatchAt;
    if i < |t| {
      MatchInSuffix(stage, t, c, i);
      var m := MatchAt(stage, t, i);
      MarksOfSuffix(stage, t, c, i + Advance(m));
    }
  }

  lemma {:induction false} OneRecordNeverStraddles(stage: Stage, t: string, i: nat, c: nat)
    requires RecordEnd(t, c) && i <= |t| && OneRecord(stage)
    ensures !Straddles(stage, t, i, c)
    decreases |t| - i
  {
    hide MatchAt, OneRecord;
    if i < c {
      MatchInPrefix(stage, t, c, i);
      var m := MatchAt(stage, t, i);
      OneRecordNeverStraddles(stage, t, i + Advance(m), c);
    }
  }

  lemma SubstituteSplits(stage: Stage, t: string, c: nat)
    requires RecordEnd(t, c) && (OneRecord(stage) || stage.Bearer?) && !Straddles(stage, t, 0, c)
    ensures Substitute(stage, t) == Substitute(stage, t[..c]) + Substitute(stage, t[c..])
    ensures RecordEnd(Substitute(stage, t), c)
  {
    hide Straddles, Marks, OneRecord, ApplyMarks;
    var x, y := Marks(stage, t[..c], 0), Marks(stage, t[c..], 0);
    MarksSplit(stage, t, 0, c);
    LastNewlineUnmarked(stage, t[..c], 0);
  }

  /** The newline that ends a text is never masked: every match ends with something else. */
  lemma {:induction false} LastNewlineUnmarked(stage: Stage, a: string, i: nat)
    requires RecordEnd(a, |a|) && i < |a| && (OneRecord(stage) || stage.Bearer?)
    ensures !Marks(stage, a, i)[|a| - 1 - i]
    decreases |a| - i
  {
    hide MatchAt, OneRecord, Marks;
    assert a[..|a|] == a;
    MarkAt(stage, a, i, |a| - 1);
    MatchInPrefix(stage, a, |a|, i);
    var m := MatchAt(stage, a, i);
    var next := i + Advance(m);
    if next < |a| {
      LastNewlineUnmarked(stage, a, next);
    }
  }

  lemma {:induction false} StagesSplit(stages: seq<Stage>, t: string, c: nat)
    requires RecordEnd(t, c) && forall k :: 0 <= k < |stages| ==> OneRecord(stages[k])
    ensures ApplyAll(stages, t) == ApplyAll(stages, t[..c]) + ApplyAll(stages, t[c..])
    ensures RecordEnd(ApplyAll(stages, t), c)
    decreases |stages|
  {
    hide OneRecord, Substitute;
    if stages != [] {
      OneRecordNeverStraddles(stages[0], t, 0, c);
      SubstituteSplits(stages[0], t, c);
      var next := Substitute(stages[0], t);
      assert next[..c] == Substitute(stages[0], t[..c]) && next[c..] == Substitute(stages[0], t[c..]);
      StagesSplit(stages[1..], next, c);
    } else {
      assert t == t[..c] + t[c..];
    }
  }

  predicate NewlineFree(exact: seq<string>) {
    forall k :: 0 <= k < |exact| ==> '\n' !in exact[k]
  }

  function ExactMasked(t: string, exact: seq<string>): (r: string)
    ensures |r| == |t|
  {
    ApplyAll(ExactStages(exact), t)
  }

  /** The exact-secret stage never sees a cut. */
  lemma ExactSplits(t: string, c: nat, exact: seq<string>)
    requires RecordEnd(t, c) && NewlineFree(exact)
    ensures ExactMasked(t, exact) == ExactMasked(t[..c], exact) + ExactMasked(t[c..], exact)
    ensures RecordEnd(ExactMasked(t, exact), c)
  {
    StagesSplit(ExactStages(exact), t, c);
  }

  lemma PatternStages(w: Words, s: string)
    ensures ApplyAll(Patterns(w), s) == ApplyAll([Jwt(w), QueryParam], Substitute(Bearer(w), s))
  {
    assert Patterns(w)[1..] == [Jwt(w), QueryParam];
  }

  /** No `Bearer` match over the cut: redacting the two sides apart is redacting the whole. */
  lemma CutIsHarmless(t: string, c: nat, exact: seq<string>, w: Words)
    requires RecordEnd(t, c) && NewlineFree(exact) && !Straddles(Bearer(w), ExactMasked(t, exact), 0, c)
    ensures Redacted(t, exact, w) == Redacted(t[..c], exact, w) + Redacted(t[c..], exact, w)
  {
    hide Substitute, Straddles, ApplyAll;
    var e := ExactMasked(t, exact);
    ExactSplits(t, c, exact);
    assert e[..c] == ExactMasked(t[..c], exact) && e[c..] == ExactMasked(t[c..], exact);
    SubstituteSplits(Bearer(w), e, c);
    var b := Substitute(Bearer(w), e);
    assert b[..c] == Substitute(Bearer(w), e[..c]) && b[c..] == Substitute(Bearer(w), e[c..]);
    StagesSplit([Jwt(w), QueryParam], b, c);
    PatternStages(w, e);
    PatternStages(w, e[..c]);
    PatternStages(w, e[c..]);
  }

  /** Redacted records keep their final newline. */
  lemma RecordStaysRecord(a: string, exact: seq<string>, w: Words)
    requires RecordEnd(a, |a|) && NewlineFree(exact)
    ensures RecordEnd(Redacted(a, exact, w), |a|)
  {
    hide Substitute, ApplyAll;
    StagesSplit(ExactStages(exact), a, |a|);
    var e := ExactMasked(a, exact);
    BearerKeepsEnd(w, e);
    StagesSplit([Jwt(w), QueryParam], Substitute(Bearer(w), e), |a|);
    PatternStages(w, e);
  }

  lemma BearerKeepsEnd(w: Words, a: string)
    requires RecordEnd(a, |a|)
    ensures RecordEnd(Substitute(Bearer(w), a), |a|)
  {
    LastNewlineUnmarked(Bearer(w), a, 0);
  }

  /** A straddling match masks the newline at the cut. */
  lemma {:induction false} StraddledNewlineMarked(w: Words, t: string, i: nat, c: nat)
    requires RecordEnd(t, c) && i < c && Straddles(Bearer(w), t, i, c)
    ensures Marks(Bearer(w), t, i)[c - 1 - i]
    decreases c - i
  {
    hide MatchAt, Marks;
    var m := MatchAt(Bearer(w), t, i);
    BearerKeepsNothing(w, t, i);
    MarkAt(Bearer(w), t, i, c - 1);
    if i + Advance(m) <= c {
      StraddledNewlineMarked(w, t, i + Advance(m), c);
    }
  }

  lemma BearerKeepsNothing(w: Words, t: string, i: nat)
    requires i <= |t|
    ensures MatchAt(Bearer(w), t, i).keep == 0
  {
  }

  lemma {:induction false} MaskStays(stages: seq<Stage>, s: string, k: nat)
    requires k < |s| && s[k] == '*'
    ensures ApplyAll(stages, s)[k] == '*'
    decreases |stages|
  {
    if stages != [] {
      MaskStays(stages[1..], Substitute(stages[0], s), k);
    }
  }

  /** A `Bearer` match over the cut: the whole masks the newline there, the parts keep it. */
  lemma CutIsHarmful(t: string, c: nat, exact: seq<string>, w: Words)
    requires RecordEnd(t, c) && NewlineFree(exact) && Straddles(Bearer(w), ExactMasked(t, exact), 0, c)
    ensures Redacted(t, exact, w)[c - 1] == '*' && Redacted(t[..c], exact, w)[c - 1] == '\n'
  {
    hide Straddles, ApplyAll;
    var e := ExactMasked(t, exact);
    ExactSplits(t, c, exact);
    StraddledNewlineMarked(w, e, 0, c);
    assert Width('\n') == 1;
    assert Substitute(Bearer(w), e)[c - 1] == '*';
    MaskStays([Jwt(w), QueryParam], Substitute(Bearer(w), e), c - 1);
    PatternStages(w, e);
    RecordStaysRecord(t[..c], exact, w);
  }

  // ---------------------------------------------------------------------------------------
  // All cuts

  /** Some `Bearer` match of `whole`, from `i` on, straddles a cut between the parts. */
  predicate SomeCutStraddled(parts: seq<string>, masked: string, i: nat, w: Words)
    requires i + |Concat(parts)| <= |masked|
    decreases |parts|
  {
    |parts| > 1
    && (Straddles(Bearer(w), masked, 0, i + |parts[0]|) || SomeCutStraddled(parts[1..], masked, i + |parts[0]|, w))
  }

  /** Beyond a cut that nothing straddles, the scan of the whole is the scan of the rest. */
  lemma {:induction false} StraddleOfSuffix(w: Words, t: string, i: nat, c: nat, d: nat)
    requires RecordEnd(t, c) && i <= |t| && c <= d <= |t|
    requires i >= c || !Straddles(Bearer(w), t, i, c)
    ensures Straddles(Bearer(w), t, i, d) <==> Straddles(Bearer(w), t[c..], if i >= c then i - c else 0, d - c)
    decreases |t| - i
  {
    hide MatchAt;
    if i < d && i < |t| {
      var m := MatchAt(Bearer(w), t, i);
      if i >= c {
        MatchInSuffix(Bearer(w), t, c, i);
      }
      StraddleOfSuffix(w, t, i + Advance(m), c, d);
    }
  }

  lemma {:induction false} CutsOfSuffix(parts: seq<string>, masked: string, i: nat, w: Words, c: nat)
    requires i + |Concat(parts)| <= |masked| && RecordEnd(masked, c) && c <= i
    requires !Straddles(Bearer(w), masked, 0, c)
    ensures SomeCutStraddled(parts, masked, i, w) <==> SomeCutStraddled(parts, masked[c..], i - c, w)
    decreases |parts|
  {
    hide Straddles;
    if |parts| > 1 {
      StraddleOfSuffix(w, masked, 0, c, i + |parts[0]|);
      CutsOfSuffix(parts[1..], masked, i + |parts[0]|, w, c);
    }
  }

  /** Redacting records one by one gives what redacting the whole gives exactly when no
      `Bearer` match of the exact-masked whole straddles a cut. */
  lemma {:induction false} PartsEqualWhole(parts: seq<string>, exact: seq<string>, w: Words)
    requires Records(parts) && NewlineFree(exact)
    ensures RedactParts(parts, exact, w) == Redacted(Concat(parts), exact, w)
      <==> !SomeCutStraddled(parts, ExactMasked(Concat(parts), exact), 0, w)
    decreases |parts|
  {
    hide Straddles, Redacted, ExactMasked;
    var t, p := Concat(parts), parts[0];
    if |parts| == 1 {
      assert parts[1..] == [] && t == p + "" == p;
      assert RedactParts(parts, exact, w) == Redacted(p, exact, w) + "";
    } else {
      var rest := Concat(parts[1..]);
      var c := |p|;
      assert t[..c] == p && t[c..] == rest && RecordEnd(t, c);
      var e := ExactMasked(t, exact);
      ExactSplits(t, c, exact);
      assert e[c..] == ExactMasked(rest, exact);
      PartsEqualWhole(parts[1..], exact, w);
      if Straddles(Bearer(w), e, 0, c) {
        CutIsHarmful(t, c, exact, w);
        assert RedactParts(parts, exact, w)[c - 1] == Redacted(p, exact, w)[c - 1];
      } else {
        CutIsHarmless(t, c, exact, w);
        CutsOfSuffix(parts[1..], e, c, w, c);
        PrefixCancels(Redacted(p, exact, w), RedactParts(parts[1..], exact, w), Redacted(rest, exact, w));
      }
    }
  }

  lemma PrefixCancels(a: string, x: string, y: string)
    ensures a + x == a + y <==> x == y
  {
    if a + x == a + y {
      assert x == (a + x)[|a|..] == (a + y)[|a|..] == y;
    }
  }

  /** However a text is split into feeds, the stream's output is the one-shot redaction of the
      text exactly when no unfinished record outgrows the limit at the end of a feed and no
      `Bearer` match straddles a place where the stream let go of complete records. */
  lemma ChunkingTheorem(chunks: seq<string>, exact: seq<string>, w: Words, limit: nat)
    requires NewlineFree(exact)
    ensures |Concat(Parts("", chunks))| == |Concat(chunks)|
    ensures StreamOutput("", chunks, exact, w, limit).None? <==> !Fits(chunks, limit)
    ensures StreamOutput("", chunks, exact, w, limit) == Some(Redacted(Concat(chunks), exact, w))
      <==> Fits(chunks, limit) && !SomeCutStraddled(Parts("", chunks), ExactMasked(Concat(chunks), exact), 0, w)
  {
    hide Redacted, ExactMasked, SomeCutStraddled, Fits;
    RaisesExactly(chunks, exact, w, limit);
    PartsFacts("", chunks);
    assert "" + Concat(chunks) == Concat(chunks);
    if Fits(chunks, limit) {
      OutputIsParts("", chunks, exact, w, limit);
      PartsEqualWhole(Parts("", chunks), exact, w);
    }
  }

  /** The exact-secret stage alone never depends on the chunking. */
  lemma {:induction false} ExactStageIgnoresChunking(parts: seq<string>, exact: seq<string>)
    requires Records(parts) && NewlineFree(exact)
    ensures Concat(ExactParts(parts, exact)) == ExactMasked(Concat(parts), exact)
    decreases |parts|
  {
    hide ExactMasked;
    var t, p := Concat(parts), parts[0];
    if |parts| == 1 {
      assert parts[1..] == [] && t == p + "" == p;
      assert ExactParts(parts, exact) == [ExactMasked(p, exact)];
      assert Concat([ExactMasked(p, exact)]) == ExactMasked(p, exact) + "";
    } else {
      var c := |p|;
      assert t[..c] == p && t[c..] == Concat(parts[1..]) && RecordEnd(t, c);
      ExactSplits(t, c, exact);
      ExactStageIgnoresChunking(parts[1..], exact);
      assert ExactParts(parts, exact)[1..] == ExactParts(parts[1..], exact);
    }
  }

  function ExactParts(parts: seq<string>, exact: seq<string>): seq<string> {
    if parts == [] then [] else [ExactMasked(parts[0], exact)] + ExactParts(parts[1..], exact)
  }

  /** Cut into feeds anywhere, straddled or not, raising or not, the stream never shows a secret
      that is free of newlines and mask characters. */
  lemma StreamHidesSecrets(chunks: seq<string>, secrets: seq<string>, exact: seq<string>, w: Words, limit: nat, secret: string)
    requires Arranges(exact, secrets) && NewlineFree(secrets)
    requires secret in secrets && secret != "" && MaskFree(secret)
    ensures !Contains(Emitted("", chunks, exact, w, limit), secret)
  {
    EmittedFacts("", chunks, exact, w, limit);
    forall k | 0 <= k < |exact| ensures '\n' !in exact[k] {
      assert exact[k] in exact && exact[k] in secrets;
      var j :| 0 <= j < |secrets| && secrets[j] == exact[k];
    }
    assert secret in exact;
    var k :| 0 <= k < |exact| && exact[k] == secret;
    PartsHideSecret(EmittedParts("", chunks, limit), exact, w, secret);
  }

  lemma {:induction false} PartsHideSecret(parts: seq<string>, exact: seq<string>, w: Words, secret: string)
    requires Records(parts) && NewlineFree(exact)
    requires secret in exact && secret != "" && MaskFree(secret) && '\n' !in secret
    ensures !Contains(RedactParts(parts, exact, w), secret)
    decreases |parts|
  {
    hide Redacted;
    var p := parts[0];
    ArrangedIsHidden(p, exact, w, secret);
    if |parts| == 1 {
      assert parts[1..] == [];
      assert RedactParts(parts, exact, w) == Redacted(p, exact, w) + "" == Redacted(p, exact, w);
    } else {
      RecordStaysRecord(p, exact, w);
      PartsHideSecret(parts[1..], exact, w, secret);
      NoneAcrossNewline(Redacted(p, exact, w), RedactParts(parts[1..], exact, w), secret);
    }
  }

  lemma NoneAcrossNewline(a: string, b: string, u: string)
    requires RecordEnd(a, |a|) && '\n' !in u && !Contains(a, u) && !Contains(b, u)
    ensures !Contains(a + b, u)
  {
    forall p: nat | OccursAt(a + b, p, u) ensures false {
      if p + |u| <= |a| {
        assert (a + b)[p..p + |u|] == a[p..p + |u|];
        assert OccursAt(a, p, u);
      } else if p >= |a| {
        assert (a + b)[p..p + |u|] == b[p - |a|..p - |a| + |u|];
        assert OccursAt(b, p - |a|, u);
      } else {
        OccursChar(a + b, p, u, |a| - 1 - p);
      }
    }
  }

  /** The class of inputs where the stream differs is not empty: a newline between `Bearer` and
      its token. The token is then left readable. */
  lemma BearerOverNewlineLeaks(w: Words)
    ensures StreamOutput("", ["Bearer \n", "abc"], [], w, 100) == Some("Bearer \nabc")
    ensures Redacted("Bearer \nabc", [], w) == "***********"
  {
    LeakStreamed(w);
    LeakOneShot(w);
  }

  lemma LeakStreamed(w: Words)
    ensures StreamOutput("", ["Bearer \n", "abc"], [], w, 100) == Some("Bearer \nabc")
  {
    hide Redacted;
    var first, second := "Bearer \n", "abc";
    ShortTextUntouched(w, first);
    ShortTextUntouched(w, second);
    assert "" + first == first && "" + second == second;
    var none: seq<string> := [];
    assert [first, second][1..] == [second] && [second][1..] == none;
    assert ReadyLength(first) == 8 && first[8..] == "" && first[..8] == first;
    assert LastNewline(second).None?;
    assert ReadyLength(second) == 0 && second[0..] == second && second[..0] == "";
    assert Size(second) == 3 by {
      assert second[1..] == "bc" && "bc"[1..] == "c" && "c"[1..] == "";
    }
    assert StreamOutput(second, [], [], w, 100) == Some(second);
    assert StreamOutput("", [second], [], w, 100) == Some("" + second);
    assert StreamOutput("", [first, second], [], w, 100) == Some(first + second);
    assert first + second == "Bearer \nabc";
  }

  lemma LeakOneShot(w: Words)
    ensures Redacted("Bearer \nabc", [], w) == "***********"
  {
    var t := "Bearer \nabc";
    LeakMatch(w, t);
    MarksStep(Bearer(w), t, 0);
    assert Substitute(Bearer(w), t) == "***********" by {
      hide Marks;
      assert forall k :: 0 <= k < 11 ==> Width(t[k]) == 1;
    }
    OtherPatternsIdle(w, "***********");
  }

  lemma LeakMatch(w: Words, t: string)
    requires t == "Bearer \nabc"
    ensures MatchAt(Bearer(w), t, 0) == Match(0, 11)
  {
    assert WordAt(t, 0, "bearer");
    assert Run(Space, t, 8) == 8 && Run(Space, t, 7) == 8 && Run(Space, t, 6) == 8;
    assert Run(BearerToken, t, 11) == 11 && Run(BearerToken, t, 10) == 11;
    assert Run(BearerToken, t, 9) == 11 && Run(BearerToken, t, 8) == 11;
  }
}
