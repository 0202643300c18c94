/** Python's `str` as a sequence of Unicode scalar values, with the few `str` methods the
    modelled code uses. */
module PyText {

  datatype Option<+T> = None | Some(value: T)

  /** `str.isspace` on one character: the exact Unicode set Python uses for it, for `strip`
      and for `\s`. */
  predicate IsSpace(c: char) {
    var n := c as int;
    || 0x09 <= n <= 0x0D || 0x1C <= n <= 0x20 || n == 0x85 || n == 0xA0 || n == 0x1680
    || 0x2000 <= n <= 0x200A || n == 0x2028 || n == 0x2029 || n == 0x202F || n == 0x205F || n == 0x3000
  }

  predicate AllSpace(s: string) {
    forall k :: 0 <= k < |s| ==> IsSpace(s[k])
  }

  /** First position from `i` on that holds no whitespace. */
  function SkipSpace(s: string, i: nat): (j: nat)
    requires i <= |s|
    ensures i <= j <= |s|
    ensures forall k :: i <= k < j ==> IsSpace(s[k])
    ensures j < |s| ==> !IsSpace(s[j])
    decreases |s| - i
  {
    if i < |s| && IsSpace(s[i]) then SkipSpace(s, i + 1) else i
  }

  /** The end of `s[i..j]` once trailing whitespace is dropped. */
  function DropSpace(s: string, i: nat, j: nat): (e: nat)
    requires i <= j <= |s|
    ensures i <= e <= j
    ensures forall k :: e <= k < j ==> IsSpace(s[k])
    ensures i < e ==> !IsSpace(s[e - 1])
  {
    if i < j && IsSpace(s[j - 1]) then DropSpace(s, i, j - 1) else j
  }

  function RStrip(s: string): string {
    s[..DropSpace(s, 0, |s|)]
  }

  function Strip(s: string): string {
    var a := SkipSpace(s, 0);
    s[a..DropSpace(s, a, |s|)]
  }

  /** Nothing to strip at either end. */
  predicate Trimmed(s: string) {
    s != "" ==> !IsSpace(s[0]) && !IsSpace(s[|s| - 1])
  }

  /** What a normaliser that strips and refuses blanks lets through. */
  predicate Solid(s: string) { s != "" && Trimmed(s) }

  /** `strip` removes an all-whitespace prefix and suffix and leaves a trimmed core. */
  lemma StripParts(s: string) returns (a: nat, b: nat)
    ensures a <= b <= |s| && Strip(s) == s[a..b]
    ensures forall k :: 0 <= k < a || b <= k < |s| ==> IsSpace(s[k])
    ensures Trimmed(Strip(s))
  {
    a := SkipSpace(s, 0);
    b := DropSpace(s, a, |s|);
  }

  lemma StripIsSolid(s: string)
    requires Strip(s) != ""
    ensures Solid(Strip(s))
  {
    var a, b := StripParts(s);
  }

  /** The core is the only trimmed text between whitespace. */
  lemma StripOfSlice(s: string, a: nat, b: nat)
    requires a < b <= |s| && !IsSpace(s[a]) && !IsSpace(s[b - 1])
    requires forall k :: 0 <= k < a || b <= k < |s| ==> IsSpace(s[k])
    ensures Strip(s) == s[a..b]
  {
    var l := SkipSpace(s, 0);
    assert l == a;
    assert DropSpace(s, l, |s|) == b;
  }

  lemma StripTrimmed(t: string)
    requires Trimmed(t)
    ensures Strip(t) == t
  {
    if t != "" {
      StripOfSlice(t, 0, |t|);
    }
  }

  lemma StripIdempotent(s: string)
    ensures Strip(Strip(s)) == Strip(s)
  {
    var a, b := StripParts(s);
    StripTrimmed(Strip(s));
  }

  /** `s` is `core` with whitespace around it. */
  ghost predicate Padded(s: string, core: string) {
    exists a, b :: AllSpace(a) && AllSpace(b) && s == a + core + b
  }

  /** What `strip` returns is the trimmed text that the whitespace is around. */
  lemma StripExactly(s: string, core: string)
    ensures Strip(s) == core <==> Trimmed(core) && Padded(s, core)
  {
    hide Padded, Strip, Trimmed;
    if Strip(s) == core {
      StripIsPadded(s);
    }
    if Trimmed(core) && Padded(s, core) {
      PaddedStrips(s, core);
    }
  }

  lemma StripIsPadded(s: string)
    ensures Trimmed(Strip(s)) && Padded(s, Strip(s))
  {
    hide Strip;
    var i, j := StripParts(s);
    assert AllSpace(s[..i]) && AllSpace(s[j..]);
    assert s == s[..i] + Strip(s) + s[j..];
  }

  lemma PaddedStrips(s: string, core: string)
    requires Trimmed(core) && Padded(s, core)
    ensures Strip(s) == core
  {
    hide Strip;
    var a, b :| AllSpace(a) && AllSpace(b) && s == a + core + b;
    if core == "" {
      assert AllSpace(s);
      StripBlank(s);
    } else {
      assert s[|a|..|a| + |core|] == core;
      StripOfSlice(s, |a|, |a| + |core|);
    }
  }

  /** `rstrip` takes the whitespace at the end and nothing else. */
  lemma RStripExactly(s: string, t: string)
    ensures RStrip(s) == t <==> (t == "" || !IsSpace(t[|t| - 1])) && exists pad :: AllSpace(pad) && s == t + pad
  {
    hide IsSpace;
    var e := DropSpace(s, 0, |s|);
    if RStrip(s) == t {
      assert s == t + s[e..] && AllSpace(s[e..]);
    }
    if (t == "" || !IsSpace(t[|t| - 1])) && exists pad :: AllSpace(pad) && s == t + pad {
      var pad :| AllSpace(pad) && s == t + pad;
      assert forall k :: |t| <= k < |s| ==> s[k] == pad[k - |t|];
      assert t != "" ==> s[|t| - 1] == t[|t| - 1];
      assert e == |t|;
    }
  }

  lemma StripBlank(s: string)
    requires AllSpace(s)
    ensures Strip(s) == ""
  {
  }

  /** `t` stands in `s` at position `i`. */
  predicate OccursAt(s: string, i: nat, t: string) {
    i + |t| <= |s| && s[i..i + |t|] == t
  }

  lemma OccursInside(s: string, i: nat, t: string)
    requires OccursAt(s, i, t)
    ensures i + |t| <= |s|
  {
  }

  lemma OccursChar(s: string, i: nat, t: string, k: nat)
    requires OccursAt(s, i, t) && k < |t|
    ensures i + k < |s| && s[i + k] == t[k]
  {
    assert s[i..i + |t|][k] == s[i + k];
  }

  ghost predicate Contains(s: string, t: string) {
    exists i: nat :: OccursAt(s, i, t)
  }

  lemma OccursAtSplit(s: string, i: nat, t: string, u: string)
    ensures OccursAt(s, i, t + u) <==> OccursAt(s, i, t) && OccursAt(s, i + |t|, u)
  {
    if i + |t| + |u| <= |s| {
      assert s[i..i + |t + u|] == s[i..i + |t|] + s[i + |t|..i + |t| + |u|];
      if OccursAt(s, i, t + u) {
        assert s[i..i + |t|] == (t + u)[..|t|] == t;
        assert s[i + |t|..i + |t| + |u|] == (t + u)[|t|..] == u;
      }
    }
  }

  lemma SliceOfSlice(s: string, a: nat, b: nat, i: nat, j: nat)
    requires a <= b <= |s| && i <= j <= b - a
    ensures s[a..b][i..j] == s[a + i..a + j]
  {
    var x, y := s[a..b][i..j], s[a + i..a + j];
    assert |x| == |y|;
    forall k | 0 <= k < |x| ensures x[k] == y[k] {
      assert x[k] == s[a..b][i + k] == s[a + (i + k)];
      assert y[k] == s[a + i + k];
    }
  }

  // ---------------------------------------------------------------------------------------
  // `str.splitlines`

  /** The characters `splitlines` breaks at. */
  predicate IsLineBreak(c: char) {
    var n := c as int;
    0x0A <= n <= 0x0D || 0x1C <= n <= 0x1E || n == 0x85 || n == 0x2028 || n == 0x2029
  }

  /** Where the line that starts at `i` ends. */
  function BreakFrom(s: string, i: nat): (e: nat)
    requires i <= |s|
    ensures i <= e <= |s| && (e < |s| ==> IsLineBreak(s[e]))
    ensures forall k :: i <= k < e ==> !IsLineBreak(s[k])
    decreases |s| - i
  {
    if i < |s| && !IsLineBreak(s[i]) then BreakFrom(s, i + 1) else i
  }

  /** Behind the break at `e`: a carriage return takes the newline after it along. */
  function AfterBreak(s: string, e: nat): (i: nat)
    requires e < |s|
    ensures e < i <= |s|
  {
    if s[e] == '\r' && e + 1 < |s| && s[e + 1] == '\n' then e + 2 else e + 1
  }

  /** `len(s[i:].splitlines())`. */
  function LinesFrom(s: string, i: nat): nat
    requires i <= |s|
    decreases |s| - i
  {
    if i == |s| then 0
    else
      var e := BreakFrom(s, i);
      if e == |s| then 1 else 1 + LinesFrom(s, AfterBreak(s, e))
  }

  function PhysicalLines(s: string): nat { LinesFrom(s, 0) }

  function Newlines(s: string): nat {
    if s == "" then 0 else (if s[0] == '\n' then 1 else 0) + Newlines(s[1..])
  }

  lemma {:induction false} NewlinesAppend(a: string, b: string)
    ensures Newlines(a + b) == Newlines(a) + Newlines(b)
  {
    if a == "" {
      assert a + b == b;
    } else {
      assert (a + b)[1..] == a[1..] + b;
      NewlinesAppend(a[1..], b);
    }
  }

  lemma {:induction false} NoNewlines(s: string)
    requires forall k :: 0 <= k < |s| ==> s[k] != '\n'
    ensures Newlines(s) == 0
  {
    if s != "" {
      NoNewlines(s[1..]);
    }
  }

  /** Every newline ends a line, and so does the end of a text that does not end in one. */
  lemma {:induction false} NewlinesEndLines(s: string, i: nat)
    requires i <= |s|
    ensures Newlines(s[i..]) + (if i < |s| && s[|s| - 1] != '\n' then 1 else 0) <= LinesFrom(s, i)
    decreases |s| - i
  {
    if i < |s| {
      var e := BreakFrom(s, i);
      assert forall k :: 0 <= k < e - i ==> s[i..e][k] == s[i + k];
      NoNewlines(s[i..e]);
      assert s[i..] == s[i..e] + s[e..];
      NewlinesAppend(s[i..e], s[e..]);
      if e < |s| {
        NewlinesAtBreak(s, e);
        NewlinesEndLines(s, AfterBreak(s, e));
      }
    }
  }

  lemma NewlinesAtBreak(s: string, e: nat)
    requires e < |s|
    ensures Newlines(s[e..]) <= 1 + Newlines(s[AfterBreak(s, e)..])
    ensures AfterBreak(s, e) == |s| && s[|s| - 1] != '\n' ==> Newlines(s[e..]) == 0
  {
    assert s[e..][1..] == s[e + 1..];
    if s[e] == '\r' && e + 1 < |s| && s[e + 1] == '\n' {
      assert s[e + 1..][1..] == s[e + 2..];
    }
  }

  /** `str.lower` for ASCII letters, plus the Kelvin sign, the one other character whose
      lower case is an ASCII letter. */
  function LowerChar(c: char): char {
    if 'A' <= c <= 'Z' then (c as int + 32) as char
    else if c == '\U{212A}' then 'k'
    else c
  }

  function Lower(s: string): (r: string)
    ensures |r| == |s| && forall k :: 0 <= k < |s| ==> r[k] == LowerChar(s[k])
  {
    seq(|s|, k requires 0 <= k < |s| => LowerChar(s[k]))
  }

  const CAPITALS := "ABCDEFGHIJKLMNOPQRSTUVWXYZ"
  const SMALLS := "abcdefghijklmnopqrstuvwxyz"

  /** `l` is the lower case of `c`. */
  predicate SameLetter(c: char, l: char) {
    || (exists k :: 0 <= k < 26 && c == CAPITALS[k] && l == SMALLS[k])
    || (c == '\U{212A}' && l == 'k')
    || (c == l && c !in CAPITALS && c != '\U{212A}')
  }

  predicate SameLetters(s: string, t: string) {
    |s| == |t| && forall k :: 0 <= k < |s| ==> SameLetter(s[k], t[k])
  }

  lemma CapitalsAt(k: nat)
    requires k < 26
    ensures CAPITALS[k] as int == 'A' as int + k && SMALLS[k] as int == 'a' as int + k
  {
  }

  lemma CapitalExactly(c: char, l: char)
    ensures c in CAPITALS <==> 'A' <= c <= 'Z'
    ensures (exists k :: 0 <= k < 26 && c == CAPITALS[k] && l == SMALLS[k]) <==> 'A' <= c <= 'Z' && l as int == c as int + 32
  {
    forall k | 0 <= k < 26 ensures CAPITALS[k] as int == 'A' as int + k && SMALLS[k] as int == 'a' as int + k {
      CapitalsAt(k);
    }
    assert |CAPITALS| == 26 && |SMALLS| == 26;
    hide CAPITALS, SMALLS;
    if 'A' <= c <= 'Z' {
      var k := c as int - 'A' as int;
      assert CAPITALS[k] == c && SMALLS[k] as int == c as int + 32;
    }
  }

  lemma LowerCharExactly(c: char, l: char)
    ensures LowerChar(c) == l <==> SameLetter(c, l)
  {
    CapitalExactly(c, l);
    hide CAPITALS, SMALLS;
  }

  lemma LowerExactly(s: string, t: string)
    ensures Lower(s) == t <==> SameLetters(s, t)
  {
    hide LowerChar, SameLetter;
    forall k | 0 <= k < |s| && k < |t| ensures LowerChar(s[k]) == t[k] <==> SameLetter(s[k], t[k]) {
      LowerCharExactly(s[k], t[k]);
    }
  }

  /** `sep.join(rows)`. */
  function Join(rows: seq<string>, sep: string): string {
    if |rows| == 0 then "" else if |rows| == 1 then rows[0] else rows[0] + sep + Join(rows[1..], sep)
  }

  function Concat(parts: seq<string>): string {
    if parts == [] then "" else parts[0] + Concat(parts[1..])
  }

  lemma Regroup(a: string, b: string, c: string)
    ensures a + (b + c) == a + b + c
  {
  }

  lemma {:induction false} ConcatAppend(a: seq<string>, b: seq<string>)
    ensures Concat(a + b) == Concat(a) + Concat(b)
  {
    if a == [] {
      assert a + b == b;
    } else {
      ConcatAppend(a[1..], b);
      assert (a + b)[1..] == a[1..] + b;
      Regroup(a[0], Concat(a[1..]), Concat(b));
    }
  }
}
