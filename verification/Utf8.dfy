/** UTF-8 (RFC 3629, section 3): encoding, and decoding that ignores what is malformed. */
module Utf8 {
  import opened PyText

  newtype Byte = b: int | 0 <= b < 256

  /** `len(c.encode("utf-8"))`. */
  function Width(c: char): (w: nat)
    ensures 1 <= w <= 4
  {
    var n := c as int;
    if n < 0x80 then 1 else if n < 0x800 then 2 else if n < 0x1_0000 then 3 else 4
  }

  /** `len(s.encode("utf-8"))`. */
  function Size(s: string): nat {
    if s == "" then 0 else Width(s[0]) + Size(s[1..])
  }

  function Continuation(n: nat): Byte {
    (0x80 + n % 0x40) as Byte
  }

  function EncodeChar(c: char): (e: seq<Byte>)
    ensures |e| == Width(c)
  {
    var n := c as int;
    if n < 0x80 then [n as Byte]
    else if n < 0x800 then [(0xC0 + n / 0x40) as Byte, Continuation(n)]
    else if n < 0x1_0000 then [(0xE0 + n / 0x1000) as Byte, Continuation(n / 0x40), Continuation(n)]
    else [(0xF0 + n / 0x4_0000) as Byte, Continuation(n / 0x1000), Continuation(n / 0x40), Continuation(n)]
  }

  function Encode(s: string): (e: seq<Byte>)
    ensures |e| == Size(s)
  {
    if s == "" then [] else EncodeChar(s[0]) + Encode(s[1..])
  }

  predicate IsContinuation(b: Byte) { 0x80 <= b < 0xC0 }

  /** The code point a well-formed sequence at `i` stands for, with its length: no overlong
      form, no surrogate, nothing above U+10FFFF. */
  function CodePointAt(b: seq<Byte>, i: nat): (r: Option<(int, nat)>)
    ensures r.Some? ==> 1 <= r.value.1 <= 4 && i + r.value.1 <= |b|
    ensures r.Some? ==> 0 <= r.value.0 < 0xD800 || 0xE000 <= r.value.0 < 0x11_0000
  {
    if i >= |b| then None
    else
      var lead := b[i] as int;
      if lead < 0x80 then Some((lead, 1))
      else if 0xC2 <= lead < 0xE0 && i + 1 < |b| && IsContinuation(b[i + 1]) then
        Some(((lead - 0xC0) * 0x40 + (b[i + 1] as int - 0x80), 2))
      else if 0xE0 <= lead < 0xF0 && i + 2 < |b| && IsContinuation(b[i + 1]) && IsContinuation(b[i + 2]) then
        var n := ((lead - 0xE0) * 0x40 + (b[i + 1] as int - 0x80)) * 0x40 + (b[i + 2] as int - 0x80);
        if n < 0x800 || 0xD800 <= n < 0xE000 then None else Some((n, 3))
      else if 0xF0 <= lead < 0xF5 && i + 3 < |b|
        && IsContinuation(b[i + 1]) && IsContinuation(b[i + 2]) && IsContinuation(b[i + 3]) then
        var n := (((lead - 0xF0) * 0x40 + (b[i + 1] as int - 0x80)) * 0x40 + (b[i + 2] as int - 0x80)) * 0x40
          + (b[i + 3] as int - 0x80);
        if n < 0x1_0000 || n >= 0x11_0000 then None else Some((n, 4))
      else None
  }

  /** `b[i:].decode("utf-8", errors="ignore")`: a byte that starts no well-formed sequence is
      dropped, and so is each continuation byte that then stands alone. */
  function DecodeIgnore(b: seq<Byte>, i: nat): string
    requires i <= |b|
    decreases |b| - i
  {
    if i == |b| then ""
    else
      match CodePointAt(b, i)
      case Some((n, w)) => [n as char] + DecodeIgnore(b, i + w)
      case None => DecodeIgnore(b, i + 1)
  }

  lemma EncodedCharDecodes(b: seq<Byte>, i: nat, c: char)
    requires i + Width(c) <= |b| && forall k :: 0 <= k < Width(c) ==> b[i + k] == EncodeChar(c)[k]
    ensures CodePointAt(b, i) == Some((c as int, Width(c)))
  {
    var w := Width(c);
    assert b[i + 0] == EncodeChar(c)[0];
    if w == 2 {
      assert b[i + 1] == EncodeChar(c)[1];
    } else if w == 3 {
      ThreeBytesDecode(b, i, c);
    } else if w == 4 {
      FourBytesDecode(b, i, c);
    }
  }

  lemma ThreeBytesDecode(b: seq<Byte>, i: nat, c: char)
    requires Width(c) == 3 && i + 3 <= |b| && forall k :: 0 <= k < 3 ==> b[i + k] == EncodeChar(c)[k]
    ensures CodePointAt(b, i) == Some((c as int, 3))
  {
    var n := c as int;
    var e := EncodeChar(c);
    assert b[i + 0] == e[0] && b[i + 1] == e[1] && b[i + 2] == e[2];
    assert e == [(0xE0 + n / 0x1000) as Byte, Continuation(n / 0x40), Continuation(n)];
    assert n == (n / 0x1000 * 0x40 + n / 0x40 % 0x40) * 0x40 + n % 0x40;
  }

  lemma FourBytesDecode(b: seq<Byte>, i: nat, c: char)
    requires Width(c) == 4 && i + 4 <= |b| && forall k :: 0 <= k < 4 ==> b[i + k] == EncodeChar(c)[k]
    ensures CodePointAt(b, i) == Some((c as int, 4))
  {
    var n := c as int;
    var e := EncodeChar(c);
    assert b[i + 0] == e[0] && b[i + 1] == e[1] && b[i + 2] == e[2] && b[i + 3] == e[3];
    assert e == [(0xF0 + n / 0x4_0000) as Byte, Continuation(n / 0x1000), Continuation(n / 0x40), Continuation(n)];
    assert n == ((n / 0x4_0000 * 0x40 + n / 0x1000 % 0x40) * 0x40 + n / 0x40 % 0x40) * 0x40 + n % 0x40;
  }

  /** The bytes after a character's first one start nothing. */
  lemma InnerBytesDropped(b: seq<Byte>, i: nat, c: char, k: nat)
    requires i + Width(c) <= |b| && 1 <= k < Width(c) && b[i + k] == EncodeChar(c)[k]
    ensures CodePointAt(b, i + k).None?
  {
  }

  /** How many characters go when the first `skip` bytes go: a character cut in two goes
      whole. */
  function CharsCut(s: string, skip: nat): (k: nat)
    requires skip <= Size(s)
    ensures k <= |s|
  {
    if skip == 0 then 0
    else if Width(s[0]) <= skip then 1 + CharsCut(s[1..], skip - Width(s[0]))
    else 1
  }

  lemma {:induction false} DecodeInner(b: seq<Byte>, i: nat, c: char, k: nat)
    requires i + Width(c) <= |b| && 1 <= k <= Width(c)
    requires forall m :: 0 <= m < Width(c) ==> b[i + m] == EncodeChar(c)[m]
    ensures DecodeIgnore(b, i + k) == DecodeIgnore(b, i + Width(c))
    decreases Width(c) - k
  {
    if k < Width(c) {
      InnerBytesDropped(b, i, c, k);
      DecodeInner(b, i, c, k + 1);
    }
  }

  /** Decoding from any byte of an encoded text gives the characters that are whole from there
      on. `i` is where the encoding of `s` starts in `b`. */
  lemma {:induction false} DecodeSuffix(b: seq<Byte>, i: nat, s: string, skip: nat)
    requires i + Size(s) == |b| && b[i..] == Encode(s) && skip <= Size(s)
    ensures DecodeIgnore(b, i + skip) == s[CharsCut(s, skip)..]
    decreases |s|, skip
  {
    hide CodePointAt, EncodeChar, Width;
    if s != "" {
      var c, w := s[0], Width(s[0]);
      forall m | 0 <= m < w ensures b[i + m] == EncodeChar(c)[m] {
        assert b[i + m] == b[i..][m] == Encode(s)[m];
      }
      assert b[i + w..] == b[i..][w..] == Encode(s[1..]);
      DecodeSuffix(b, i + w, s[1..], if skip >= w then skip - w else 0);
      if skip == 0 {
        EncodedCharDecodes(b, i, c);
        assert s == [c] + s[1..];
      } else if skip < w {
        DecodeInner(b, i, c, skip);
      }
    }
  }

  lemma DecodeOfSlice(b: seq<Byte>, p: nat, i: nat)
    requires p <= i <= |b|
    ensures DecodeIgnore(b[p..], i - p) == DecodeIgnore(b, i)
    decreases |b| - i
  {
    hide CodePointAt;
    if i < |b| {
      CodePointOfSlice(b, p, i);
      match CodePointAt(b, i) {
        case Some((n, w)) => DecodeOfSlice(b, p, i + w);
        case None => DecodeOfSlice(b, p, i + 1);
      }
    }
  }

  lemma CodePointOfSlice(b: seq<Byte>, p: nat, i: nat)
    requires p <= i < |b|
    ensures CodePointAt(b[p..], i - p) == CodePointAt(b, i)
  {
    var t := b[p..];
    assert t[i - p] == b[i];
    if i + 1 < |b| { assert t[i - p + 1] == b[i + 1]; }
    if i + 2 < |b| { assert t[i - p + 2] == b[i + 2]; }
    if i + 3 < |b| { assert t[i - p + 3] == b[i + 3]; }
  }

  lemma {:induction false} SizeAppend(a: string, b: string)
    ensures Size(a + b) == Size(a) + Size(b)
  {
    if a == "" {
      assert a + b == b;
    } else {
      SizeAppend(a[1..], b);
      assert (a + b)[1..] == a[1..] + b;
    }
  }

  /** The cut keeps all it can: what is kept fits, with less than one character to spare. */
  lemma {:induction false} CutIsTight(s: string, skip: nat)
    requires skip <= Size(s)
    ensures var k := CharsCut(s, skip);
      && Size(s[k..]) <= Size(s) - skip
      && (k > 0 ==> Size(s[k..]) + Width(s[k - 1]) > Size(s) - skip)
    decreases |s|
  {
    if skip > 0 {
      var k := CharsCut(s, skip);
      if Width(s[0]) <= skip {
        CutIsTight(s[1..], skip - Width(s[0]));
        assert s[1..][k - 1..] == s[k..];
        if k == 1 {
          assert s[1..] == s[k..];
        }
      } else {
        assert s[1..] == s[k..];
      }
    }
  }
}
