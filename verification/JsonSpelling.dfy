/** The ways to write a JSON value (RFC 8259, sections 2 to 7, and the names Python's decoder
    adds), stated without the decoder; and Python's printer as one of them. */
module JsonSpelling {
  import opened PyText
  import opened Json

  // ---------------------------------------------------------------------------------------
  // Characters of a string

  predicate HexDigit(c: char, v: nat) {
    v < 16 && (c == "0123456789abcdef"[v] || c == "0123456789ABCDEF"[v])
  }

  /** `t` is a `\u` escape for the code unit `n`. */
  ghost predicate Unit(t: string, n: int) {
    && |t| == 6 && t[0] == '\\' && t[1] == 'u'
    && exists a: nat, b: nat, c: nat, d: nat :: HexDigit(t[2], a) && HexDigit(t[3], b) && HexDigit(t[4], c) && HexDigit(t[5], d)
         && n == a * 4096 + b * 256 + c * 16 + d
  }

  /** The escapes of one letter. */
  predicate Letter(letter: char, c: char) {
    (letter, c) in {('\"', '\"'), ('\\', '\\'), ('/', '/'), ('b', '\U{8}'), ('f', '\U{C}'), ('n', '\n'), ('r', '\r'), ('t', '\t')}
  }

  ghost predicate High(t: string) { exists n :: Unit(t, n) && 0xD800 <= n <= 0xDBFF }

  ghost predicate Low(t: string) { exists n :: Unit(t, n) && 0xDC00 <= n <= 0xDFFF }

  /** `t` is a surrogate pair for a character beyond the sixteen bits. */
  ghost predicate Pair(t: string, c: char) {
    && |t| == 12
    && exists hi, lo :: Unit(t[..6], hi) && Unit(t[6..], lo) && 0xD800 <= hi <= 0xDBFF && 0xDC00 <= lo <= 0xDFFF
         && c as int == 0x1_0000 + (hi - 0xD800) * 0x400 + (lo - 0xDC00)
  }

  /** `t` writes the character: itself, a letter escape, an escape of its code, or a surrogate
      pair. A surrogate alone, which is no character, is read as U+FFFD. */
  ghost predicate Glyph(t: string, c: char) {
    || (t == [c] && c >= ' ' && c != '\"' && c != '\\')
    || (|t| == 2 && t[0] == '\\' && Letter(t[1], c))
    || Unit(t, c as int)
    || Pair(t, c)
    || ((High(t) || Low(t)) && c == '\U{FFFD}')
  }

  /** The glyphs write the text one by one, and no two of them read as a pair. */
  ghost predicate Glyphs(glyphs: seq<string>, text: string) {
    && |glyphs| == |text| && (forall k :: 0 <= k < |text| ==> Glyph(glyphs[k], text[k]))
    && forall k :: 0 < k < |text| ==> !(High(glyphs[k - 1]) && Low(glyphs[k]))
  }

  function QuotedText(glyphs: seq<string>): string { "\"" + (Concat(glyphs) + "\"") }

  // ---------------------------------------------------------------------------------------
  // Numbers and names

  predicate AllDigits(t: string) { forall k :: 0 <= k < |t| ==> IsDigit(t[k]) }

  /** The parts of a number; an empty fraction or exponent is none. */
  datatype NumberParts = NumberParts(minus: bool, whole: string, fraction: string, exponent: string) {
    predicate Valid() {
      && whole != "" && AllDigits(whole) && (|whole| > 1 ==> whole[0] != '0')
      && (fraction != "" ==> |fraction| > 1 && fraction[0] == '.' && AllDigits(fraction[1..]))
      && (exponent != "" ==>
           exponent[0] in {'e', 'E'}
           && var d := if |exponent| > 1 && exponent[1] in {'+', '-'} then 2 else 1;
              |exponent| > d && AllDigits(exponent[d..]))
    }
    function Text(): string { (if minus then "-" else "") + whole + fraction + exponent }
  }

  /** A number with a fraction, an exponent or both. */
  ghost predicate FloatText(t: string) {
    exists p: NumberParts :: p.Valid() && p.Text() == t && (p.fraction != "" || p.exponent != "")
  }

  function DigitChar(d: nat): char
    requires d < 10
  {
    ('0' as int + d) as char
  }

  function PrintNat(n: nat): (t: string)
    ensures t != "" && forall k :: 0 <= k < |t| ==> IsDigit(t[k])
  {
    if n < 10 then [DigitChar(n)] else PrintNat(n / 10) + [DigitChar(n % 10)]
  }

  function PrintInt(n: int): string {
    if n < 0 then "-" + PrintNat(-n) else PrintNat(n)
  }

  /** `t` writes a value that is no string and holds no other values. A float is kept as its
      token. */
  ghost predicate ScalarText(t: string, v: Json) {
    match v
    case Null => t == "null"
    case Bool(b) => t == if b then "true" else "false"
    case Int(n) => t == PrintInt(n) || (n == 0 && t == "-0")
    case Float(token) => t == token && (t in {"NaN", "Infinity", "-Infinity"} || FloatText(t))
    case _ => false
  }

  // ---------------------------------------------------------------------------------------
  // Values

  /** A value as it is written. */
  datatype Written =
    | Scalar(text: string, value: Json)
    | Quoted(glyphs: seq<string>, s: string)
    | Listed(gap: string, items: seq<Item>)
    | Braced(gap: string, members: seq<Member>)

  /** An element with the whitespace around it. */
  datatype Item = Item(before: string, w: Written, after: string)

  /** A member with the whitespace around its name and its value. */
  datatype Member = Member(before: string, glyphs: seq<string>, name: string, colon: string, gap: string, w: Written, after: string)

  ghost predicate Valid(w: Written) {
    match w
    case Scalar(t, v) => ScalarText(t, v)
    case Quoted(glyphs, s) => Glyphs(glyphs, s)
    case Listed(gap, items) =>
      AllWs(gap) && forall k :: 0 <= k < |items| ==> AllWs(items[k].before) && Valid(items[k].w) && AllWs(items[k].after)
    case Braced(gap, members) =>
      AllWs(gap) && forall k :: 0 <= k < |members| ==> NameValid(members[k]) && Valid(members[k].w) && AllWs(members[k].after)
  }

  ghost predicate NameValid(m: Member) {
    AllWs(m.before) && Glyphs(m.glyphs, m.name) && AllWs(m.colon) && AllWs(m.gap)
  }

  function Meaning(w: Written): Json {
    match w
    case Scalar(_, v) => v
    case Quoted(_, s) => Str(s)
    case Listed(_, items) => Arr(seq(|items|, k requires 0 <= k < |items| => Meaning(items[k].w)))
    case Braced(_, members) =>
      Obj(seq(|members|, k requires 0 <= k < |members| => (members[k].name, Meaning(members[k].w))))
  }

  function Text(w: Written): string {
    match w
    case Scalar(t, _) => t
    case Quoted(glyphs, _) => QuotedText(glyphs)
    case Listed(gap, items) => "[" + if items == [] then gap + "]" else ItemsText(items)
    case Braced(gap, members) => "{" + if members == [] then gap + "}" else MembersText(members)
  }

  /** The elements, and the bracket behind them. */
  function ItemsText(items: seq<Item>): string
    requires items != []
  {
    items[0].before + (Text(items[0].w) + (items[0].after + if |items| == 1 then "]" else "," + ItemsText(items[1..])))
  }

  function MembersText(members: seq<Member>): string
    requires members != []
  {
    members[0].before + (MemberText(members[0]) + (members[0].after + if |members| == 1 then "}" else "," + MembersText(members[1..])))
  }

  function MemberText(m: Member): string {
    QuotedText(m.glyphs) + (m.colon + (":" + (m.gap + Text(m.w))))
  }

  // ---------------------------------------------------------------------------------------
  // The printer: `json.dumps(value, ensure_ascii=False, separators=...)`

  /** Whitespace printed after a comma and after a colon; Python's default is one space each,
      the compact separators have none. */
  datatype Spacing = Spacing(afterComma: string, afterColon: string) {
    predicate Valid() { AllWs(afterComma) && AllWs(afterColon) }
  }

  function HexChar(d: nat): char
    requires d < 16
  {
    "0123456789abcdef"[d]
  }

  function PrintChar(c: char): string {
    match c
    case '\"' => "\\\""
    case '\\' => "\\\\"
    case '\n' => "\\n"
    case '\r' => "\\r"
    case '\t' => "\\t"
    case '\U{C}' => "\\f"
    case '\U{8}' => "\\b"
    case _ => if c < ' ' then "\\u00" + [HexChar(c as int / 16), HexChar(c as int % 16)] else [c]
  }

  function PrintChars(s: string): (r: seq<string>)
    ensures |r| == |s| && forall k :: 0 <= k < |s| ==> r[k] == PrintChar(s[k])
  {
    seq(|s|, k requires 0 <= k < |s| => PrintChar(s[k]))
  }

  /** The value as the printer writes it. */
  function Printed(v: Json, sp: Spacing): Written {
    match v
    case Null => Scalar("null", v)
    case Bool(b) => Scalar(if b then "true" else "false", v)
    case Int(n) => Scalar(PrintInt(n), v)
    case Float(token) => Scalar(token, v)
    case Str(s) => Quoted(PrintChars(s), s)
    case Arr(items) =>
      Listed("", seq(|items|, k requires 0 <= k < |items| =>
        Item(if k == 0 then "" else sp.afterComma, Printed(items[k], sp), "")))
    case Obj(members) =>
      Braced("", seq(|members|, k requires 0 <= k < |members| =>
        Member(if k == 0 then "" else sp.afterComma, PrintChars(members[k].0), members[k].0, "", sp.afterColon,
               Printed(members[k].1, sp), "")))
  }

  function Print(v: Json, sp: Spacing): string { Text(Printed(v, sp)) }

  /** A float is kept as its token, so a value that came from somewhere else must hold the text
      of one. */
  ghost predicate Printable(v: Json) {
    match v
    case Float(token) => token in {"NaN", "Infinity", "-Infinity"} || FloatText(token)
    case Arr(items) => forall k :: 0 <= k < |items| ==> Printable(items[k])
    case Obj(members) => forall k :: 0 <= k < |members| ==> Printable(members[k].1)
    case _ => true
  }
}
