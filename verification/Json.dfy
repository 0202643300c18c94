/** JSON values (RFC 8259) and Python's decoder for them, as a function of text and position. */
module Json {
  import opened PyText

  /** A decoded value. An object keeps its members in textual order, so a repeated name is
      still visible; `Get` resolves it as a Python dict does. A non-integer number keeps its
      token. */
  datatype Json =
    | Null
    | Bool(b: bool)
    | Int(n: int)
    | Float(token: string)
    | Str(s: string)
    | Arr(items: seq<Json>)
    | Obj(members: seq<(string, Json)>)

  /** The result of decoding at a position: a value and the position just past it. */
  datatype Parsed<+T> = Fail | At(value: T, next: nat)

  /** `dict.get`: the last member of that name. */
  function Get(members: seq<(string, Json)>, name: string): Option<Json> {
    if members == [] then None
    else
      var last := members[|members| - 1];
      if last.0 == name then Some(last.1) else Get(members[..|members| - 1], name)
  }

  /** `dict.get` with `None` for a missing name. */
  function Field(members: seq<(string, Json)>, name: string): Json {
    match Get(members, name)
    case Some(v) => v
    case None => Null
  }

  lemma {:induction false} GetAt(members: seq<(string, Json)>, k: nat)
    requires k < |members| && forall j :: k < j < |members| ==> members[j].0 != members[k].0
    ensures Get(members, members[k].0) == Some(members[k].1)
  {
    if k < |members| - 1 {
      GetAt(members[..|members| - 1], k);
    }
  }

  lemma {:induction false} GetMissing(members: seq<(string, Json)>, name: string)
    requires forall j :: 0 <= j < |members| ==> members[j].0 != name
    ensures Get(members, name) == None
  {
    if members != [] {
      GetMissing(members[..|members| - 1], name);
    }
  }

  // ---------------------------------------------------------------------------------------
  // Tokens (RFC 8259, sections 2, 6 and 7)

  predicate IsWs(c: char) { c == ' ' || c == '\t' || c == '\n' || c == '\r' }

  predicate AllWs(s: string) { forall k :: 0 <= k < |s| ==> IsWs(s[k]) }

  function SkipWs(s: string, i: nat): (j: nat)
    requires i <= |s|
    ensures i <= j <= |s|
    ensures forall k :: i <= k < j ==> IsWs(s[k])
    ensures j < |s| ==> !IsWs(s[j])
    decreases |s| - i
  {
    if i < |s| && IsWs(s[i]) then SkipWs(s, i + 1) else i
  }

  predicate IsDigit(c: char) { '0' <= c <= '9' }

  function DigitValue(c: char): nat
    requires IsDigit(c)
  {
    c as int - '0' as int
  }

  function SkipDigits(s: string, i: nat): (j: nat)
    requires i <= |s|
    ensures i <= j <= |s|
    ensures forall k :: i <= k < j ==> IsDigit(s[k])
    ensures j < |s| ==> !IsDigit(s[j])
    decreases |s| - i
  {
    if i < |s| && IsDigit(s[i]) then SkipDigits(s, i + 1) else i
  }

  function DigitsValue(s: string): nat
    requires forall k :: 0 <= k < |s| ==> IsDigit(s[k])
  {
    if s == "" then 0 else DigitsValue(s[..|s| - 1]) * 10 + DigitValue(s[|s| - 1])
  }

  /** End of the integer part of a number that starts at `i`, if there is one. */
  function IntEnd(s: string, i: nat): (r: Option<nat>)
    requires i <= |s|
    ensures r.Some? ==> i < r.value <= |s| && IsDigit(s[r.value - 1])
    ensures r.Some? ==> forall k :: i <= k < r.value ==> IsDigit(s[k]) || (k == i && s[k] == '-')
  {
    var d := if i < |s| && s[i] == '-' then i + 1 else i;
    if d >= |s| || !IsDigit(s[d]) then None
    else if s[d] == '0' then Some(d + 1)
    else Some(SkipDigits(s, d))
  }

  /** End of an optional fraction at `j`: a point counts only when a digit follows. */
  function FracEnd(s: string, j: nat): (k: nat)
    requires j <= |s|
    ensures j <= k <= |s|
  {
    if j + 1 < |s| && s[j] == '.' && IsDigit(s[j + 1]) then SkipDigits(s, j + 1) else j
  }

  /** End of an optional exponent at `j`: it counts only when it has a digit. */
  function ExpEnd(s: string, j: nat): (k: nat)
    requires j <= |s|
    ensures j <= k <= |s|
  {
    if j < |s| && (s[j] == 'e' || s[j] == 'E') then
      var d := if j + 1 < |s| && (s[j + 1] == '+' || s[j + 1] == '-') then j + 2 else j + 1;
      if d < |s| && IsDigit(s[d]) then SkipDigits(s, d) else j
    else j
  }

  function IntValue(token: string): int
    requires IntEnd(token, 0) == Some(|token|)
  {
    if token[0] == '-' then -(DigitsValue(token[1..]) as int) else DigitsValue(token)
  }

  /** A number token: an integer unless a fraction or an exponent follows. */
  function Number(s: string, i: nat): (r: Parsed<Json>)
    requires i <= |s|
    ensures r.At? ==> i < r.next <= |s|
  {
    match IntEnd(s, i)
    case None => Fail
    case Some(j) =>
      var e := ExpEnd(s, FracEnd(s, j));
      if e == j then
        At(Int(IntValue(s[i..j])), j)
      else At(Float(s[i..e]), e)
  }

  function HexValue(c: char): Option<nat> {
    if '0' <= c <= '9' then Some(c as int - '0' as int)
    else if 'a' <= c <= 'f' then Some(c as int - 'a' as int + 10)
    else if 'A' <= c <= 'F' then Some(c as int - 'A' as int + 10)
    else None
  }

  /** The code unit written by the four hexadecimal digits at `i`. */
  function Hex4(s: string, i: nat): (r: Option<nat>)
    ensures r.Some? ==> i + 4 <= |s| && r.value < 0x1_0000
  {
    if i + 4 > |s| then None
    else
      match (HexValue(s[i]), HexValue(s[i + 1]), HexValue(s[i + 2]), HexValue(s[i + 3]))
      case (Some(a), Some(b), Some(c), Some(d)) => Some(((a * 16 + b) * 16 + c) * 16 + d)
      case _ => None
  }

  /** The character one `\u` escape stands for, and the position past it. A surrogate pair is
      one character; an unpaired surrogate, which is no Unicode scalar value, reads as U+FFFD. */
  function UnicodeEscape(s: string, i: nat): (r: Parsed<char>)
    ensures r.At? ==> i + 4 <= r.next <= |s|
    ensures r.At? ==> Hex4(s, i).Some?
    ensures r.At? && r.next != i + 4 ==> r.next == i + 10 && s[i + 4] == '\\' && s[i + 5] == 'u' && Hex4(s, i + 6).Some?
  {
    match Hex4(s, i)
    case None => Fail
    case Some(hi) =>
      if !(0xD800 <= hi < 0xE000) then At(hi as char, i + 4)
      else if hi < 0xDC00 && i + 6 <= |s| && s[i + 4] == '\\' && s[i + 5] == 'u' then
        match Hex4(s, i + 6)
        case Some(lo) =>
          if 0xDC00 <= lo < 0xE000
          then At((0x1_0000 + (hi - 0xD800) * 0x400 + (lo - 0xDC00)) as char, i + 10)
          else At('\U{FFFD}', i + 4)
        case None => At('\U{FFFD}', i + 4)
      else At('\U{FFFD}', i + 4)
  }

  function SimpleEscape(c: char): Option<char> {
    match c
    case '\"' => Some('\"')
    case '\\' => Some('\\')
    case '/' => Some('/')
    case 'b' => Some('\U{8}')
    case 'f' => Some('\U{C}')
    case 'n' => Some('\n')
    case 'r' => Some('\r')
    case 't' => Some('\t')
    case _ => None
  }

  /** One character of a string body at `i`: a plain character or an escape. Control
      characters are refused, as the strict decoder does. */
  function StringItem(s: string, i: nat): (r: Parsed<char>)
    requires i < |s|
    ensures r.At? ==> i < r.next <= |s|
  {
    if s[i] == '\\' then
      if i + 1 >= |s| then Fail
      else if s[i + 1] == 'u' then UnicodeEscape(s, i + 2)
      else match SimpleEscape(s[i + 1])
        case Some(c) => At(c, i + 2)
        case None => Fail
    else if s[i] < ' ' then Fail
    else At(s[i], i + 1)
  }

  /** A string body, from just after the opening quote to just past the closing one. */
  function StringBody(s: string, i: nat): (r: Parsed<string>)
    requires i <= |s|
    ensures r.At? ==> i < r.next <= |s| && s[r.next - 1] == '\"'
    decreases |s| - i
  {
    if i >= |s| then Fail
    else if s[i] == '\"' then At("", i + 1)
    else
      match StringItem(s, i)
      case Fail => Fail
      case At(c, j) =>
        match StringBody(s, j)
        case Fail => Fail
        case At(rest, k) => At([c] + rest, k)
  }

  // ---------------------------------------------------------------------------------------
  // Values (RFC 8259, sections 3 to 5)

  function Literal(s: string, i: nat): (r: Parsed<Json>)
    requires i <= |s|
    ensures r.At? ==> i < r.next <= |s|
  {
    if OccursAt(s, i, "null") then At(Null, i + 4)
    else if OccursAt(s, i, "true") then At(Bool(true), i + 4)
    else if OccursAt(s, i, "false") then At(Bool(false), i + 5)
    else if OccursAt(s, i, "NaN") then At(Float("NaN"), i + 3)
    else if OccursAt(s, i, "Infinity") then At(Float("Infinity"), i + 8)
    else if OccursAt(s, i, "-Infinity") then At(Float("-Infinity"), i + 9)
    else Fail
  }

  /** `JSONDecoder.raw_decode(s, i)`. */
  function Value(s: string, i: nat): (r: Parsed<Json>)
    requires i <= |s|
    ensures r.At? ==> i < r.next <= |s|
    decreases |s| - i, 0
  {
    if i >= |s| then Fail
    else if s[i] == '\"' then
      match StringBody(s, i + 1)
      case Fail => Fail
      case At(text, j) => At(Str(text), j)
    else if s[i] == '{' then
      var j := SkipWs(s, i + 1);
      if j < |s| && s[j] == '}' then At(Obj([]), j + 1)
      else
        match Members(s, j)
        case Fail => Fail
        case At(members, k) => At(Obj(members), k)
    else if s[i] == '[' then
      var j := SkipWs(s, i + 1);
      if j < |s| && s[j] == ']' then At(Arr([]), j + 1)
      else
        match Elements(s, j)
        case Fail => Fail
        case At(items, k) => At(Arr(items), k)
    else if Literal(s, i).At? then Literal(s, i)
    else Number(s, i)
  }

  /** One member and the members after it, up to and past the closing brace. */
  function Members(s: string, i: nat): (r: Parsed<seq<(string, Json)>>)
    requires i <= |s|
    ensures r.At? ==> i < r.next <= |s|
    decreases |s| - i, 1
  {
    match Name(s, i)
    case Fail => Fail
    case At(name, c) =>
      match Value(s, c)
      case Fail => Fail
      case At(value, d) =>
        match AfterItem(s, d, '}')
        case Fail => Fail
        case At(more, f) =>
          if !more then At([(name, value)], f)
          else
            match Members(s, f)
            case Fail => Fail
            case At(rest, k) => At([(name, value)] + rest, k)
  }

  /** A member's name with its colon, up to the start of its value. */
  function Name(s: string, i: nat): (r: Parsed<string>)
    requires i <= |s|
    ensures r.At? ==> i < r.next <= |s|
  {
    if i >= |s| || s[i] != '\"' then Fail
    else
      match StringBody(s, i + 1)
      case Fail => Fail
      case At(name, a) =>
        var b := SkipWs(s, a);
        if b < |s| && s[b] == ':' then At(name, SkipWs(s, b + 1)) else Fail
  }

  /** What follows a member or an element that ends at `d`: the closing bracket, or a comma and
      the start of the next one. */
  function AfterItem(s: string, d: nat, close: char): (r: Parsed<bool>)
    requires d <= |s|
    ensures r.At? ==> d < r.next <= |s|
    ensures r.At? && !r.value ==> s[r.next - 1] == close
  {
    var e := SkipWs(s, d);
    if e < |s| && s[e] == close then At(false, e + 1)
    else if e < |s| && s[e] == ',' then At(true, SkipWs(s, e + 1))
    else Fail
  }

  function Elements(s: string, i: nat): (r: Parsed<seq<Json>>)
    requires i <= |s|
    ensures r.At? ==> i < r.next <= |s|
    decreases |s| - i, 1
  {
    match Value(s, i)
    case Fail => Fail
    case At(value, d) =>
      match AfterItem(s, d, ']')
      case Fail => Fail
      case At(more, f) =>
        if !more then At([value], f)
        else
          match Elements(s, f)
          case Fail => Fail
          case At(rest, k) => At([value] + rest, k)
  }

  /** `json.loads`: one value with only JSON whitespace around it. */
  function Loads(s: string): Option<Json> {
    match Value(s, SkipWs(s, 0))
    case Fail => None
    case At(value, j) => if SkipWs(s, j) == |s| then Some(value) else None
  }

  /** The text of exactly one JSON object: nothing before its brace, nothing after. */
  predicate IsObjectText(t: string) {
    t != "" && t[0] == '{' && Value(t, 0).At? && Value(t, 0).next == |t|
  }

  function ObjectOf(t: string): Json
    requires IsObjectText(t)
  {
    Value(t, 0).value
  }

  // ---------------------------------------------------------------------------------------
  // A value is never inside itself

  function Nodes(v: Json): nat
    decreases v
  {
    match v
    case Arr(items) => 1 + ItemNodes(items, v)
    case Obj(members) => 1 + MemberNodes(members, v)
    case _ => 1
  }

  function ItemNodes(items: seq<Json>, ghost whole: Json): nat
    requires forall k :: 0 <= k < |items| ==> items[k] < whole
    decreases whole, |items|
  {
    if items == [] then 0 else Nodes(items[0]) + ItemNodes(items[1..], whole)
  }

  function MemberNodes(members: seq<(string, Json)>, ghost whole: Json): nat
    requires forall k :: 0 <= k < |members| ==> members[k].1 < whole
    decreases whole, |members|
  {
    if members == [] then 0
    else MemberNodes(members[..|members| - 1], whole) + Nodes(members[|members| - 1].1)
  }

  lemma {:induction false} FieldIsSmaller(members: seq<(string, Json)>, whole: Json, name: string)
    requires forall k :: 0 <= k < |members| ==> members[k].1 < whole
    requires Get(members, name).Some?
    ensures Nodes(Get(members, name).value) <= MemberNodes(members, whole)
    decreases |members|
  {
    if members[|members| - 1].0 != name {
      FieldIsSmaller(members[..|members| - 1], whole, name);
    }
  }

  /** An object is never one of its own members. */
  lemma FieldIsNotWhole(data: seq<(string, Json)>, name: string)
    ensures Get(data, name) != Some(Obj(data))
  {
    if Get(data, name).Some? {
      FieldIsSmaller(data, Obj(data), name);
    }
  }

  lemma {:induction false} ItemIsSmaller(items: seq<Json>, whole: Json, v: Json)
    requires (forall k :: 0 <= k < |items| ==> items[k] < whole) && v in items
    ensures Nodes(v) <= ItemNodes(items, whole)
    decreases |items|
  {
    if items[0] != v {
      assert items == [items[0]] + items[1..];
      ItemIsSmaller(items[1..], whole, v);
    }
  }

  /** Nor is it inside a list that is one of its members. */
  lemma ItemIsNotWhole(data: seq<(string, Json)>, name: string, items: seq<Json>)
    requires Get(data, name) == Some(Arr(items))
    ensures Obj(data) !in items
  {
    FieldIsSmaller(data, Obj(data), name);
    if Obj(data) in items {
      ItemIsSmaller(items, Arr(items), Obj(data));
    }
  }
}
