/** JSON values, the text `json.dumps(value, sort_keys=True)` gives them, compact or
    indented, and a parser for the grammar of RFC 8259, integers being the only numbers. */
module Json {
  import opened Numerals
  import opened Orders
  import T = Text

  datatype Value =
    | Null
    | Bool(b: bool)
    | Number(n: int)
    | Text(s: string)
    | List(items: seq<Value>)
    | Object(fields: seq<Field>)

  datatype Field = Field(key: string, value: Value)

  // ----- Canonical values: keys sorted at every level -----

  function KeyOf(f: Field): string { f.key }

  function Sorted(v: Value): Value {
    match v
    case List(items) => List(SortedItems(items))
    case Object(fields) => Object(SortOn(KeyOf, StringLe, SortedFields(fields)))
    case _ => v
  }

  function SortedItems(items: seq<Value>): seq<Value> {
    if items == [] then [] else [Sorted(items[0])] + SortedItems(items[1..])
  }

  function SortedFields(fields: seq<Field>): seq<Field> {
    if fields == [] then [] else [Field(fields[0].key, Sorted(fields[0].value))] + SortedFields(fields[1..])
  }

  // ----- Strings: ensure_ascii escapes -----

  function HexDigit(d: nat): (c: char)
    requires d < 16
  {
    if d < 10 then ('0' as int + d) as char else ('a' as int + d - 10) as char
  }

  function HexValue(c: char): (d: Option<nat>)
    ensures d.Some? ==> d.value < 16
  {
    if '0' <= c <= '9' then Some(c as int - '0' as int)
    else if 'a' <= c <= 'f' then Some(c as int - 'a' as int + 10)
    else if 'A' <= c <= 'F' then Some(c as int - 'A' as int + 10)
    else None
  }

  /** `\uXXXX` for one UTF-16 code unit. */
  function UnicodeEscape(u: nat): (s: string)
    requires u < 0x10000
    ensures |s| == 6
  {
    ['\\', 'u', HexDigit(u / 0x1000), HexDigit(u / 0x100 % 16), HexDigit(u / 16 % 16), HexDigit(u % 16)]
  }

  function EscapeChar(c: char): (s: string)
    ensures s != []
  {
    if c == '"' then "\\\""
    else if c == '\\' then "\\\\"
    else if c == '\n' then "\\n"
    else if c == '\r' then "\\r"
    else if c == '\t' then "\\t"
    else if c == 12 as char then "\\f"
    else if c == 8 as char then "\\b"
    else if ' ' <= c <= '~' then [c]
    else if (c as int) < 0x10000 then UnicodeEscape(c as int)
    else
      var v := c as int - 0x10000;
      UnicodeEscape(0xD800 + v / 0x400) + UnicodeEscape(0xDC00 + v % 0x400)
  }

  function EscapeAll(s: string): string { if s == [] then [] else EscapeChar(s[0]) + EscapeAll(s[1..]) }

  function Quote(s: string): string { "\"" + EscapeAll(s) + "\"" }

  // ----- Rendering -----

  /** `Compact` is the default layout and `Indented(level)` is `indent=2` at a nesting
      level. `Records` puts each element, compact, on its own line two levels in, and
      `Ledger` is the top level of a ledger: its named collections are `Records`. */
  datatype Layout = Compact | Indented(level: nat) | Records | Ledger(collections: set<string>)

  function Level(l: Layout): nat {
    match l
    case Indented(level) => level
    case Records => 1
    case _ => 0
  }

  /** The layout of an element. */
  function Inner(l: Layout): Layout {
    match l
    case Indented(level) => Indented(level + 1)
    case Ledger(_) => Indented(1)
    case _ => Compact
  }

  /** The layout of the value under a key. */
  function InnerFor(l: Layout, key: string): Layout {
    if l.Ledger? && key in l.collections then Records else Inner(l)
  }

  /** What follows an opening bracket. */
  function AfterOpen(l: Layout): string { if l.Compact? then "" else "\n" + T.Spaces(2 * (Level(l) + 1)) }

  /** What separates two elements. */
  function Separator(l: Layout): string { if l.Compact? then ", " else ",\n" + T.Spaces(2 * (Level(l) + 1)) }

  /** What precedes a closing bracket. */
  function BeforeClose(l: Layout): string { if l.Compact? then "" else "\n" + T.Spaces(2 * Level(l)) }

  function IntText(n: int): string { if n < 0 then "-" + Decimal(-n) else Decimal(n) }

  function Render(v: Value, l: Layout): string
    decreases v, 1, 0
  {
    match v
    case Null => "null"
    case Bool(b) => if b then "true" else "false"
    case Number(n) => IntText(n)
    case Text(s) => Quote(s)
    case List(items) =>
      if items == [] then "[]" else "[" + AfterOpen(l) + RenderItems(items, l) + BeforeClose(l) + "]"
    case Object(fields) =>
      if fields == [] then "{}" else "{" + AfterOpen(l) + RenderFields(fields, l) + BeforeClose(l) + "}"
  }

  function RenderItems(items: seq<Value>, l: Layout): string
    decreases items, 0, |items|
  {
    if items == [] then ""
    else Render(items[0], Inner(l)) + (if |items| == 1 then "" else Separator(l) + RenderItems(items[1..], l))
  }

  function RenderField(f: Field, l: Layout): string
    decreases f, 0, 0
  {
    Quote(f.key) + ": " + Render(f.value, InnerFor(l, f.key))
  }

  function RenderFields(fields: seq<Field>, l: Layout): string
    decreases fields, 0, |fields|
  {
    if fields == [] then ""
    else RenderField(fields[0], l) + (if |fields| == 1 then "" else Separator(l) + RenderFields(fields[1..], l))
  }

  /** `json.dumps(v, sort_keys=True)`, and with `indent=2` */
  function Dumps(v: Value): string { Render(Sorted(v), Compact) }
  function DumpsIndented(v: Value): string { Render(Sorted(v), Indented(0)) }

  // ----- Parsing -----

  datatype Parsed<+T> = Parsed(value: T, rest: string)

  predicate IsBlank(c: char) { c == ' ' || c == '\n' || c == '\t' || c == '\r' }

  function Skip(s: string): (r: string)
    ensures |r| <= |s| && (r != [] ==> !IsBlank(r[0]))
  {
    if s != [] && IsBlank(s[0]) then Skip(s[1..]) else s
  }

  function ParseHex4(s: string): (r: Option<nat>)
    ensures r.Some? ==> |s| >= 4 && r.value < 0x10000
  {
    if |s| < 4 then None
    else
      var a, b, c, d := HexValue(s[0]), HexValue(s[1]), HexValue(s[2]), HexValue(s[3]);
      if a.None? || b.None? || c.None? || d.None? then None
      else Some(a.value * 0x1000 + b.value * 0x100 + c.value * 16 + d.value)
  }

  /** The character after a backslash-u; a high surrogate takes its low half along. */
  function ParseUnicode(s: string): (r: Option<Parsed<char>>)
    ensures r.Some? ==> |r.value.rest| < |s|
  {
    var u := ParseHex4(s);
    if u.None? then None
    else if u.value < 0xD800 || u.value >= 0xE000 then Some(Parsed(u.value as char, s[4..]))
    else if u.value >= 0xDC00 || |s| < 6 || s[4] != '\\' || s[5] != 'u' then None
    else
      var w := ParseHex4(s[6..]);
      if w.None? || w.value < 0xDC00 || w.value >= 0xE000 then None
      else Some(Parsed((0x10000 + (u.value - 0xD800) * 0x400 + (w.value - 0xDC00)) as char, s[10..]))
  }

  function ParseEscape(s: string): (r: Option<Parsed<char>>)
    ensures r.Some? ==> |r.value.rest| < |s|
  {
    if s == [] then None
    else
      match s[0]
      case '"' => Some(Parsed('"', s[1..]))
      case '\\' => Some(Parsed('\\', s[1..]))
      case '/' => Some(Parsed('/', s[1..]))
      case 'n' => Some(Parsed('\n', s[1..]))
      case 'r' => Some(Parsed('\r', s[1..]))
      case 't' => Some(Parsed('\t', s[1..]))
      case 'f' => Some(Parsed(12 as char, s[1..]))
      case 'b' => Some(Parsed(8 as char, s[1..]))
      case 'u' => ParseUnicode(s[1..])
      case _ => None
  }

  /** The body of a string, after its opening quote. */
  function ParseChars(s: string): (r: Option<Parsed<string>>)
    ensures r.Some? ==> |r.value.rest| < |s|
    decreases |s|
  {
    if s == [] || s[0] < ' ' then None
    else if s[0] == '"' then Some(Parsed("", s[1..]))
    else
      var c := if s[0] == '\\' then ParseEscape(s[1..]) else Some(Parsed(s[0], s[1..]));
      if c.None? then None
      else
        var more := ParseChars(c.value.rest);
        if more.None? then None else Some(Parsed([c.value.value] + more.value.value, more.value.rest))
  }

  function ParseString(s: string): (r: Option<Parsed<string>>)
    ensures r.Some? ==> |r.value.rest| < |s|
  {
    if s == [] || s[0] != '"' then None else ParseChars(s[1..])
  }

  function DigitsAtStart(s: string): (n: nat)
    ensures n <= |s| && AllDigits(s[..n])
  {
    if s == [] || !IsDigit(s[0]) then 0
    else
      var n := DigitsAtStart(s[1..]);
      assert forall i | 1 <= i < n + 1 :: s[i] == s[1..][..n][i - 1];
      n + 1
  }

  function ParseNumber(s: string): (r: Option<Parsed<int>>)
    ensures r.Some? ==> |r.value.rest| < |s|
  {
    var negative := s != [] && s[0] == '-';
    var t := if negative then s[1..] else s;
    var n := DigitsAtStart(t);
    if n == 0 || (n > 1 && t[0] == '0') then None
    else
      var m: int := ValueOf(t[..n]);
      Some(Parsed(if negative then -m else m, t[n..]))
  }

  predicate Begins(s: string, p: string) { |p| <= |s| && s[..|p|] == p }

  function ParseValue(s: string): (r: Option<Parsed<Value>>)
    ensures r.Some? ==> |r.value.rest| < |s|
    decreases |s|, 0
  {
    if s == [] then None
    else if s[0] == '"' then
      var t := ParseString(s);
      if t.None? then None else Some(Parsed(Text(t.value.value), t.value.rest))
    else if s[0] == '[' then
      var t := Skip(s[1..]);
      if t != [] && t[0] == ']' then Some(Parsed(List([]), t[1..]))
      else
        var items := ParseItems(t);
        if items.None? then None else Some(Parsed(List(items.value.value), items.value.rest))
    else if s[0] == '{' then
      var t := Skip(s[1..]);
      if t != [] && t[0] == '}' then Some(Parsed(Object([]), t[1..]))
      else
        var fields := ParseFields(t);
        if fields.None? then None else Some(Parsed(Object(fields.value.value), fields.value.rest))
    else if Begins(s, "null") then Some(Parsed(Null, s[4..]))
    else if Begins(s, "true") then Some(Parsed(Bool(true), s[4..]))
    else if Begins(s, "false") then Some(Parsed(Bool(false), s[5..]))
    else
      var n := ParseNumber(s);
      if n.None? then None else Some(Parsed(Number(n.value.value), n.value.rest))
  }

  /** One or more items, up to and including the closing bracket. */
  function ParseItems(s: string): (r: Option<Parsed<seq<Value>>>)
    ensures r.Some? ==> |r.value.rest| < |s|
    decreases |s|, 1
  {
    var first := ParseValue(s);
    if first.None? then None
    else
      var t := Skip(first.value.rest);
      if t == [] then None
      else if t[0] == ']' then Some(Parsed([first.value.value], t[1..]))
      else if t[0] != ',' then None
      else
        var more := ParseItems(Skip(t[1..]));
        if more.None? then None else Some(Parsed([first.value.value] + more.value.value, more.value.rest))
  }

  function ParseField(s: string): (r: Option<Parsed<Field>>)
    ensures r.Some? ==> |r.value.rest| < |s|
    decreases |s|, 1
  {
    var key := ParseString(s);
    if key.None? then None
    else
      var t := Skip(key.value.rest);
      if t == [] || t[0] != ':' then None
      else
        var value := ParseValue(Skip(t[1..]));
        if value.None? then None else Some(Parsed(Field(key.value.value, value.value.value), value.value.rest))
  }

  function ParseFields(s: string): (r: Option<Parsed<seq<Field>>>)
    ensures r.Some? ==> |r.value.rest| < |s|
    decreases |s|, 2
  {
    var first := ParseField(s);
    if first.None? then None
    else
      var t := Skip(first.value.rest);
      if t == [] then None
      else if t[0] == '}' then Some(Parsed([first.value.value], t[1..]))
      else if t[0] != ',' then None
      else
        var more := ParseFields(Skip(t[1..]));
        if more.None? then None else Some(Parsed([first.value.value] + more.value.value, more.value.rest))
  }

  /** `json.loads`, keeping the order of the keys; None where it raises. */
  function Loads(s: string): Option<Value> {
    var v := ParseValue(Skip(s));
    if v.Some? && Skip(v.value.rest) == [] then Some(v.value.value) else None
  }
}
