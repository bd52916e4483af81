/** Parsing undoes rendering, in every layout; indentation never reaches inside a string. */
module JsonRoundTrip {
  import opened Numerals
  import opened Json

  // ----- Strings -----

  lemma HexRoundTrip(d: nat)
    requires d < 16
    ensures HexValue(HexDigit(d)) == Some(d) && ' ' < HexDigit(d) <= 'f'
  {
  }

  lemma UnicodeRoundTrip(u: nat, t: string)
    requires u < 0x10000
    ensures ParseHex4(UnicodeEscape(u)[2..] + t) == Some(u)
  {
    FourDigits(u / 0x1000, u / 0x100 % 16, u / 16 % 16, u % 16, t);
    DigitsOf(u);
    hide HexDigit, HexValue, ParseHex4;
    var a, b, c, d := u / 0x1000, u / 0x100 % 16, u / 16 % 16, u % 16;
    assert UnicodeEscape(u)[2..] == [HexDigit(a), HexDigit(b), HexDigit(c), HexDigit(d)];
  }

  lemma DigitsOf(u: nat)
    requires u < 0x10000
    ensures u == u / 0x1000 * 0x1000 + u / 0x100 % 16 * 0x100 + u / 16 % 16 * 16 + u % 16
  {
    var a := u / 16;
    var b := a / 16;
    assert u == a * 16 + u % 16 && a == b * 16 + a % 16 && b == b / 16 * 16 + b % 16;
    assert b == u / 0x100 && b / 16 == u / 0x1000;
  }

  lemma FourDigits(a: nat, b: nat, c: nat, d: nat, t: string)
    requires a < 16 && b < 16 && c < 16 && d < 16
    ensures ParseHex4([HexDigit(a), HexDigit(b), HexDigit(c), HexDigit(d)] + t) == Some(a * 0x1000 + b * 0x100 + c * 16 + d)
  {
    HexRoundTrip(a);
    HexRoundTrip(b);
    HexRoundTrip(c);
    HexRoundTrip(d);
    hide HexDigit, HexValue;
    var s := [HexDigit(a), HexDigit(b), HexDigit(c), HexDigit(d)] + t;
    assert s[0] == HexDigit(a) && s[1] == HexDigit(b) && s[2] == HexDigit(c) && s[3] == HexDigit(d);
  }

  lemma ShortEscape(c: char, t: string)
    requires c in "\"\\\n\r\t" || c as int == 12 || c as int == 8
    ensures ParseEscape(EscapeChar(c)[1..] + t) == Some(Parsed(c, t))
    ensures EscapeChar(c)[0] == '\\'
  {
    var e := EscapeChar(c)[1..] + t;
    assert e[1..] == t;
  }

  lemma UnitEscape(u: nat, t: string)
    requires u < 0xD800 || 0xE000 <= u < 0x10000
    ensures ParseEscape(UnicodeEscape(u)[1..] + t) == Some(Parsed(u as char, t))
  {
    hide HexValue, ParseHex4, HexDigit;
    UnicodeRoundTrip(u, t);
    var e := UnicodeEscape(u)[1..] + t;
    assert e[0] == 'u' && e[1..] == UnicodeEscape(u)[2..] + t;
    assert e[1..][4..] == t;
  }

  lemma PairEscape(v: nat, t: string)
    requires v < 0x100000
    ensures ParseEscape(UnicodeEscape(0xD800 + v / 0x400)[1..] + (UnicodeEscape(0xDC00 + v % 0x400) + t))
            == Some(Parsed((0x10000 + v) as char, t))
  {
    hide HexValue, ParseHex4, HexDigit;
    var hi, lo := 0xD800 + v / 0x400, 0xDC00 + v % 0x400;
    var low := UnicodeEscape(lo) + t;
    UnicodeRoundTrip(hi, low);
    UnicodeRoundTrip(lo, t);
    var e := UnicodeEscape(hi)[1..] + low;
    var f := e[1..];
    assert e[0] == 'u' && f == UnicodeEscape(hi)[2..] + low;
    assert f[4..] == low && f[4] == low[0] && f[5] == low[1];
    assert f[6..] == UnicodeEscape(lo)[2..] + t && f[10..] == t;
    assert (hi - 0xD800) * 0x400 + (lo - 0xDC00) == v;
  }

  lemma LongEscape(c: char, t: string)
    requires (c < ' ' || '~' < c) && c !in "\n\r\t" && c as int != 12 && c as int != 8
    ensures ParseEscape(EscapeChar(c)[1..] + t) == Some(Parsed(c, t))
    ensures EscapeChar(c)[0] == '\\'
  {
    hide ParseEscape;
    var n := c as int;
    if n < 0x10000 {
      UnitEscape(n, t);
    } else {
      var v := n - 0x10000;
      PairEscape(v, t);
      var a, b := UnicodeEscape(0xD800 + v / 0x400), UnicodeEscape(0xDC00 + v % 0x400);
      assert EscapeChar(c) == a + b;
      assert a[0] == '\\';
      hide EscapeChar, UnicodeEscape;
      TailOfTwo(a, b, t);
    }
  }

  lemma TailOfTwo(a: string, b: string, t: string)
    requires a != ""
    ensures (a + b)[1..] + t == a[1..] + (b + t)
  {
  }

  lemma EscapeRoundTrip(c: char, t: string)
    requires ParseChars(t).Some?
    ensures ParseChars(EscapeChar(c) + t) == Some(Parsed([c] + ParseChars(t).value.value, ParseChars(t).value.rest))
  {
    hide ParseEscape;
    var s := EscapeChar(c) + t;
    if ' ' <= c <= '~' && c != '"' && c != '\\' {
      assert s[0] == c && s[1..] == t;
    } else {
      if c in "\"\\\n\r\t" || c as int == 12 || c as int == 8 { ShortEscape(c, t); } else { LongEscape(c, t); }
      EscapedStep(EscapeChar(c), c, t);
    }
  }

  lemma EscapedStep(e: string, c: char, t: string)
    requires e != [] && e[0] == '\\' && ParseEscape(e[1..] + t) == Some(Parsed(c, t)) && ParseChars(t).Some?
    ensures ParseChars(e + t) == Some(Parsed([c] + ParseChars(t).value.value, ParseChars(t).value.rest))
  {
    hide ParseEscape;
    assert (e + t)[1..] == e[1..] + t;
  }

  lemma {:induction false} CharsRoundTrip(s: string, rest: string)
    ensures ParseChars(EscapeAll(s) + "\"" + rest) == Some(Parsed(s, rest))
  {
    hide EscapeChar;
    if s == [] {
      var t := EscapeAll(s) + "\"" + rest;
      assert t[0] == '"' && t[1..] == rest;
    } else {
      hide ParseChars;
      var t := EscapeAll(s[1..]) + "\"" + rest;
      CharsRoundTrip(s[1..], rest);
      EscapeRoundTrip(s[0], t);
      assert EscapeAll(s) + "\"" + rest == EscapeChar(s[0]) + t;
      assert s == [s[0]] + s[1..];
    }
  }

  lemma StringRoundTrip(s: string, rest: string)
    ensures ParseString(Quote(s) + rest) == Some(Parsed(s, rest))
  {
    hide ParseChars, EscapeAll;
    CharsRoundTrip(s, rest);
    assert (Quote(s) + rest)[1..] == EscapeAll(s) + "\"" + rest;
  }

  // ----- Numbers -----

  lemma {:induction false} DigitsRoundTrip(d: string, rest: string)
    requires AllDigits(d) && (rest == [] || !IsDigit(rest[0]))
    ensures DigitsAtStart(d + rest) == |d|
  {
    if d == [] {
      assert d + rest == rest;
    } else {
      assert (d + rest)[1..] == d[1..] + rest;
      DigitsRoundTrip(d[1..], rest);
    }
  }

  lemma {:induction false} NoLeadingZero(n: nat)
    ensures Decimal(n)[0] == '0' ==> |Decimal(n)| == 1
  {
    if n >= 10 { NoLeadingZero(n / 10); NonZeroStart(n / 10); }
  }

  lemma {:induction false} NonZeroStart(n: nat)
    requires n >= 1
    ensures Decimal(n)[0] != '0'
  {
    if n >= 10 { NonZeroStart(n / 10); }
  }

  lemma NumberRoundTrip(n: int, rest: string)
    requires rest == [] || !IsDigit(rest[0])
    ensures ParseNumber(IntText(n) + rest) == Some(Parsed(n, rest))
  {
    var m: nat := if n < 0 then -n else n;
    var d := Decimal(m);
    var s := IntText(n) + rest;
    DigitsRoundTrip(d, rest);
    NoLeadingZero(m);
    DecimalValue(m);
    hide DigitsAtStart, ValueOf, Decimal;
    assert IsDigit(d[0]);
    if n < 0 { assert s[1..] == d + rest; }
    assert (d + rest)[..|d|] == d && (d + rest)[|d|..] == rest;
  }

  // ----- White space -----

  lemma SkipNothing(s: string)
    requires s == [] || !IsBlank(s[0])
    ensures Skip(s) == s
  {
  }

  lemma {:induction false} SkipBlanks(b: string, s: string)
    requires forall i | 0 <= i < |b| :: IsBlank(b[i])
    ensures Skip(b + s) == Skip(s)
  {
    if b == [] {
      assert b + s == s;
    } else {
      assert (b + s)[1..] == b[1..] + s;
      SkipBlanks(b[1..], s);
    }
  }

  predicate StartsValue(s: string) { s != [] && !IsBlank(s[0]) && s[0] !in "]}," }

  lemma RenderStarts(v: Value, l: Layout)
    ensures StartsValue(Render(v, l))
  {
    match v
    case Number(n) =>
      var m: nat := if n < 0 then -n else n;
      assert IsDigit(Decimal(m)[0]);
    case _ =>
  }

  lemma ItemsStart(items: seq<Value>, l: Layout)
    requires items != []
    ensures StartsValue(RenderItems(items, l))
  {
    RenderStarts(items[0], Inner(l));
  }

  lemma FieldsStart(fields: seq<Field>, l: Layout)
    requires fields != []
    ensures StartsValue(RenderFields(fields, l))
  {
    assert RenderField(fields[0], l)[0] == '"';
  }

  lemma SkipOpen(l: Layout, s: string)
    requires StartsValue(s)
    ensures Skip(AfterOpen(l) + s) == s
  {
    SkipBlanks(AfterOpen(l), s);
    SkipNothing(s);
  }

  lemma SkipClose(l: Layout, s: string)
    requires s != [] && (s[0] == ']' || s[0] == '}')
    ensures Skip(BeforeClose(l) + s) == s
  {
    SkipBlanks(BeforeClose(l), s);
    SkipNothing(s);
  }

  lemma SkipSeparator(l: Layout, s: string)
    requires StartsValue(s)
    ensures Skip(Separator(l) + s) == Separator(l) + s && (Separator(l) + s)[0] == ','
    ensures Skip((Separator(l) + s)[1..]) == s
  {
    var t := Separator(l) + s;
    assert t[1..] == Separator(l)[1..] + s;
    SkipBlanks(Separator(l)[1..], s);
    SkipNothing(s);
    SkipNothing(t);
  }

  /** What may follow a rendered value without being read as part of it. */
  predicate Ends(rest: string) { rest == [] || !IsDigit(rest[0]) }

  lemma CloseEnds(l: Layout, s: string)
    requires s != [] && (s[0] == ']' || s[0] == '}')
    ensures Ends(BeforeClose(l) + s)
  {
  }

  // ----- Values -----

  lemma {:induction false} RoundTrip(v: Value, l: Layout, rest: string)
    requires Ends(rest)
    ensures ParseValue(Render(v, l) + rest) == Some(Parsed(v, rest))
    decreases v, 1, 0
  {
    match v
    case Null => WordRoundTrip("null", rest);
    case Bool(b) => WordRoundTrip(if b then "true" else "false", rest);
    case Number(n) => IntRoundTrip(n, l, rest);
    case Text(s) =>
      hide ParseString, Quote;
      StringRoundTrip(s, rest);
      assert (Quote(s) + rest)[0] == '"' by { QuoteStarts(s, rest); }
    case List(items) =>
      if items == [] {
        EmptyRoundTrip(l, rest);
      } else {
        ItemsRoundTrip(items, l, rest);
        ListStep(items, l, rest);
      }
    case Object(fields) =>
      if fields == [] {
        EmptyRoundTrip(l, rest);
      } else {
        FieldsRoundTrip(fields, l, rest);
        ObjectStep(fields, l, rest);
      }
  }

  lemma QuoteStarts(s: string, rest: string)
    ensures (Quote(s) + rest)[0] == '"'
  {
  }

  lemma WordRoundTrip(w: string, rest: string)
    requires w == "null" || w == "true" || w == "false"
    ensures ParseValue(w + rest) == Some(Parsed(if w == "null" then Null else Bool(w == "true"), rest))
  {
    var s := w + rest;
    assert s[..|w|] == w && s[|w|..] == rest;
    assert s[0] == w[0];
    BeginsFirst(s, "null");
    BeginsFirst(s, "true");
  }

  lemma IntRoundTrip(n: int, l: Layout, rest: string)
    requires Ends(rest)
    ensures ParseValue(IntText(n) + rest) == Some(Parsed(Number(n), rest))
  {
    hide ParseNumber;
    NumberRoundTrip(n, rest);
    var s := IntText(n) + rest;
    var m: nat := if n < 0 then -n else n;
    assert IsDigit(Decimal(m)[0]);
    assert s[0] == '-' || IsDigit(s[0]);
    BeginsFirst(s, "null");
    BeginsFirst(s, "true");
    BeginsFirst(s, "false");
  }

  lemma BeginsFirst(s: string, p: string)
    requires p != []
    ensures Begins(s, p) ==> s != [] && s[0] == p[0]
  {
    if Begins(s, p) { assert s[..|p|][0] == s[0]; }
  }

  lemma EmptyRoundTrip(l: Layout, rest: string)
    ensures ParseValue("[]" + rest) == Some(Parsed(List([]), rest))
    ensures ParseValue("{}" + rest) == Some(Parsed(Object([]), rest))
  {
    var s, t := "[]" + rest, "{}" + rest;
    SkipNothing(s[1..]);
    SkipNothing(t[1..]);
    assert s[1..][1..] == rest && t[1..][1..] == rest;
  }

  lemma ListStep(items: seq<Value>, l: Layout, rest: string)
    requires items != []
    requires ParseItems(RenderItems(items, l) + (BeforeClose(l) + ("]" + rest))) == Some(Parsed(items, rest))
    ensures ParseValue(Render(List(items), l) + rest) == Some(Parsed(List(items), rest))
  {
    hide ParseItems, RenderItems, AfterOpen, BeforeClose, Skip;
    var body := RenderItems(items, l) + (BeforeClose(l) + ("]" + rest));
    var s := Render(List(items), l) + rest;
    ItemsStart(items, l);
    SkipOpen(l, body);
    assert s[1..] == AfterOpen(l) + body;
  }

  lemma ObjectStep(fields: seq<Field>, l: Layout, rest: string)
    requires fields != []
    requires ParseFields(RenderFields(fields, l) + (BeforeClose(l) + ("}" + rest))) == Some(Parsed(fields, rest))
    ensures ParseValue(Render(Object(fields), l) + rest) == Some(Parsed(Object(fields), rest))
  {
    hide ParseFields, RenderFields, AfterOpen, BeforeClose, Skip;
    var body := RenderFields(fields, l) + (BeforeClose(l) + ("}" + rest));
    var s := Render(Object(fields), l) + rest;
    FieldsStart(fields, l);
    SkipOpen(l, body);
    assert s[1..] == AfterOpen(l) + body;
  }

  lemma {:induction false} ItemsRoundTrip(items: seq<Value>, l: Layout, rest: string)
    requires items != []
    ensures ParseItems(RenderItems(items, l) + (BeforeClose(l) + ("]" + rest))) == Some(Parsed(items, rest))
    decreases items, 0, |items|
  {
    hide ParseItems, ParseValue, Render;
    var tail := BeforeClose(l) + ("]" + rest);
    CloseEnds(l, "]" + rest);
    if |items| == 1 {
      RoundTrip(items[0], Inner(l), tail);
      LastItem(items[0], l, rest);
      assert items == [items[0]];
    } else {
      var after := Separator(l) + (RenderItems(items[1..], l) + tail);
      RoundTrip(items[0], Inner(l), after);
      ItemsRoundTrip(items[1..], l, rest);
      MoreItems(items, l, rest, tail, after);
    }
  }

  lemma LastItem(v: Value, l: Layout, rest: string)
    requires ParseValue(Render(v, Inner(l)) + (BeforeClose(l) + ("]" + rest))) == Some(Parsed(v, BeforeClose(l) + ("]" + rest)))
    ensures ParseItems(RenderItems([v], l) + (BeforeClose(l) + ("]" + rest))) == Some(Parsed([v], rest))
  {
    hide ParseValue, Render, BeforeClose, Skip;
    SkipClose(l, "]" + rest);
    assert ("]" + rest)[1..] == rest;
    assert RenderItems([v], l) == Render(v, Inner(l));
  }

  lemma MoreItems(items: seq<Value>, l: Layout, rest: string, tail: string, after: string)
    requires |items| > 1 && tail == BeforeClose(l) + ("]" + rest) && after == Separator(l) + (RenderItems(items[1..], l) + tail)
    requires ParseValue(Render(items[0], Inner(l)) + after) == Some(Parsed(items[0], after))
    requires ParseItems(RenderItems(items[1..], l) + tail) == Some(Parsed(items[1..], rest))
    ensures ParseItems(RenderItems(items, l) + (BeforeClose(l) + ("]" + rest))) == Some(Parsed(items, rest))
  {
    hide ParseValue, Render, BeforeClose, Separator, Skip, ParseItems;
    var more := RenderItems(items[1..], l) + tail;
    ItemsApart(items, l, tail);
    hide RenderItems;
    ItemsStart(items[1..], l);
    SkipSeparator(l, more);
    ItemThenMore(Render(items[0], Inner(l)) + after, items[0], after, items[1..], rest);
    assert items == [items[0]] + items[1..];
  }

  lemma ItemsApart(items: seq<Value>, l: Layout, tail: string)
    requires |items| > 1
    ensures RenderItems(items, l) + tail == Render(items[0], Inner(l)) + (Separator(l) + (RenderItems(items[1..], l) + tail))
  {
    hide Render, Separator;
    var a, b, c := Render(items[0], Inner(l)), Separator(l), RenderItems(items[1..], l);
    assert RenderItems(items, l) == a + (b + c);
    hide RenderItems;
    Regrouped(a, b, c, tail);
  }

  lemma Regrouped(a: string, b: string, c: string, tail: string)
    ensures a + (b + c) + tail == a + (b + (c + tail))
  {
  }

  lemma ItemThenMore(s: string, v: Value, after: string, vs: seq<Value>, rest: string)
    requires ParseValue(s) == Some(Parsed(v, after)) && Skip(after) == after && after != "" && after[0] == ','
    requires ParseItems(Skip(after[1..])) == Some(Parsed(vs, rest))
    ensures ParseItems(s) == Some(Parsed([v] + vs, rest))
  {
    hide ParseValue, Skip;
  }

  lemma {:induction false} FieldRoundTrip(f: Field, l: Layout, rest: string)
    requires Ends(rest)
    ensures ParseField(RenderField(f, l) + rest) == Some(Parsed(f, rest))
    decreases f, 0, 0
  {
    hide ParseValue, Render, ParseString, Quote;
    RoundTrip(f.value, InnerFor(l, f.key), rest);
    FieldStep(f, l, rest);
  }

  lemma FieldStep(f: Field, l: Layout, rest: string)
    requires ParseValue(Render(f.value, InnerFor(l, f.key)) + rest) == Some(Parsed(f.value, rest))
    ensures ParseField(RenderField(f, l) + rest) == Some(Parsed(f, rest))
  {
    hide ParseValue, Render, ParseString, Quote, Skip;
    var value := Render(f.value, InnerFor(l, f.key)) + rest;
    var t := ": " + value;
    assert RenderField(f, l) + rest == Quote(f.key) + t;
    StringRoundTrip(f.key, t);
    SkipNothing(t);
    RenderStarts(f.value, InnerFor(l, f.key));
    assert t[1..] == " " + value;
    SkipBlanks(" ", value);
    SkipNothing(value);
  }

  lemma {:induction false} FieldsRoundTrip(fields: seq<Field>, l: Layout, rest: string)
    requires fields != []
    ensures ParseFields(RenderFields(fields, l) + (BeforeClose(l) + ("}" + rest))) == Some(Parsed(fields, rest))
    decreases fields, 0, |fields|
  {
    hide ParseFields, ParseField, RenderField;
    var tail := BeforeClose(l) + ("}" + rest);
    CloseEnds(l, "}" + rest);
    if |fields| == 1 {
      FieldRoundTrip(fields[0], l, tail);
      LastField(fields[0], l, rest);
      assert fields == [fields[0]];
    } else {
      var after := Separator(l) + (RenderFields(fields[1..], l) + tail);
      FieldRoundTrip(fields[0], l, after);
      FieldsRoundTrip(fields[1..], l, rest);
      MoreFields(fields, l, rest, tail, after);
    }
  }

  lemma LastField(f: Field, l: Layout, rest: string)
    requires ParseField(RenderField(f, l) + (BeforeClose(l) + ("}" + rest))) == Some(Parsed(f, BeforeClose(l) + ("}" + rest)))
    ensures ParseFields(RenderFields([f], l) + (BeforeClose(l) + ("}" + rest))) == Some(Parsed([f], rest))
  {
    hide ParseField, RenderField, BeforeClose, Skip;
    SkipClose(l, "}" + rest);
    assert ("}" + rest)[1..] == rest;
    assert RenderFields([f], l) == RenderField(f, l);
  }

  lemma MoreFields(fields: seq<Field>, l: Layout, rest: string, tail: string, after: string)
    requires |fields| > 1 && tail == BeforeClose(l) + ("}" + rest) && after == Separator(l) + (RenderFields(fields[1..], l) + tail)
    requires ParseField(RenderField(fields[0], l) + after) == Some(Parsed(fields[0], after))
    requires ParseFields(RenderFields(fields[1..], l) + tail) == Some(Parsed(fields[1..], rest))
    ensures ParseFields(RenderFields(fields, l) + (BeforeClose(l) + ("}" + rest))) == Some(Parsed(fields, rest))
  {
    hide ParseField, RenderField, BeforeClose, Separator, Skip, ParseFields;
    var more := RenderFields(fields[1..], l) + tail;
    FieldsApart(fields, l, tail);
    hide RenderFields;
    FieldsStart(fields[1..], l);
    SkipSeparator(l, more);
    FieldThenMore(RenderField(fields[0], l) + after, fields[0], after, fields[1..], rest);
    assert fields == [fields[0]] + fields[1..];
  }

  lemma FieldsApart(fields: seq<Field>, l: Layout, tail: string)
    requires |fields| > 1
    ensures RenderFields(fields, l) + tail == RenderField(fields[0], l) + (Separator(l) + (RenderFields(fields[1..], l) + tail))
  {
    hide RenderField, Separator;
    var a, b, c := RenderField(fields[0], l), Separator(l), RenderFields(fields[1..], l);
    assert RenderFields(fields, l) == a + (b + c);
    hide RenderFields;
    Regrouped(a, b, c, tail);
  }

  lemma FieldThenMore(s: string, f: Field, after: string, fs: seq<Field>, rest: string)
    requires ParseField(s) == Some(Parsed(f, after)) && Skip(after) == after && after != "" && after[0] == ','
    requires ParseFields(Skip(after[1..])) == Some(Parsed(fs, rest))
    ensures ParseFields(s) == Some(Parsed([f] + fs, rest))
  {
    hide ParseField, Skip;
  }

  /** `json.loads(json.dumps(v, sort_keys=True))` is `v` with its keys sorted, in either layout. */
  lemma DumpsRoundTrip(v: Value)
    ensures Loads(Dumps(v)) == Some(Sorted(v))
    ensures Loads(DumpsIndented(v)) == Some(Sorted(v))
  {
    hide ParseValue, Render, Sorted;
    RenderStarts(Sorted(v), Compact);
    RenderStarts(Sorted(v), Indented(0));
    RoundTrip(Sorted(v), Compact, []);
    RoundTrip(Sorted(v), Indented(0), []);
    assert Dumps(v) + [] == Dumps(v) && DumpsIndented(v) + [] == DumpsIndented(v);
  }

  /** A text loads only as a whole: white space may stand around a value, and nothing else
      after it. White space is what section 2 of RFC 8259 lists. */
  lemma OneValueOnly(v: Value, before: string, after: string, more: string)
    requires forall c | c in before + after :: c == ' ' || c == '\n' || c == '\t' || c == '\r'
    requires more != "" ==> more[0] !in " \n\t\r" && Ends(after + more)
    ensures Loads(before + (Dumps(v) + (after + more))) == if more == "" then Some(Sorted(v)) else None
  {
    hide ParseValue, Render, Sorted;
    forall i | 0 <= i < |before| ensures IsBlank(before[i]) { assert before[i] in before + after; }
    forall i | 0 <= i < |after| ensures IsBlank(after[i]) { assert after[i] in before + after; }
    SkipBlanks(before, Dumps(v) + (after + more));
    RenderStarts(Sorted(v), Compact);
    SkipNothing(Dumps(v) + (after + more));
    SkipBlanks(after, more);
    SkipNothing(more);
    RoundTrip(Sorted(v), Compact, after + more);
  }
}
