/** What the canonical form of a ledger does not depend on, and in which order it is written. */
module LedgerOrder {
  import opened Numerals
  import opened Orders
  import opened Json
  import opened JsonRoundTrip
  import opened Ledger
  import opened LedgerTheorems
  import T = Text

  // ----- Values that differ in the order of keys alone -----

  /** The places `0 .. n` in some order. */
  ghost predicate IsPermutation(p: seq<nat>, n: nat) {
    |p| == n && (forall i | 0 <= i < n :: p[i] < n) && forall i, j | 0 <= i < j < n :: p[i] != p[j]
  }

  /** The same value, but for the order of the fields at every level. */
  ghost predicate SameContents(a: Value, b: Value)
    decreases a
  {
    match a
    case List(items) =>
      b.List? && |b.items| == |items| && forall i | 0 <= i < |items| :: SameContents(items[i], b.items[i])
    case Object(fields) =>
      b.Object? && |b.fields| == |fields| &&
      exists p ::
        IsPermutation(p, |fields|) &&
        forall i | 0 <= i < |fields| :: fields[i].key == b.fields[p[i]].key && SameContents(fields[i].value, b.fields[p[i]].value)
    case _ => b == a
  }

  /** No key twice in one object, at any level. */
  ghost predicate KeysDiffer(v: Value)
    decreases v
  {
    match v
    case List(items) => forall i | 0 <= i < |items| :: KeysDiffer(items[i])
    case Object(fields) =>
      (forall i, j | 0 <= i < j < |fields| :: fields[i].key != fields[j].key) &&
      forall i | 0 <= i < |fields| :: KeysDiffer(fields[i].value)
    case _ => true
  }

  /** In every object, the keys ascend by their first differing character, a shorter prefix first. */
  ghost predicate KeysAscend(v: Value)
    decreases v
  {
    match v
    case List(items) => forall i | 0 <= i < |items| :: KeysAscend(items[i])
    case Object(fields) =>
      (forall i, j | 0 <= i < j < |fields| :: fields[i].key == fields[j].key || ComesBefore(fields[i].key, fields[j].key)) &&
      forall i | 0 <= i < |fields| :: KeysAscend(fields[i].value)
    case _ => true
  }

  // ----- Permutations and multisets -----

  function Dropped<X>(xs: seq<X>, k: nat): seq<X>
    requires k < |xs|
  {
    xs[..k] + xs[k + 1..]
  }

  /** The place in the whole list of what is at place `q` once place `k` is dropped. */
  function Widen(q: nat, k: nat): nat { if q < k then q else q + 1 }

  lemma {:induction false} MatchUp<X>(xs: seq<X>, ys: seq<X>) returns (p: seq<nat>)
    requires multiset(xs) == multiset(ys)
    ensures IsPermutation(p, |xs|) && |xs| == |ys| && forall i | 0 <= i < |xs| :: xs[i] == ys[p[i]]
  {
    assert |multiset(xs)| == |multiset(ys)|;
    if xs == [] {
      p := [];
    } else {
      var x, t := xs[0], xs[1..];
      assert xs == [x] + t;
      InSameMultiset(xs, ys, x);
      var k :| 0 <= k < |ys| && ys[k] == x;
      assert ys == ys[..k] + [x] + ys[k + 1..];
      RemoveOne(x, t, ys[..k], ys[k + 1..]);
      var q := MatchUp(t, Dropped(ys, k));
      p := WithPlace(xs, ys, k, q);
    }
  }

  lemma WithPlace<X>(xs: seq<X>, ys: seq<X>, k: nat, q: seq<nat>) returns (p: seq<nat>)
    requires xs != [] && k < |ys| == |xs| && xs[0] == ys[k] && IsPermutation(q, |xs| - 1)
    requires forall i | 0 <= i < |q| :: xs[1..][i] == Dropped(ys, k)[q[i]]
    ensures IsPermutation(p, |xs|) && forall i | 0 <= i < |xs| :: xs[i] == ys[p[i]]
  {
    p := [k] + seq(|q|, i requires 0 <= i < |q| => Widen(q[i], k));
    forall i | 1 <= i < |xs| ensures p[i] == Widen(q[i - 1], k) && p[i] != k && xs[i] == ys[p[i]] {
      assert xs[i] == xs[1..][i - 1];
    }
    forall i, j | 1 <= i < j < |xs| ensures p[i] != p[j] { assert q[i - 1] != q[j - 1]; }
  }

  lemma {:induction false} PermutedMultiset<X>(xs: seq<X>, ys: seq<X>, p: seq<nat>)
    requires IsPermutation(p, |xs|) && |xs| == |ys| && forall i | 0 <= i < |xs| :: xs[i] == ys[p[i]]
    ensures multiset(xs) == multiset(ys)
  {
    if xs != [] {
      var k := p[0];
      var q := seq(|p| - 1, i requires 0 <= i < |p| - 1 => if p[i + 1] < k then p[i + 1] else p[i + 1] - 1);
      PermutedMultiset(xs[1..], Dropped(ys, k), q);
      assert xs == [xs[0]] + xs[1..] && ys == ys[..k] + [ys[k]] + ys[k + 1..];
    }
  }

  // ----- Sorting keeps the contents -----

  lemma {:induction false} SortedHoldsTheSame(v: Value)
    ensures SameContents(Sorted(v), v)
    decreases v, 1
  {
    match v
    case List(items) => ItemsHoldTheSame(items);
    case Object(fields) =>
      FieldsHoldTheSame(fields);
      ObjectUnfold(fields);
      var plain, sorted := SortedFields(fields), SortOn(KeyOf, StringLe, SortedFields(fields));
      assert Sorted(v) == Object(sorted);
      hide SortOn, StringLe, SortedFields, Sorted, SameContents;
      var p := MatchUp(sorted, plain);
      assert forall i | 0 <= i < |sorted| :: sorted[i] == plain[p[i]];
      SameObject(sorted, fields, p);
    case _ =>
  }

  lemma SameObject(fs: seq<Field>, gs: seq<Field>, p: seq<nat>)
    requires |fs| == |gs| && IsPermutation(p, |fs|)
    requires forall i | 0 <= i < |fs| :: fs[i].key == gs[p[i]].key && SameContents(fs[i].value, gs[p[i]].value)
    ensures SameContents(Object(fs), Object(gs))
  {
  }

  lemma {:induction false} ItemsHoldTheSame(items: seq<Value>)
    ensures |SortedItems(items)| == |items| && forall i | 0 <= i < |items| :: SameContents(SortedItems(items)[i], items[i])
    decreases items, 0
  {
    if items != [] {
      SortedHoldsTheSame(items[0]);
      ItemsHoldTheSame(items[1..]);
      assert forall i | 0 < i < |items| :: items[i] == items[1..][i - 1];
    }
  }

  lemma {:induction false} FieldsHoldTheSame(fields: seq<Field>)
    ensures |SortedFields(fields)| == |fields|
    ensures forall i | 0 <= i < |fields| ::
      SortedFields(fields)[i].key == fields[i].key && SameContents(SortedFields(fields)[i].value, fields[i].value)
    decreases fields, 0
  {
    if fields != [] {
      SortedHoldsTheSame(fields[0].value);
      FieldsHoldTheSame(fields[1..]);
      assert forall i | 0 < i < |fields| :: fields[i] == fields[1..][i - 1];
    }
  }

  // ----- The order of keys makes no difference -----

  lemma {:induction false} SortedIgnoresOrder(a: Value, b: Value)
    requires SameContents(a, b) && KeysDiffer(a)
    ensures Sorted(a) == Sorted(b)
    decreases a, 1
  {
    match a
    case List(items) => ItemsIgnoreOrder(items, b.items);
    case Object(fields) =>
      var p :| IsPermutation(p, |fields|) &&
        forall i | 0 <= i < |fields| :: fields[i].key == b.fields[p[i]].key && SameContents(fields[i].value, b.fields[p[i]].value);
      ObjectIgnoresOrder(fields, b.fields, p);
    case _ =>
  }

  lemma {:induction false} ObjectIgnoresOrder(fs: seq<Field>, gs: seq<Field>, p: seq<nat>)
    requires |fs| == |gs| && IsPermutation(p, |fs|) && forall i, j | 0 <= i < j < |fs| :: fs[i].key != fs[j].key
    requires forall i | 0 <= i < |fs| ::
      fs[i].key == gs[p[i]].key && SameContents(fs[i].value, gs[p[i]].value) && KeysDiffer(fs[i].value)
    ensures Sorted(Object(fs)) == Sorted(Object(gs))
    decreases fs, 0
  {
    hide Sorted, SameContents, KeysDiffer;
    var x, y := SortedFields(fs), SortedFields(gs);
    FieldsHoldTheSame(fs);
    FieldsHoldTheSame(gs);
    forall i | 0 <= i < |fs| ensures x[i] == y[p[i]] {
      SortedIgnoresOrder(fs[i].value, gs[p[i]].value);
      SortedFieldsAt(fs, i);
      SortedFieldsAt(gs, p[i]);
    }
    PermutedMultiset(x, y, p);
    SortAlike(x, y);
    ObjectUnfold(fs);
    ObjectUnfold(gs);
  }

  lemma {:induction false} ItemsIgnoreOrder(xs: seq<Value>, ys: seq<Value>)
    requires |xs| == |ys| && forall i | 0 <= i < |xs| :: SameContents(xs[i], ys[i]) && KeysDiffer(xs[i])
    ensures SortedItems(xs) == SortedItems(ys)
    decreases xs, 0
  {
    if xs != [] {
      SortedIgnoresOrder(xs[0], ys[0]);
      ItemsIgnoreOrder(xs[1..], ys[1..]);
    }
  }

  /** Fields with different keys sort to one list, whatever their order. */
  lemma SortAlike(x: seq<Field>, y: seq<Field>)
    requires multiset(x) == multiset(y) && forall i, j | 0 <= i < j < |x| :: x[i].key != x[j].key
    ensures SortOn(KeyOf, StringLe, x) == SortOn(KeyOf, StringLe, y)
  {
    hide SortOn, StringLe;
    var a, b := SortOn(KeyOf, StringLe, x), SortOn(KeyOf, StringLe, y);
    StringLeIsTotal();
    ProjectMultiset(KeyOf, x, y);
    SortedKeysIgnoreOrder(KeyOf, StringLe, x, y);
    assert |multiset(x)| == |multiset(y)|;
    forall i | 0 <= i < |a| ensures a[i] == b[i] {
      assert Project(KeyOf, a)[i] == Project(KeyOf, b)[i];
      InSameMultiset(a, x, a[i]);
      InSameMultiset(b, x, b[i]);
    }
  }

  /** Two ledgers whose top-level keys are in one order, and whose values differ in the order
      of inner keys alone, are written alike. */
  lemma LedgerTextIgnoresKeyOrder(a: seq<Field>, b: seq<Field>, collections: set<string>)
    requires |a| == |b|
    requires forall i | 0 <= i < |a| :: a[i].key == b[i].key && SameContents(a[i].value, b[i].value) && KeysDiffer(a[i].value)
    ensures LedgerText(a, collections) == LedgerText(b, collections)
  {
    FieldsAlike(a, b);
  }

  lemma {:induction false} FieldsAlike(a: seq<Field>, b: seq<Field>)
    requires |a| == |b|
    requires forall i | 0 <= i < |a| :: a[i].key == b[i].key && SameContents(a[i].value, b[i].value) && KeysDiffer(a[i].value)
    ensures SortedFields(a) == SortedFields(b)
  {
    if a != [] {
      SortedIgnoresOrder(a[0].value, b[0].value);
      FieldsAlike(a[1..], b[1..]);
    }
  }

  // ----- The order that is written -----

  lemma {:induction false} SortedAscends(v: Value)
    ensures KeysAscend(Sorted(v))
    decreases v, 1
  {
    match v
    case List(items) => ItemsAscend(items);
    case Object(fields) =>
      FieldsAscend(fields);
      ObjectUnfold(fields);
      SortAscends(SortedFields(fields));
    case _ =>
  }

  lemma {:induction false} ItemsAscend(items: seq<Value>)
    ensures forall i | 0 <= i < |SortedItems(items)| :: KeysAscend(SortedItems(items)[i])
    decreases items, 0
  {
    if items != [] {
      SortedAscends(items[0]);
      ItemsAscend(items[1..]);
    }
  }

  lemma {:induction false} FieldsAscend(fields: seq<Field>)
    ensures forall i | 0 <= i < |SortedFields(fields)| :: KeysAscend(SortedFields(fields)[i].value)
    decreases fields, 0
  {
    if fields != [] {
      SortedAscends(fields[0].value);
      FieldsAscend(fields[1..]);
    }
  }

  lemma SortAscends(fields: seq<Field>)
    requires forall i | 0 <= i < |fields| :: KeysAscend(fields[i].value)
    ensures KeysAscend(Object(SortOn(KeyOf, StringLe, fields)))
  {
    hide SortOn, StringLe, ComesBefore;
    var sorted := SortOn(KeyOf, StringLe, fields);
    StringLeIsTotal();
    SortOnSorts(KeyOf, StringLe, fields);
    forall i, j | 0 <= i < j < |sorted| ensures sorted[i].key == sorted[j].key || ComesBefore(sorted[i].key, sorted[j].key) {
      assert StringLe(KeyOf(sorted[i]), KeyOf(sorted[j]));
      StringLeMeans(sorted[i].key, sorted[j].key);
    }
    forall i | 0 <= i < |sorted| ensures KeysAscend(sorted[i].value) { InSameMultiset(sorted, fields, sorted[i]); }
  }

  /** What the ledger text reads back as: the top-level keys in the ledger's own order, under
      each the value the ledger holds, and below the top every object with its keys ascending. */
  lemma LedgerTextReads(ledger: seq<Field>, collections: set<string>)
    ensures var parsed := Loads(LedgerText(ledger, collections));
      parsed.Some? && parsed.value.Object? && |parsed.value.fields| == |ledger| &&
      forall i | 0 <= i < |ledger| ::
        var f := parsed.value.fields[i];
        f.key == ledger[i].key && SameContents(f.value, ledger[i].value) && KeysAscend(f.value)
  {
    hide Loads, LedgerText, SameContents, KeysAscend;
    LedgerRoundTrip(ledger, collections);
    FieldsHoldTheSame(ledger);
    FieldsAscend(ledger);
  }

  // ----- The bytes that are written -----

  function ItemTexts(items: seq<Value>, l: Layout): (r: seq<string>)
    ensures |r| == |items| && forall i | 0 <= i < |r| :: r[i] == Render(items[i], l)
  {
    seq(|items|, i requires 0 <= i < |items| => Render(items[i], l))
  }

  function FieldTexts(fields: seq<Field>, l: Layout): (r: seq<string>)
    ensures |r| == |fields| && forall i | 0 <= i < |r| :: r[i] == Quote(fields[i].key) + ": " + Render(fields[i].value, l)
  {
    seq(|fields|, i requires 0 <= i < |fields| => Quote(fields[i].key) + ": " + Render(fields[i].value, l))
  }

  lemma {:induction false} ItemsJoined(items: seq<Value>, l: Layout)
    ensures RenderItems(items, l) == T.Join(Separator(l), ItemTexts(items, Inner(l)))
  {
    hide Separator, Render;
    if |items| > 1 {
      ItemsJoined(items[1..], l);
      assert ItemTexts(items, Inner(l))[1..] == ItemTexts(items[1..], Inner(l));
      Associative(Render(items[0], Inner(l)), Separator(l), RenderItems(items[1..], l));
    }
  }

  lemma {:induction false} FieldsJoined(fields: seq<Field>, l: Layout)
    requires !l.Ledger?
    ensures RenderFields(fields, l) == T.Join(Separator(l), FieldTexts(fields, Inner(l)))
  {
    hide Separator, Render;
    if |fields| > 1 {
      FieldsJoined(fields[1..], l);
      assert FieldTexts(fields, Inner(l))[1..] == FieldTexts(fields[1..], Inner(l));
      Associative(RenderField(fields[0], l), Separator(l), RenderFields(fields[1..], l));
    }
  }

  /** A record stands on one line, with a space after every comma and colon. */
  lemma CompactBytes(items: seq<Value>, fields: seq<Field>)
    ensures Render(List(items), Compact) == "[" + T.Join(", ", ItemTexts(items, Compact)) + "]"
    ensures Render(Object(fields), Compact) == "{" + T.Join(", ", FieldTexts(fields, Compact)) + "}"
  {
    hide RenderItems, RenderFields;
    ItemsJoined(items, Compact);
    FieldsJoined(fields, Compact);
    assert "[" + "" == "[" && "{" + "" == "{";
    assert "[" + T.Join(", ", []) + "]" == "[]" && "{" + T.Join(", ", []) + "}" == "{}";
  }

  /** Anything else is indented by two spaces a level, each element on lines of its own. */
  lemma IndentedBytes(items: seq<Value>, fields: seq<Field>, k: nat)
    ensures var inner, outer := "\n" + T.Spaces(2 * k + 2), "\n" + T.Spaces(2 * k);
      (Render(List(items), Indented(k)) ==
        if items == [] then "[]" else "[" + inner + T.Join("," + inner, ItemTexts(items, Indented(k + 1))) + outer + "]") &&
      (Render(Object(fields), Indented(k)) ==
        if fields == [] then "{}" else "{" + inner + T.Join("," + inner, FieldTexts(fields, Indented(k + 1))) + outer + "}")
  {
    hide RenderItems, RenderFields, ItemTexts, FieldTexts, T.Join, T.Spaces;
    ItemsJoined(items, Indented(k));
    FieldsJoined(fields, Indented(k));
    assert ",\n" + T.Spaces(2 * k + 2) == "," + ("\n" + T.Spaces(2 * k + 2));
  }

  /** Printable ASCII stands for itself in a string. */
  lemma {:induction false} PlainBytes(s: string)
    requires forall i | 0 <= i < |s| :: ' ' <= s[i] <= '~' && s[i] != '"' && s[i] != '\\'
    ensures EscapeAll(s) == s && Quote(s) == "\"" + s + "\""
  {
    if s != "" {
      PlainBytes(s[1..]);
      assert EscapeChar(s[0]) == [s[0]];
      assert s == [s[0]] + s[1..];
    }
  }

  /** Seven characters have escapes of their own. */
  lemma ShortEscapes()
    ensures EscapeChar('"') == "\\\"" && EscapeChar('\\') == "\\\\" && EscapeChar('\n') == "\\n" && EscapeChar('\r') == "\\r"
    ensures EscapeChar('\t') == "\\t" && EscapeChar(12 as char) == "\\f" && EscapeChar(8 as char) == "\\b"
  {
  }

  /** A backslash, a `u` and four small hexadecimal digits. */
  predicate IsUnit(s: string) {
    |s| == 6 && s[0] == '\\' && s[1] == 'u' && forall i | 2 <= i < 6 :: s[i] in "0123456789abcdef"
  }

  /** Every other character that is not printable ASCII is written by its code units. */
  lemma UnitEscapes(c: char)
    requires (c < ' ' || '~' < c) && c !in "\n\r\t" && c as int != 12 && c as int != 8
    ensures var e := EscapeChar(c);
      if c as int < 0x10000 then IsUnit(e) else |e| == 12 && IsUnit(e[..6]) && IsUnit(e[6..])
  {
    hide UnicodeEscape, IsUnit;
    if c as int < 0x10000 {
      UnitBytes(c as int);
    } else {
      var v := c as int - 0x10000;
      var a, b := UnicodeEscape(0xD800 + v / 0x400), UnicodeEscape(0xDC00 + v % 0x400);
      UnitBytes(0xD800 + v / 0x400);
      UnitBytes(0xDC00 + v % 0x400);
      assert EscapeChar(c) == a + b && (a + b)[..6] == a && (a + b)[6..] == b;
    }
  }

  lemma SmallHex(d: nat)
    requires d < 16
    ensures HexDigit(d) in "0123456789abcdef"
  {
    var all := "0123456789abcdef";
    assert HexDigit(d) == all[d];
  }

  lemma UnitBytes(u: nat)
    requires u < 0x10000
    ensures IsUnit(UnicodeEscape(u))
  {
    hide HexDigit;
    SmallHex(u / 0x1000);
    SmallHex(u / 0x100 % 16);
    SmallHex(u / 16 % 16);
    SmallHex(u % 16);
  }
}
