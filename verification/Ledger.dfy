/** tools/ledgerFormat.py: the canonical text of a ledger. */
module Ledger {
  import opened Json
  import T = Text

  /** The keys named as collections hold record collections: lists or dicts. */
  predicate Renderable(ledger: seq<Field>, collections: set<string>) {
    forall i | 0 <= i < |ledger| :: ledger[i].key in collections ==> ledger[i].value.List? || ledger[i].value.Object?
  }

  const RECORD_INDENT := "    "

  // ----- The lines the source appends -----

  function Comma(last: bool): string { if last then "" else "," }

  function Entries(v: Value): seq<string>
    requires v.List? || v.Object?
  {
    match Sorted(v)
    case List(items) => ListEntries(items)
    case Object(fields) => DictEntries(fields)
  }

  function ListEntries(items: seq<Value>): (r: seq<string>)
    ensures |r| == |items| && forall i | 0 <= i < |r| :: r[i] == Render(items[i], Compact)
  {
    if items == [] then [] else [Render(items[0], Compact)] + ListEntries(items[1..])
  }

  function DictEntries(fields: seq<Field>): (r: seq<string>)
    ensures |r| == |fields| && forall i | 0 <= i < |r| :: r[i] == RenderField(fields[i], Compact)
  {
    if fields == [] then [] else [RenderField(fields[0], Compact)] + DictEntries(fields[1..])
  }

  function EntryLines(entries: seq<string>): (r: seq<string>)
    ensures |r| == |entries|
    ensures forall i | 0 <= i < |r| :: r[i] == RECORD_INDENT + entries[i] + Comma(i == |entries| - 1)
  {
    if entries == [] then []
    else [RECORD_INDENT + entries[0] + Comma(|entries| == 1)] + EntryLines(entries[1..])
  }

  function RecordLines(key: string, v: Value, trailing: string): seq<string>
    requires v.List? || v.Object?
  {
    var open, close := if v.List? then "[" else "{", if v.List? then "]" else "}";
    var entries := Entries(v);
    if entries == [] then ["  " + Quote(key) + ": " + open + close + trailing]
    else ["  " + Quote(key) + ": " + open] + EntryLines(entries) + ["  " + close + trailing]
  }

  function Reindented(s: string): string { T.Join("\n  ", T.SplitChar(s, '\n')) }

  function FieldLines(f: Field, collections: set<string>, trailing: string): seq<string>
    requires f.key in collections ==> f.value.List? || f.value.Object?
  {
    if f.key in collections then RecordLines(f.key, f.value, trailing)
    else ["  " + Quote(f.key) + ": " + Reindented(DumpsIndented(f.value)) + trailing]
  }

  /** The lines of the fields from number `i` on. */
  function BodyLines(ledger: seq<Field>, collections: set<string>, i: nat): seq<string>
    requires i <= |ledger| && Renderable(ledger, collections)
    decreases |ledger| - i
  {
    if i == |ledger| then []
    else FieldLines(ledger[i], collections, Comma(i == |ledger| - 1)) + BodyLines(ledger, collections, i + 1)
  }

  function LedgerLines(ledger: seq<Field>, collections: set<string>): seq<string>
    requires Renderable(ledger, collections)
  {
    ["{"] + BodyLines(ledger, collections, 0) + ["}"]
  }

  // ----- The text as one JSON value in the ledger layout -----

  function LedgerText(ledger: seq<Field>, collections: set<string>): string {
    (if ledger == [] then "{\n}" else Render(Object(SortedFields(ledger)), Json.Ledger(collections))) + "\n"
  }

  /** Every line with its newline. */
  function Lines(lines: seq<string>): string {
    if lines == [] then "" else lines[0] + "\n" + Lines(lines[1..])
  }

  lemma {:induction false} JoinIsLines(lines: seq<string>)
    requires lines != []
    ensures T.Join("\n", lines) + "\n" == Lines(lines)
  {
    if |lines| > 1 { JoinIsLines(lines[1..]); }
  }

  lemma {:induction false} LinesAppend(a: seq<string>, b: seq<string>)
    ensures Lines(a + b) == Lines(a) + Lines(b)
  {
    if a == [] {
      assert a + b == b;
    } else {
      assert (a + b)[1..] == a[1..] + b;
      LinesAppend(a[1..], b);
    }
  }

  // ----- Indenting once more -----

  function Deeper(s: string): string {
    if s == [] then [] else (if s[0] == '\n' then "\n  " else [s[0]]) + Deeper(s[1..])
  }

  lemma {:induction false} DeeperAppend(a: string, b: string)
    ensures Deeper(a + b) == Deeper(a) + Deeper(b)
  {
    if a == [] {
      assert a + b == b;
    } else {
      assert (a + b)[1..] == a[1..] + b;
      DeeperAppend(a[1..], b);
    }
  }

  lemma {:induction false} ReindentedIsDeeper(s: string)
    ensures Reindented(s) == Deeper(s)
  {
    if s != [] {
      ReindentedIsDeeper(s[1..]);
      var rest := T.SplitChar(s[1..], '\n');
      if s[0] == '\n' {
        assert ([""] + rest)[1..] == rest;
      } else {
        assert ([[s[0]] + rest[0]] + rest[1..])[1..] == rest[1..];
      }
    }
  }

  predicate NoNewline(s: string) { forall i | 0 <= i < |s| :: s[i] != '\n' }

  lemma {:induction false} DeeperKeeps(s: string)
    requires NoNewline(s)
    ensures Deeper(s) == s
  {
    if s != [] { DeeperKeeps(s[1..]); }
  }

  lemma EscapeHasNoNewline(c: char)
    ensures NoNewline(EscapeChar(c))
  {
  }

  lemma {:induction false} QuotedHasNoNewline(s: string)
    ensures NoNewline(EscapeAll(s)) && NoNewline(Quote(s))
  {
    hide EscapeChar;
    if s != [] {
      QuotedHasNoNewline(s[1..]);
      EscapeHasNoNewline(s[0]);
    }
  }

  lemma DeeperAtoms(v: Value, l: Layout)
    requires !v.List? && !v.Object?
    ensures NoNewline(Render(v, l)) && Deeper(Render(v, l)) == Render(v, l)
  {
    match v
    case Text(s) => QuotedHasNoNewline(s); DeeperKeeps(Render(v, l));
    case _ => DeeperKeeps(Render(v, l));
  }

  lemma DeeperBreaks(k: nat)
    ensures Deeper(AfterOpen(Indented(k))) == AfterOpen(Indented(k + 1))
    ensures Deeper(Separator(Indented(k))) == Separator(Indented(k + 1))
    ensures Deeper(BeforeClose(Indented(k))) == BeforeClose(Indented(k + 1))
  {
    DeeperLineBreak(2 * (k + 1));
    DeeperLineBreak(2 * k);
    var sep := ",\n" + T.Spaces(2 * (k + 1));
    assert sep[1..] == "\n" + T.Spaces(2 * (k + 1));
    assert [','] + ("\n" + T.Spaces(2 * (k + 2))) == Separator(Indented(k + 1));
  }

  lemma DeeperLineBreak(n: nat)
    ensures Deeper("\n" + T.Spaces(n)) == "\n" + T.Spaces(n + 2)
  {
    DeeperKeeps(T.Spaces(n));
    assert ("\n" + T.Spaces(n))[1..] == T.Spaces(n);
    assert "\n  " + T.Spaces(n) == "\n" + T.Spaces(n + 2);
  }

  lemma DeeperBrackets(open: string, a: string, body: string, z: string, close: string)
    requires NoNewline(open) && NoNewline(close)
    ensures Deeper(open + a + body + z + close) == open + Deeper(a) + Deeper(body) + Deeper(z) + close
  {
    DeeperAppend(open + a + body + z, close);
    DeeperAppend(open + a + body, z);
    DeeperAppend(open + a, body);
    DeeperAppend(open, a);
    DeeperKeeps(open);
    DeeperKeeps(close);
  }

  /** Indenting an indented rendering once more gives the rendering one level deeper:
      the inside of a string is never touched, because no encoded string breaks a line. */
  lemma {:induction false} DeeperRender(v: Value, k: nat)
    ensures Deeper(Render(v, Indented(k))) == Render(v, Indented(k + 1))
    decreases v, 1, 0
  {
    hide Deeper, AfterOpen, Separator, BeforeClose, NoNewline;
    DeeperBreaks(k);
    match v
    case List(items) =>
      ShortTexts();
      if items != [] {
        DeeperItems(items, k);
        DeeperBrackets("[", AfterOpen(Indented(k)), RenderItems(items, Indented(k)), BeforeClose(Indented(k)), "]");
      }
    case Object(fields) =>
      ShortTexts();
      if fields != [] {
        DeeperFields(fields, k);
        DeeperBrackets("{", AfterOpen(Indented(k)), RenderFields(fields, Indented(k)), BeforeClose(Indented(k)), "}");
      }
    case _ =>
      DeeperAtoms(v, Indented(k));
      DeeperAtoms(v, Indented(k + 1));
  }

  lemma ShortTexts()
    ensures NoNewline("[") && NoNewline("]") && NoNewline("{") && NoNewline("}") && NoNewline(": ")
    ensures Deeper("[]") == "[]" && Deeper("{}") == "{}" && Deeper("") == ""
  {
    DeeperKeeps("[]");
    DeeperKeeps("{}");
  }

  lemma {:induction false} DeeperItems(items: seq<Value>, k: nat)
    ensures Deeper(RenderItems(items, Indented(k))) == RenderItems(items, Indented(k + 1))
    decreases items, 0, |items|
  {
    hide Deeper, Render, Separator;
    ShortTexts();
    if items != [] {
      DeeperBreaks(k);
      DeeperRender(items[0], k + 1);
      var first := Render(items[0], Indented(k + 1));
      if |items| > 1 {
        DeeperItems(items[1..], k);
        var more := RenderItems(items[1..], Indented(k));
        DeeperAppend(first, Separator(Indented(k)) + more);
        DeeperAppend(Separator(Indented(k)), more);
      } else {
        assert first + "" == first && Render(items[0], Indented(k + 2)) + "" == Render(items[0], Indented(k + 2));
      }
    }
  }

  lemma {:induction false} DeeperField(f: Field, k: nat)
    ensures Deeper(RenderField(f, Indented(k))) == RenderField(f, Indented(k + 1))
    decreases f, 0, 0
  {
    hide Deeper, Render, Quote, NoNewline;
    ShortTexts();
    DeeperRender(f.value, k + 1);
    QuotedHasNoNewline(f.key);
    DeeperKeeps(Quote(f.key));
    DeeperKeeps(": ");
    DeeperAppend(Quote(f.key) + ": ", Render(f.value, Indented(k + 1)));
    DeeperAppend(Quote(f.key), ": ");
  }

  lemma {:induction false} DeeperFields(fields: seq<Field>, k: nat)
    ensures Deeper(RenderFields(fields, Indented(k))) == RenderFields(fields, Indented(k + 1))
    decreases fields, 0, |fields|
  {
    hide Deeper, RenderField, Separator;
    ShortTexts();
    if fields != [] {
      DeeperBreaks(k);
      DeeperField(fields[0], k);
      var first := RenderField(fields[0], Indented(k));
      if |fields| > 1 {
        DeeperFields(fields[1..], k);
        var more := RenderFields(fields[1..], Indented(k));
        DeeperAppend(first, Separator(Indented(k)) + more);
        DeeperAppend(Separator(Indented(k)), more);
      } else {
        assert first + "" == first && RenderField(fields[0], Indented(k + 1)) + "" == RenderField(fields[0], Indented(k + 1));
      }
    }
  }
}
