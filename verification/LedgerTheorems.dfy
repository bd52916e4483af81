/** The rendered ledger parses back, re-renders to itself, and keeps one record per line. */
module LedgerTheorems {
  import opened Numerals
  import opened Orders
  import opened Json
  import opened JsonRoundTrip
  import opened Ledger
  import T = Text

  // ----- The appended lines spell the ledger layout -----

  lemma Indents()
    ensures T.Spaces(2) == "  " && T.Spaces(4) == RECORD_INDENT && T.Spaces(0) == ""
    ensures AfterOpen(Records) == "\n" + RECORD_INDENT && Separator(Records) == ",\n" + RECORD_INDENT
    ensures BeforeClose(Records) == "\n  "
  {
  }

  lemma LinesOne(a: string)
    ensures Lines([a]) == a + "\n"
  {
    assert [a][1..] == [];
  }

  lemma LinesCons(a: string, rest: seq<string>)
    ensures Lines([a] + rest) == a + "\n" + Lines(rest)
  {
    assert ([a] + rest)[1..] == rest;
  }

  /** One more entry line, whichever kind of collection it is in. */
  lemma EntryStep(entries: seq<string>, more: string)
    requires |entries| > 1 && Lines(EntryLines(entries[1..])) == RECORD_INDENT + more + "\n"
    ensures Lines(EntryLines(entries)) == RECORD_INDENT + (entries[0] + (Separator(Records) + more)) + "\n"
  {
    hide Lines, Separator;
    var line := RECORD_INDENT + entries[0] + ",";
    EntryLinesStep(entries);
    LinesCons(line, EntryLines(entries[1..]));
    hide EntryLines;
    Indents();
    EntryText(RECORD_INDENT, entries[0], more);
  }

  lemma EntryLinesStep(entries: seq<string>)
    requires |entries| > 1
    ensures EntryLines(entries) == [RECORD_INDENT + entries[0] + ","] + EntryLines(entries[1..])
  {
  }

  lemma EntryText(indent: string, entry: string, more: string)
    ensures indent + entry + "," + "\n" + (indent + more + "\n") == indent + (entry + (",\n" + indent + more)) + "\n"
  {
    var tail := indent + more + "\n";
    assert indent + entry + "," + "\n" + tail == indent + entry + (",\n" + tail);
    assert ",\n" + tail == ",\n" + indent + more + "\n";
    assert indent + (entry + (",\n" + indent + more)) == indent + entry + (",\n" + indent + more);
  }

  lemma OneEntry(entry: string)
    ensures Lines(EntryLines([entry])) == RECORD_INDENT + entry + "\n"
  {
    assert EntryLines([entry]) == [RECORD_INDENT + entry + ""];
    LinesOne(RECORD_INDENT + entry + "");
    assert RECORD_INDENT + entry + "" == RECORD_INDENT + entry;
  }

  lemma {:induction false} ListLines(items: seq<Value>)
    requires items != []
    ensures Lines(EntryLines(ListEntries(items))) == RECORD_INDENT + RenderItems(items, Records) + "\n"
  {
    hide Render, EntryLines, Lines, Separator;
    var entries := ListEntries(items);
    if |items| == 1 {
      assert entries == [Render(items[0], Compact)];
      OneEntry(entries[0]);
      assert RenderItems(items, Records) == entries[0] + "" == entries[0];
    } else {
      assert entries[1..] == ListEntries(items[1..]);
      ListLines(items[1..]);
      EntryStep(entries, RenderItems(items[1..], Records));
    }
  }

  lemma {:induction false} DictLines(fields: seq<Field>)
    requires fields != []
    ensures Lines(EntryLines(DictEntries(fields))) == RECORD_INDENT + RenderFields(fields, Records) + "\n"
  {
    hide Render, Quote, EntryLines, Lines, Separator;
    var entries := DictEntries(fields);
    assert RenderField(fields[0], Records) == RenderField(fields[0], Compact);
    if |fields| == 1 {
      assert entries == [RenderField(fields[0], Compact)];
      OneEntry(entries[0]);
      assert RenderFields(fields, Records) == entries[0] + "" == entries[0];
    } else {
      assert entries[1..] == DictEntries(fields[1..]);
      DictLines(fields[1..]);
      EntryStep(entries, RenderFields(fields[1..], Records));
    }
  }

  lemma RecordBlock(key: string, open: string, body: string, close: string, trailing: string, entries: seq<string>)
    requires Lines(EntryLines(entries)) == RECORD_INDENT + body + "\n"
    ensures Lines(["  " + Quote(key) + ": " + open] + EntryLines(entries) + ["  " + close + trailing]) ==
      "  " + (Quote(key) + ": " + (open + AfterOpen(Records) + body + BeforeClose(Records) + close)) + trailing + "\n"
  {
    Indents();
    hide AfterOpen, BeforeClose, Quote, Lines, EntryLines;
    var first, last := "  " + Quote(key) + ": " + open, "  " + close + trailing;
    LinesAppend([first] + EntryLines(entries), [last]);
    LinesCons(first, EntryLines(entries));
    LinesOne(last);
    assert first + "\n" + (RECORD_INDENT + body + "\n") + (last + "\n") ==
      "  " + (Quote(key) + ": " + (open + ("\n" + RECORD_INDENT) + body + "\n  " + close)) + trailing + "\n";
  }

  lemma RecordLinesText(key: string, v: Value, trailing: string)
    requires v.List? || v.Object?
    ensures Lines(RecordLines(key, v, trailing)) ==
      "  " + (Quote(key) + ": " + Render(Sorted(v), Records)) + trailing + "\n"
  {
    hide Quote, AfterOpen, BeforeClose, Lines, EntryLines, Sorted, RenderItems, RenderFields;
    SortedShape(v);
    match Sorted(v)
    case List(items) =>
      if items == [] {
        EmptyBlock(key, "[]", trailing);
      } else {
        ListLines(items);
        RecordBlock(key, "[", RenderItems(items, Records), "]", trailing, ListEntries(items));
      }
    case Object(fields) =>
      if fields == [] {
        EmptyBlock(key, "{}", trailing);
      } else {
        DictLines(fields);
        RecordBlock(key, "{", RenderFields(fields, Records), "}", trailing, DictEntries(fields));
      }
    case _ =>
  }

  lemma EmptyBlock(key: string, brackets: string, trailing: string)
    requires |brackets| == 2
    ensures Lines(["  " + Quote(key) + ": " + brackets[..1] + brackets[1..] + trailing]) ==
      "  " + (Quote(key) + ": " + brackets) + trailing + "\n"
    ensures "[]"[..1] == "[" && "[]"[1..] == "]" && "{}"[..1] == "{" && "{}"[1..] == "}"
  {
    LinesOne("  " + Quote(key) + ": " + brackets[..1] + brackets[1..] + trailing);
    assert brackets[..1] + brackets[1..] == brackets;
  }

  lemma SortedShape(v: Value)
    ensures v.List? <==> Sorted(v).List?
    ensures v.Object? <==> Sorted(v).Object?
  {
  }

  lemma FieldLinesText(f: Field, collections: set<string>, trailing: string)
    requires f.key in collections ==> f.value.List? || f.value.Object?
    ensures Lines(FieldLines(f, collections, trailing)) ==
      "  " + RenderField(Field(f.key, Sorted(f.value)), Json.Ledger(collections)) + trailing + "\n"
  {
    hide Quote, Lines, RecordLines, Sorted, Render, Reindented;
    if f.key in collections {
      RecordLinesText(f.key, f.value, trailing);
    } else {
      ReindentedIsDeeper(DumpsIndented(f.value));
      DeeperRender(Sorted(f.value), 0);
      LinesOne("  " + Quote(f.key) + ": " + Reindented(DumpsIndented(f.value)) + trailing);
    }
  }

  lemma {:induction false} SortedFieldsAt(fields: seq<Field>, i: nat)
    requires i < |fields|
    ensures |SortedFields(fields)| == |fields|
    ensures SortedFields(fields)[i] == Field(fields[i].key, Sorted(fields[i].value))
    ensures SortedFields(fields)[i + 1..] == SortedFields(fields[i + 1..])
  {
    if i > 0 {
      SortedFieldsAt(fields[1..], i - 1);
    } else {
      SortedFieldsLength(fields);
    }
  }

  lemma {:induction false} SortedFieldsLength(fields: seq<Field>)
    ensures |SortedFields(fields)| == |fields|
  {
    if fields != [] { SortedFieldsLength(fields[1..]); }
  }

  lemma {:induction false} BodyLinesText(ledger: seq<Field>, collections: set<string>, i: nat)
    requires i < |ledger| && Renderable(ledger, collections) && |SortedFields(ledger)| == |ledger|
    ensures Lines(BodyLines(ledger, collections, i)) ==
      "  " + RenderFields(SortedFields(ledger)[i..], Json.Ledger(collections)) + "\n"
    decreases |ledger| - i
  {
    hide Lines, FieldLines, RenderField, SortedFields, Sorted;
    var fs := SortedFields(ledger);
    var last := i == |ledger| - 1;
    SortedFieldsAt(ledger, i);
    FieldLinesText(ledger[i], collections, Comma(last));
    LinesAppend(FieldLines(ledger[i], collections, Comma(last)), BodyLines(ledger, collections, i + 1));
    var first := RenderField(fs[i], Json.Ledger(collections));
    if last {
      assert fs[i..] == [fs[i]];
      NoLines();
      assert "  " + first + "" + "\n" + "" == "  " + (first + "") + "\n";
    } else {
      BodyLinesText(ledger, collections, i + 1);
      var more := RenderFields(fs[i + 1..], Json.Ledger(collections));
      assert fs[i..][1..] == fs[i + 1..];
      LedgerSeparator(collections);
      JoinedLines(first, more);
    }
  }

  lemma JoinedLines(first: string, more: string)
    ensures "  " + first + "," + "\n" + ("  " + more + "\n") == "  " + (first + (",\n  " + more)) + "\n"
  {
  }

  lemma NoLines()
    ensures Lines([]) == ""
  {
  }

  lemma LedgerSeparator(collections: set<string>)
    ensures Separator(Json.Ledger(collections)) == ",\n  " && AfterOpen(Json.Ledger(collections)) == "\n  "
    ensures BeforeClose(Json.Ledger(collections)) == "\n"
  {
    Indents();
  }

  /** What the source joins is the ledger rendered as one JSON value. */
  lemma LinesAreLedgerText(ledger: seq<Field>, collections: set<string>)
    requires Renderable(ledger, collections)
    ensures T.Join("\n", LedgerLines(ledger, collections)) + "\n" == LedgerText(ledger, collections)
  {
    hide Lines, RenderFields, SortedFields, BodyLines, LedgerText, T.Join;
    var body := BodyLines(ledger, collections, 0);
    JoinIsLines(LedgerLines(ledger, collections));
    LinesAppend(["{"] + body, ["}"]);
    LinesCons("{", body);
    LinesOne("}");
    if ledger == [] { EmptyText(collections); } else { WholeText(ledger, collections); }
  }

  lemma EmptyText(collections: set<string>)
    ensures "{" + "\n" + Lines(BodyLines([], collections, 0)) + ("}" + "\n") == LedgerText([], collections)
  {
  }

  lemma WholeText(ledger: seq<Field>, collections: set<string>)
    requires Renderable(ledger, collections) && ledger != []
    ensures "{" + "\n" + Lines(BodyLines(ledger, collections, 0)) + ("}" + "\n") == LedgerText(ledger, collections)
  {
    hide Lines, RenderFields, SortedFields, AfterOpen, BeforeClose, BodyLines;
    SortedFieldsLength(ledger);
    BodyLinesText(ledger, collections, 0);
    var fields := RenderFields(SortedFields(ledger), Json.Ledger(collections));
    assert SortedFields(ledger)[0..] == SortedFields(ledger);
    LedgerSeparator(collections);
    assert "{" + "\n" + ("  " + fields + "\n") + ("}" + "\n") == "{" + "\n  " + fields + "\n" + "}" + "\n";
  }

  // ----- The methods -----

  /** `_flistRenderRecords` */
  method RenderRecords(key: string, records: Value, trailing: string) returns (lines: seq<string>)
    requires records.List? || records.Object?
    ensures lines == RecordLines(key, records, trailing)
  {
    hide Entries, Quote;
    var open, close := "[", "]";
    if records.Object? { open, close := "{", "}"; }
    var entries := Entries(records);
    if entries == [] { return ["  " + Quote(key) + ": " + open + close + trailing]; }
    var head := "  " + Quote(key) + ": " + open;
    lines := [head];
    for i := 0 to |entries|
      invariant lines == [head] + EntryLines(entries)[..i]
    {
      hide EntryLines;
      var comma := if i == |entries| - 1 then "" else ",";
      Associative([head], EntryLines(entries)[..i], [RECORD_INDENT + entries[i] + comma]);
      lines := lines + [RECORD_INDENT + entries[i] + comma];
      assert EntryLines(entries)[..i + 1] == EntryLines(entries)[..i] + [EntryLines(entries)[i]];
    }
    assert EntryLines(entries)[..|entries|] == EntryLines(entries);
    lines := lines + ["  " + close + trailing];
  }

  /** `fsRenderLedger` */
  method RenderLedger(ledger: seq<Field>, collections: set<string>) returns (text: string)
    requires Renderable(ledger, collections)
    ensures text == LedgerText(ledger, collections)
  {
    hide BodyLines, LedgerText, RecordLines;
    var lines := ["{"];
    BodyEnd(ledger, collections);
    for i := 0 to |ledger|
      invariant lines + BodyLines(ledger, collections, i) == ["{"] + BodyLines(ledger, collections, 0)
    {
      var trailing := if i == |ledger| - 1 then "" else ",";
      var f := ledger[i];
      BodyStep(ledger, collections, i);
      Associative(lines, FieldLines(f, collections, trailing), BodyLines(ledger, collections, i + 1));
      if f.key in collections {
        var more := RenderRecords(f.key, f.value, trailing);
        lines := lines + more;
      } else {
        var rendered := DumpsIndented(f.value);
        var indented := T.Join("\n  ", T.SplitChar(rendered, '\n'));
        lines := lines + ["  " + Quote(f.key) + ": " + indented + trailing];
      }
    }
    assert lines + [] == lines;
    lines := lines + ["}"];
    text := T.Join("\n", lines) + "\n";
    LinesAreLedgerText(ledger, collections);
  }

  lemma BodyStep(ledger: seq<Field>, collections: set<string>, i: nat)
    requires i < |ledger| && Renderable(ledger, collections)
    ensures BodyLines(ledger, collections, i) ==
      FieldLines(ledger[i], collections, if i == |ledger| - 1 then "" else ",") + BodyLines(ledger, collections, i + 1)
  {
  }

  lemma BodyEnd(ledger: seq<Field>, collections: set<string>)
    requires Renderable(ledger, collections)
    ensures BodyLines(ledger, collections, |ledger|) == []
  {
  }

  // ----- Round trip -----

  /** The ledger text parses back to the ledger: top-level order kept, keys below sorted. */
  lemma LedgerRoundTrip(ledger: seq<Field>, collections: set<string>)
    ensures Loads(LedgerText(ledger, collections)) == Some(Object(SortedFields(ledger)))
  {
    hide ParseValue, Render, SortedFields;
    if ledger == [] {
      EmptyLedger();
    } else {
      SortedFieldsLength(ledger);
      var v := Object(SortedFields(ledger));
      RenderStarts(v, Json.Ledger(collections));
      RoundTrip(v, Json.Ledger(collections), "\n");
      SkipNothing(LedgerText(ledger, collections));
      JustNewline();
    }
  }

  lemma JustNewline()
    ensures Skip("\n") == ""
  {
    assert "\n"[1..] == "";
  }

  lemma EmptyLedger()
    ensures Loads("{\n}" + "\n") == Some(Object(SortedFields([])))
  {
    var s := "{\n}" + "\n";
    assert s[1..] == "\n" + "}\n";
    SkipBlanks("\n", "}\n");
    SkipNothing("}\n");
    assert "}\n"[1..] == "\n";
    JustNewline();
  }

  // ----- Sorting keys twice changes nothing -----

  lemma {:induction false} SortingSorted(fields: seq<Field>)
    requires SortedOn(KeyOf, StringLe, fields)
    ensures SortOn(KeyOf, StringLe, fields) == fields
  {
    hide StringLe, SortedOn;
    if fields != [] {
      TailIsSorted(fields);
      SortingSorted(fields[1..]);
      InsertFirst(fields[0], fields[1..]);
      assert fields == [fields[0]] + fields[1..];
    }
  }

  lemma TailIsSorted(fields: seq<Field>)
    requires fields != [] && SortedOn(KeyOf, StringLe, fields)
    ensures SortedOn(KeyOf, StringLe, fields[1..])
    ensures |fields| > 1 ==> StringLe(KeyOf(fields[0]), KeyOf(fields[1]))
  {
    hide StringLe;
    var rest := fields[1..];
    forall i, j | 0 <= i < j < |rest| ensures StringLe(KeyOf(rest[i]), KeyOf(rest[j])) {
      assert rest[i] == fields[i + 1] && rest[j] == fields[j + 1];
    }
  }

  lemma InsertFirst(f: Field, rest: seq<Field>)
    requires rest != [] ==> StringLe(KeyOf(f), KeyOf(rest[0]))
    ensures Insert(KeyOf, StringLe, f, rest) == [f] + rest
  {
    hide StringLe;
  }

  predicate Settled(v: Value) { Sorted(v) == v }

  lemma {:induction false} SettledFields(fields: seq<Field>)
    requires forall i | 0 <= i < |fields| :: Settled(fields[i].value)
    ensures SortedFields(fields) == fields
  {
    if fields != [] {
      SettledFields(fields[1..]);
      assert fields == [fields[0]] + fields[1..];
    }
  }

  lemma {:induction false} SortedIsSettled(v: Value)
    ensures Settled(Sorted(v))
    decreases v, 1, 0
  {
    match v
    case List(items) => ItemsSettle(items);
    case Object(fields) =>
      FieldsSettle(fields);
      ObjectSettles(SortedFields(fields));
    case _ =>
  }

  lemma ObjectSettles(fields: seq<Field>)
    requires forall i | 0 <= i < |fields| :: Settled(fields[i].value)
    ensures Settled(Object(SortOn(KeyOf, StringLe, fields)))
  {
    hide Sorted, SortOn, StringLe;
    var sorted := SortOn(KeyOf, StringLe, fields);
    forall i | 0 <= i < |sorted| ensures Settled(sorted[i].value) {
      InSameMultiset(sorted, fields, sorted[i]);
    }
    SettledFields(sorted);
    StringLeIsTotal();
    SortOnSorts(KeyOf, StringLe, fields);
    SortingSorted(sorted);
    ObjectUnfold(sorted);
  }

  lemma ObjectUnfold(fields: seq<Field>)
    ensures Sorted(Object(fields)) == Object(SortOn(KeyOf, StringLe, SortedFields(fields)))
  {
  }

  lemma {:induction false} ItemsSettle(items: seq<Value>)
    ensures SortedItems(SortedItems(items)) == SortedItems(items)
    decreases items, 0, |items|
  {
    if items != [] {
      SortedIsSettled(items[0]);
      ItemsSettle(items[1..]);
      assert SortedItems(items)[1..] == SortedItems(items[1..]);
    }
  }

  lemma {:induction false} FieldsSettle(fields: seq<Field>)
    ensures forall i | 0 <= i < |SortedFields(fields)| :: Settled(SortedFields(fields)[i].value)
    decreases fields, 0, |fields|
  {
    if fields != [] {
      SortedIsSettled(fields[0].value);
      FieldsSettle(fields[1..]);
    }
  }

  /** Rendering what was parsed gives the same bytes. */
  lemma RenderingIsCanonical(ledger: seq<Field>, collections: set<string>)
    ensures var parsed := Loads(LedgerText(ledger, collections));
      parsed.Some? && parsed.value.Object? && LedgerText(parsed.value.fields, collections) == LedgerText(ledger, collections)
  {
    LedgerRoundTrip(ledger, collections);
    FieldsSettle(ledger);
    SettledFields(SortedFields(ledger));
    SortedFieldsLength(ledger);
  }

  // ----- One record, one line -----

  lemma {:induction false} CompactHasNoNewline(v: Value)
    ensures NoNewline(Render(v, Compact))
    decreases v, 1, 0
  {
    hide NoNewline;
    match v
    case List(items) => ShortTexts(); ItemsHaveNoNewline(items); NoNewlineIn("[", "", RenderItems(items, Compact), "", "]");
    case Object(fields) => ShortTexts(); FieldsHaveNoNewline(fields); NoNewlineIn("{", "", RenderFields(fields, Compact), "", "}");
    case _ => DeeperAtoms(v, Compact);
  }

  lemma NoNewlineIn(a: string, b: string, c: string, d: string, e: string)
    requires NoNewline(a) && NoNewline(c) && NoNewline(e) && b == "" && d == ""
    ensures NoNewline(a + b + c + d + e) && NoNewline("[]") && NoNewline("{}")
  {
  }

  lemma {:induction false} ItemsHaveNoNewline(items: seq<Value>)
    ensures NoNewline(RenderItems(items, Compact))
    decreases items, 0, |items|
  {
    hide Render;
    if items != [] {
      CompactHasNoNewline(items[0]);
      ItemsHaveNoNewline(items[1..]);
    }
  }

  lemma {:induction false} FieldsHaveNoNewline(fields: seq<Field>)
    ensures NoNewline(RenderFields(fields, Compact))
    decreases fields, 0, |fields|
  {
    hide Render, Quote;
    if fields != [] {
      QuotedHasNoNewline(fields[0].key);
      CompactHasNoNewline(fields[0].value);
      FieldsHaveNoNewline(fields[1..]);
    }
  }

  /** The two lists of lines agree but for one line, which breaks nowhere and is the same
      in both only when `same` says so. */
  ghost predicate DifferInOneLine(a: seq<string>, b: seq<string>, k: nat, same: bool) {
    |a| == |b| && k < |a| && NoNewline(a[k]) && NoNewline(b[k]) && (a[k] == b[k] <==> same) &&
    forall i | 0 <= i < |a| && i != k :: a[i] == b[i]
  }

  /** Different values have different compact texts: each parses back to its own. */
  lemma CompactIsInjective(v: Value, w: Value)
    ensures Render(v, Compact) == Render(w, Compact) <==> v == w
  {
    hide ParseValue, Render;
    RoundTrip(v, Compact, []);
    RoundTrip(w, Compact, []);
  }

  lemma {:induction false} SortedItemsAt(items: seq<Value>, i: nat, r: Value)
    requires i < |items|
    ensures |SortedItems(items)| == |items| && SortedItems(items[i := r]) == SortedItems(items)[i := Sorted(r)]
    ensures SortedItems(items)[i] == Sorted(items[i])
  {
    hide Sorted;
    SortedItemsLength(items);
    if i > 0 {
      SortedItemsAt(items[1..], i - 1, r);
      assert items[i := r][1..] == items[1..][i - 1 := r];
    } else {
      assert items[0 := r][1..] == items[1..];
    }
  }

  lemma {:induction false} SortedItemsLength(items: seq<Value>)
    ensures |SortedItems(items)| == |items|
  {
    if items != [] { SortedItemsLength(items[1..]); }
  }

  lemma ReplacedEntryLine(a: seq<Value>, i: nat, r: Value)
    requires i < |a|
    ensures DifferInOneLine(EntryLines(ListEntries(a)), EntryLines(ListEntries(a[i := r])), i, a[i] == r)
  {
    hide Render, NoNewline, EntryLines, ListEntries;
    CompactHasNoNewline(a[i]);
    CompactHasNoNewline(r);
    LineHasNoNewline(Render(a[i], Compact), i == |a| - 1);
    LineHasNoNewline(Render(r, Compact), i == |a| - 1);
    var la, lb := EntryLines(ListEntries(a)), EntryLines(ListEntries(a[i := r]));
    CompactIsInjective(a[i], r);
    SameLine(Render(a[i], Compact), Render(r, Compact), i == |a| - 1);
    forall k | 0 <= k < |la| && k != i ensures la[k] == lb[k] {}
  }

  lemma SameLine(a: string, b: string, last: bool)
    ensures RECORD_INDENT + a + Comma(last) == RECORD_INDENT + b + Comma(last) <==> a == b
  {
    var x, y := RECORD_INDENT + a + Comma(last), RECORD_INDENT + b + Comma(last);
    assert a == x[|RECORD_INDENT|..|x| - |Comma(last)|] && b == y[|RECORD_INDENT|..|y| - |Comma(last)|];
  }

  lemma LineHasNoNewline(entry: string, last: bool)
    requires NoNewline(entry)
    ensures NoNewline(RECORD_INDENT + entry + Comma(last))
  {
  }

  lemma DifferInContext(pre: seq<string>, a: seq<string>, b: seq<string>, post: seq<string>, k: nat, same: bool)
    requires DifferInOneLine(a, b, k, same)
    ensures DifferInOneLine(pre + a + post, pre + b + post, |pre| + k, same)
  {
    hide NoNewline;
  }

  lemma ReplacedRecordLine(key: string, items: seq<Value>, i: nat, r: Value, trailing: string)
    requires i < |items|
    ensures DifferInOneLine(RecordLines(key, List(items), trailing), RecordLines(key, List(items[i := r]), trailing), i + 1,
                            Sorted(items[i]) == Sorted(r))
  {
    hide SortedItems, Sorted, Quote, NoNewline, EntryLines, ListEntries;
    SortedItemsAt(items, i, r);
    ListUnfold(items);
    ListUnfold(items[i := r]);
    var a := SortedItems(items);
    ReplacedEntryLine(a, i, Sorted(r));
    DifferInContext(["  " + Quote(key) + ": " + "["], EntryLines(ListEntries(a)), EntryLines(ListEntries(a[i := Sorted(r)])),
                    ["  " + "]" + trailing], i, Sorted(items[i]) == Sorted(r));
  }

  lemma ListUnfold(items: seq<Value>)
    ensures Sorted(List(items)) == List(SortedItems(items))
  {
  }

  lemma {:induction false} ReplacedInBody(ledger: seq<Field>, collections: set<string>, from: nat, j: nat, i: nat, r: Value) returns (k: nat)
    requires Renderable(ledger, collections) && from <= j < |ledger| && ledger[j].key in collections
    requires ledger[j].value.List? && i < |ledger[j].value.items|
    requires Renderable(WithRecord(ledger, j, i, r), collections)
    ensures DifferInOneLine(BodyLines(ledger, collections, from), BodyLines(WithRecord(ledger, j, i, r), collections, from), k,
                            SameRecord(ledger, j, i, r))
    decreases j - from
  {
    hide RecordLines, Reindented, NoNewline, BodyLines, DifferInOneLine, Sorted;
    var other := WithRecord(ledger, j, i, r);
    var comma := if from == |ledger| - 1 then "" else ",";
    var rest, rest' := BodyLines(ledger, collections, from + 1), BodyLines(other, collections, from + 1);
    BodyStep(ledger, collections, from);
    BodyStep(other, collections, from);
    if from == j {
      ReplacedRecordLine(ledger[j].key, ledger[j].value.items, i, r, comma);
      SameFrom(ledger, other, collections, j + 1);
      var a, b := FieldLines(ledger[j], collections, comma), FieldLines(other[j], collections, comma);
      DifferInContext([], a, b, rest, i + 1, SameRecord(ledger, j, i, r));
      assert [] + a + rest == a + rest && [] + b + rest == b + rest;
      k := i + 1;
    } else {
      var k0 := ReplacedInBody(ledger, collections, from + 1, j, i, r);
      var pre := FieldLines(ledger[from], collections, comma);
      DifferInContext(pre, rest, rest', [], k0, SameRecord(ledger, j, i, r));
      assert pre + rest + [] == pre + rest && pre + rest' + [] == pre + rest';
      k := |pre| + k0;
    }
  }

  /** The new record is the old one, up to the order of keys. */
  predicate SameRecord(ledger: seq<Field>, j: nat, i: nat, r: Value)
    requires j < |ledger| && ledger[j].value.List? && i < |ledger[j].value.items|
  {
    Sorted(ledger[j].value.items[i]) == Sorted(r)
  }

  function WithRecord(ledger: seq<Field>, j: nat, i: nat, r: Value): seq<Field>
    requires j < |ledger| && ledger[j].value.List? && i < |ledger[j].value.items|
  {
    ledger[j := Field(ledger[j].key, List(ledger[j].value.items[i := r]))]
  }

  lemma {:induction false} SameFrom(a: seq<Field>, b: seq<Field>, collections: set<string>, from: nat)
    requires |a| == |b| && from <= |a| && Renderable(a, collections) && Renderable(b, collections)
    requires forall i | from <= i < |a| :: a[i] == b[i]
    ensures BodyLines(a, collections, from) == BodyLines(b, collections, from)
    decreases |a| - from
  {
    hide FieldLines;
    if from < |a| { SameFrom(a, b, collections, from + 1); }
  }

  /** Replacing one record of a list collection by a different one changes exactly one line of
      the file; by the same one, none. */
  lemma OneRecordOneLine(ledger: seq<Field>, collections: set<string>, j: nat, i: nat, r: Value) returns (k: nat)
    requires Renderable(ledger, collections) && j < |ledger| && ledger[j].key in collections
    requires ledger[j].value.List? && i < |ledger[j].value.items|
    ensures var other := WithRecord(ledger, j, i, r);
      Renderable(other, collections) &&
      DifferInOneLine(LedgerLines(ledger, collections), LedgerLines(other, collections), k, SameRecord(ledger, j, i, r))
  {
    hide BodyLines, NoNewline, SameRecord;
    var k0 := ReplacedInBody(ledger, collections, 0, j, i, r);
    k := k0 + 1;
  }
}
