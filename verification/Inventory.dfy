/** tools/generateMutationInventory.py: ordinals, the merge with a record, and the drift check. */
module Inventory {
  import opened Numerals
  import opened Orders
  import opened Cuts
  import opened Occurrences

  const UNCLASSIFIED := "UNCLASSIFIED"
  const REVIEWER_FIELDS: seq<string> := ["sLogicalOperation", "listExecutionLanes", "listLockOwners",
    "sOperationMetadata", "listCarrierModes", "sJournalKind", "sLifetime", "sCarrierDisposition", "sExclusionRationale"]

  /** What a reviewer field holds: one text, or a list of them. */
  datatype Value = Scalar(text: string) | Several(texts: seq<string>)

  /** One call site. A recorded row may lack a machine-derived field or a review. */
  datatype Row = Row(
    file: string, function_: string, primitive: string, kind: string, ordinal: nat,
    fingerprint: string,
    access: Option<string>, mutationCapable: Option<bool>, insideGateway: Option<bool>,
    review: map<string, Value>)

  function Identity(r: Row): seq<string> { [r.file, r.function_, r.primitive, r.kind] }

  function SortKey(r: Row): seq<string> { [r.file, r.function_, r.primitive, r.kind, r.fingerprint] }

  /** `fsRowKey` */
  function RowKey(r: Row): string {
    r.file + "|" + (r.function_ + "|" + (r.primitive + "|" + r.kind + "|" + Decimal(r.ordinal)))
  }

  // ----- Ordinals -----

  function Ids(rows: seq<Row>): seq<seq<string>> { Project(Identity, rows) }

  /** The rows in sorting order, each numbered among its equals. */
  function Numbered(rows: seq<Row>): (r: seq<Row>)
    ensures |r| == |rows|
  {
    var order := SortOn(SortKey, TupleLe, rows);
    seq(|order|, i requires 0 <= i < |order| => order[i].(ordinal := Earlier(Ids(order)[..i], Identity(order[i]))))
  }

  /** `_flistNumberOrdinals` */
  function NumberOrdinals(rows: seq<Row>): seq<Row> { SortOn(RowKey, StringLe, Numbered(rows)) }

  /** No two rows share identity and ordinal. */
  lemma OrdinalsAreUnique(rows: seq<Row>, i: nat, j: nat)
    requires i < j < |rows| && Identity(Numbered(rows)[i]) == Identity(Numbered(rows)[j])
    ensures Numbered(rows)[i].ordinal < Numbered(rows)[j].ordinal
  {
    var order := SortOn(SortKey, TupleLe, rows);
    EarlierStep(Ids(order), Identity(order[i]), i);
    EarlierGrows(Ids(order), Identity(order[i]), i + 1, j);
  }

  /** The ordinals of one identity leave no gap. */
  lemma {:induction false} OrdinalsAreContiguous(rows: seq<Row>, i: nat, n: nat)
    requires i < |rows| && n < Numbered(rows)[i].ordinal
    ensures exists j :: 0 <= j < i && Identity(Numbered(rows)[j]) == Identity(Numbered(rows)[i]) && Numbered(rows)[j].ordinal == n
  {
    var order := SortOn(SortKey, TupleLe, rows);
    var j := Reach(Ids(order), Identity(order[i]), i, n);
    assert Identity(Numbered(rows)[j]) == Identity(order[j]) == Ids(order)[j];
  }

  function OrdinalKey(r: Row): (seq<string>, nat) { (SortKey(r), r.ordinal) }

  /** Scanning the same sites in another order gives the same numbered sites. */
  lemma OrdinalsIgnoreScanOrder(rows: seq<Row>, rows': seq<Row>)
    requires multiset(Project(SortKey, rows)) == multiset(Project(SortKey, rows'))
    ensures Project(OrdinalKey, Numbered(rows)) == Project(OrdinalKey, Numbered(rows'))
  {
    hide TupleLe, SortOn, StringLe;
    TupleLeIsTotal();
    SortedKeysIgnoreOrder(SortKey, TupleLe, rows, rows');
    var a, b := SortOn(SortKey, TupleLe, rows), SortOn(SortKey, TupleLe, rows');
    assert |Project(SortKey, a)| == |a| && |Project(SortKey, b)| == |b|;
    forall i | 0 <= i < |a| ensures SortKey(a[i]) == SortKey(b[i]) && Ids(a)[i] == Ids(b)[i] {
      assert Project(SortKey, a)[i] == Project(SortKey, b)[i];
      assert SortKey(a[i])[..4] == Identity(a[i]) && SortKey(b[i])[..4] == Identity(b[i]);
    }
    assert Ids(a) == Ids(b);
  }

  /** What the scan sees of a call site. */
  function Seen(r: Row): (string, string, string, string, string) {
    (r.file, r.function_, r.primitive, r.kind, r.fingerprint)
  }

  function SeenAndNumber(r: Row): ((string, string, string, string, string), nat) { (Seen(r), r.ordinal) }

  function AsTuple(x: (string, string, string, string, string)): seq<string> { [x.0, x.1, x.2, x.3, x.4] }

  /** Two scans that see the same sites give each the same numbers, in whatever order they
      meet them. */
  lemma NumbersIgnoreScanOrder(rows: seq<Row>, rows': seq<Row>)
    requires multiset(Project(Seen, rows)) == multiset(Project(Seen, rows'))
    ensures multiset(Project(SeenAndNumber, NumberOrdinals(rows))) == multiset(Project(SeenAndNumber, NumberOrdinals(rows')))
  {
    hide SortOn, Numbered, RowKey, StringLe, TupleLe;
    ProjectMultiset(AsTuple, Project(Seen, rows), Project(Seen, rows'));
    assert Project(AsTuple, Project(Seen, rows)) == Project(SortKey, rows);
    assert Project(AsTuple, Project(Seen, rows')) == Project(SortKey, rows');
    OrdinalsIgnoreScanOrder(rows, rows');
    SeenFromKeys(Numbered(rows), Numbered(rows'));
    ProjectMultiset(SeenAndNumber, Numbered(rows), NumberOrdinals(rows));
    ProjectMultiset(SeenAndNumber, Numbered(rows'), NumberOrdinals(rows'));
  }

  lemma SeenFromKeys(a: seq<Row>, b: seq<Row>)
    requires Project(OrdinalKey, a) == Project(OrdinalKey, b)
    ensures Project(SeenAndNumber, a) == Project(SeenAndNumber, b)
  {
    assert |Project(OrdinalKey, a)| == |a| && |Project(OrdinalKey, b)| == |b|;
    forall i | 0 <= i < |a| ensures SeenAndNumber(a[i]) == SeenAndNumber(b[i]) {
      assert Project(OrdinalKey, a)[i] == OrdinalKey(a[i]) && Project(OrdinalKey, b)[i] == OrdinalKey(b[i]);
      assert SortKey(a[i]) == SortKey(b[i]);
      assert SortKey(a[i])[0] == a[i].file && SortKey(a[i])[1] == a[i].function_ && SortKey(a[i])[2] == a[i].primitive;
      assert SortKey(a[i])[3] == a[i].kind && SortKey(a[i])[4] == a[i].fingerprint;
    }
  }

  /** Sites that differ in the fingerprint alone are numbered in the order of their fingerprints. */
  lemma FingerprintsOrderNumbers(rows: seq<Row>, i: nat, j: nat)
    requires i < |rows| && j < |rows|
    requires var a, b := Numbered(rows)[i], Numbered(rows)[j];
      a.file == b.file && a.function_ == b.function_ && a.primitive == b.primitive && a.kind == b.kind &&
      ComesBefore(a.fingerprint, b.fingerprint)
    ensures Numbered(rows)[i].ordinal < Numbered(rows)[j].ordinal
  {
    hide SortOn, Earlier, ComesBefore;
    var order := SortOn(SortKey, TupleLe, rows);
    StringLeIsTotal();
    TupleLeIsTotal();
    SortOnSorts(SortKey, TupleLe, rows);
    BeforeIsStrict(order[i].fingerprint, order[j].fingerprint);
    if i < j {
      OrdinalsAreUnique(rows, i, j);
    } else if j < i {
      LastDecides(SortKey(order[j]), SortKey(order[i]));
    }
  }

  // ----- Row keys -----

  predicate NoBar(s: string) { '|' !in s }

  /** What the scanner's own vocabulary guarantees: only the primitive may hold a bar. */
  predicate KeyFields(r: Row) { NoBar(r.file) && NoBar(r.function_) && NoBar(r.kind) }

  lemma DigitsHaveNoBar(n: nat)
    ensures NoBar(Decimal(n))
  {
    var d := Decimal(n);
    forall i | 0 <= i < |d| ensures d[i] != '|' { assert IsDigit(d[i]); }
  }

  /** A row key determines the identity and the ordinal, whatever the primitive's text. */
  lemma RowKeyIsInjective(a: Row, b: Row)
    requires KeyFields(a) && KeyFields(b) && RowKey(a) == RowKey(b)
    ensures Identity(a) == Identity(b) && a.ordinal == b.ordinal
  {
    hide Decimal;
    var ta, tb := a.primitive + "|" + a.kind + "|" + Decimal(a.ordinal), b.primitive + "|" + b.kind + "|" + Decimal(b.ordinal);
    Peel(a.file, a.function_ + "|" + ta, b.file, b.function_ + "|" + tb);
    Peel(a.function_, ta, b.function_, tb);
    DigitsHaveNoBar(a.ordinal);
    DigitsHaveNoBar(b.ordinal);
    CutLast(a.primitive + "|" + a.kind, Decimal(a.ordinal), b.primitive + "|" + b.kind, Decimal(b.ordinal), '|');
    CutLast(a.primitive, a.kind, b.primitive, b.kind, '|');
    DecimalInjective(a.ordinal, b.ordinal);
  }

  lemma Peel(a: string, rest: string, a': string, rest': string)
    requires NoBar(a) && NoBar(a') && a + "|" + rest == a' + "|" + rest'
    ensures a == a' && rest == rest'
  {
    assert a + "|" + rest == a + ['|'] + rest;
    CutFirst(a, rest, a', rest', '|');
  }

  /** With a bar in a file name two different sites can share a key. */
  lemma BarredFileCollides()
    ensures var a := Row("a|f", "g", "p", "k", 0, "", None, None, None, map[]);
      var b := Row("a", "f", "g|p", "k", 0, "", None, None, None, map[]);
      RowKey(a) == RowKey(b) && Identity(a) != Identity(b)
  {
    var tail := "p" + "|" + "k" + "|" + Decimal(0);
    assert "a|f" + "|" + ("g" + "|" + tail) == "a" + "|" + ("f" + "|" + ("g|" + tail));
    assert "g|p" + "|" + "k" + "|" + Decimal(0) == "g|" + tail;
  }

  ghost predicate DistinctKeys(rows: seq<Row>) {
    forall i, j | 0 <= i < j < |rows| :: RowKey(rows[i]) != RowKey(rows[j])
  }

  /** The numbered rows of a scan have pairwise different keys. */
  lemma NumberedKeysDiffer(rows: seq<Row>)
    requires forall r | r in rows :: KeyFields(r)
    ensures DistinctKeys(Numbered(rows)) && DistinctKeys(NumberOrdinals(rows))
  {
    hide RowKey, Earlier, SortOn;
    var order, numbered := SortOn(SortKey, TupleLe, rows), Numbered(rows);
    forall i | 0 <= i < |order| ensures KeyFields(numbered[i]) {
      InSameMultiset(order, rows, order[i]);
    }
    forall i, j | 0 <= i < j < |numbered| ensures RowKey(numbered[i]) != RowKey(numbered[j]) {
      if RowKey(numbered[i]) == RowKey(numbered[j]) {
        RowKeyIsInjective(numbered[i], numbered[j]);
        OrdinalsAreUnique(rows, i, j);
      }
    }
    KeysSurviveSorting(numbered, NumberOrdinals(rows));
  }

  lemma KeysSurviveSorting(a: seq<Row>, b: seq<Row>)
    requires DistinctKeys(a) && multiset(a) == multiset(b)
    ensures DistinctKeys(b)
  {
    hide RowKey;
    ProjectMultiset(RowKey, a, b);
    assert Distinct(Project(RowKey, a));
    DistinctFromMultiset(Project(RowKey, a), Project(RowKey, b));
    forall i, j | 0 <= i < j < |b| ensures RowKey(b[i]) != RowKey(b[j]) {
      assert Project(RowKey, b)[i] != Project(RowKey, b)[j];
    }
  }

  // ----- Numbering in place -----

  /** A scanned row as the visitor leaves it: only its ordinal is written later. */
  class Cell {
    const row: Row
    var ordinal: nat

    constructor (row: Row)
      ensures this.row == row && ordinal == 0
    {
      this.row := row;
      ordinal := 0;
    }
  }

  function CellKey(c: Cell): seq<string> { SortKey(c.row) }

  function CellRow(c: Cell): Row { c.row }

  lemma {:induction false} SortingCells(cells: seq<Cell>)
    ensures Project(CellRow, SortOn(CellKey, TupleLe, cells)) == SortOn(SortKey, TupleLe, Project(CellRow, cells))
  {
    if cells != [] {
      SortingCells(cells[1..]);
      InsertingCell(cells[0], SortOn(CellKey, TupleLe, cells[1..]));
      assert Project(CellRow, cells)[1..] == Project(CellRow, cells[1..]);
    }
  }

  lemma ProjectCons(c: Cell, cells: seq<Cell>)
    ensures Project(CellRow, [c] + cells) == [c.row] + Project(CellRow, cells)
  {
  }

  lemma {:induction false} InsertingCell(c: Cell, cells: seq<Cell>)
    ensures Project(CellRow, Insert(CellKey, TupleLe, c, cells)) == Insert(SortKey, TupleLe, c.row, Project(CellRow, cells))
  {
    hide TupleLe, Project, SortKey;
    if cells == [] {
      ProjectCons(c, []);
      assert [c] + [] == [c] && [c.row] + Project(CellRow, []) == [c.row];
    } else {
      assert cells == [cells[0]] + cells[1..];
      ProjectCons(cells[0], cells[1..]);
      var rows := Project(CellRow, cells);
      assert rows[0] == cells[0].row && rows[1..] == Project(CellRow, cells[1..]);
      if TupleLe(CellKey(c), CellKey(cells[0])) {
        ProjectCons(c, cells);
      } else {
        InsertingCell(c, cells[1..]);
        ProjectCons(cells[0], Insert(CellKey, TupleLe, c, cells[1..]));
      }
    }
  }

  /** The source's loop: counts per identity, ordinals written into the rows. */
  method WriteOrdinals(order: seq<Cell>)
    requires Distinct(order)
    modifies set c | c in order
    ensures forall i | 0 <= i < |order| :: order[i].ordinal == Occurrence(order, i)
  {
    var counts: map<seq<string>, nat> := map[];
    NoneCounted();
    hide *;
    for i := 0 to |order|
      invariant CountsAre(counts, CellIds(order)[..i])
      invariant forall k | 0 <= k < i :: order[k].ordinal == Occurrence(order, k)
    {
      OccurrenceIs(order, i);
      var id := Identity(order[i].row);
      CountOneMore(counts, CellIds(order), i);
      var occurrence := if id in counts then counts[id] else 0;
      counts := counts[id := occurrence + 1];
      OthersDiffer(order, i);
      order[i].ordinal := occurrence;
    }
  }

  function CellIds(order: seq<Cell>): (r: seq<seq<string>>)
    ensures |r| == |order|
  {
    Ids(Project(CellRow, order))
  }

  /** How many cells before `i` have its identity. */
  function Occurrence(order: seq<Cell>, i: nat): nat
    requires i < |order|
  {
    Earlier(CellIds(order)[..i], CellIds(order)[i])
  }

  lemma OccurrenceIs(order: seq<Cell>, i: nat)
    requires i < |order|
    ensures CellIds(order)[i] == Identity(order[i].row)
    ensures Occurrence(order, i) == Earlier(CellIds(order)[..i], CellIds(order)[i])
  {
  }

  lemma NoneCounted()
    ensures CountsAre(map[], [])
  {
  }

  lemma OthersDiffer(order: seq<Cell>, i: nat)
    requires Distinct(order) && i < |order|
    ensures forall k | 0 <= k < i :: order[k] != order[i]
    ensures order[i] in order
  {
  }

  /** The sorted cells carry the ordinals of the numbered rows. */
  ghost predicate OrdinalsWritten(cells: seq<Cell>, numbered: seq<Row>)
    reads cells
    requires |numbered| == |cells|
  {
    var order := SortOn(CellKey, TupleLe, cells);
    forall i | 0 <= i < |order| :: order[i] in cells && order[i].ordinal == numbered[i].ordinal
  }

  /** `_flistNumberOrdinals`, in place: the cells get their ordinals and the rows come back sorted. */
  method NumberCells(cells: seq<Cell>) returns (rows: seq<Row>)
    requires Distinct(cells)
    modifies set c | c in cells
    ensures rows == NumberOrdinals(Project(CellRow, cells))
    ensures OrdinalsWritten(cells, Numbered(Project(CellRow, cells)))
  {
    hide *;
    var order := SortOn(CellKey, TupleLe, cells);
    SortedCells(cells, order);
    WriteOrdinals(order);
    rows := SortOn(RowKey, StringLe, CurrentRows(order));
    AfterWriting(cells, order);
  }

  /** What is known of the sorted cells before anything is written. */
  lemma SortedCells(cells: seq<Cell>, order: seq<Cell>)
    requires Distinct(cells) && order == SortOn(CellKey, TupleLe, cells)
    ensures Distinct(order) && forall c | c in order :: c in cells
  {
    hide SortOn, Distinct;
    DistinctFromMultiset(cells, order);
    CellsAmong(cells, order);
  }

  lemma AfterWriting(cells: seq<Cell>, order: seq<Cell>)
    requires order == SortOn(CellKey, TupleLe, cells)
    requires forall i | 0 <= i < |order| :: order[i].ordinal == Occurrence(order, i)
    ensures SortOn(RowKey, StringLe, CurrentRows(order)) == NumberOrdinals(Project(CellRow, cells))
    ensures OrdinalsWritten(cells, Numbered(Project(CellRow, cells)))
  {
    NumberedCells(cells);
    hide Numbered, Occurrence, SortOn, Project;
    assert CurrentRows(order) == Numbered(Project(CellRow, cells));
    WrittenWhen(cells, order, Numbered(Project(CellRow, cells)));
  }

  /** The rows as their cells now stand. */
  function CurrentRows(order: seq<Cell>): (rows: seq<Row>)
    reads order
    ensures |rows| == |order| && forall i | 0 <= i < |order| :: rows[i] == order[i].row.(ordinal := order[i].ordinal)
  {
    seq(|order|, i requires 0 <= i < |order| reads order => order[i].row.(ordinal := order[i].ordinal))
  }

  lemma WrittenWhen(cells: seq<Cell>, order: seq<Cell>, numbered: seq<Row>)
    requires |numbered| == |cells| && order == SortOn(CellKey, TupleLe, cells) && multiset(order) == multiset(cells)
    requires forall i | 0 <= i < |order| :: order[i].ordinal == numbered[i].ordinal
    ensures OrdinalsWritten(cells, numbered)
  {
    hide SortOn;
    CellsAmong(cells, order);
  }

  lemma CellsAmong(cells: seq<Cell>, order: seq<Cell>)
    requires multiset(order) == multiset(cells)
    ensures forall c | c in order :: c in cells
  {
    forall c | c in order ensures c in cells { InSameMultiset(order, cells, c); }
  }

  lemma NumberedCells(cells: seq<Cell>)
    ensures var order, numbered := SortOn(CellKey, TupleLe, cells), Numbered(Project(CellRow, cells));
      |numbered| == |order|
    ensures var order, numbered := SortOn(CellKey, TupleLe, cells), Numbered(Project(CellRow, cells));
      forall i | 0 <= i < |order| :: numbered[i] == order[i].row.(ordinal := Occurrence(order, i))
  {
    hide Earlier;
    SortingCells(cells);
  }
}
