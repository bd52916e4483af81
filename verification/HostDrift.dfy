/** tools/generateHostCapabilityInventory.py: building the inventory and comparing it with a scan. */
module HostDrift {
  import opened Numerals
  import opened Orders
  import opened Records
  import opened HostInventory
  import opened Hashing
  import opened NumeralMeaning

  const VOCABULARY := {"portable", "host-variant", "container-only"}

  /** A reviewer's judgement; a missing field reads as None. */
  datatype Judgement = Judgement(disposition: Option<string>, symbols: Option<string>, rationale: Option<string>)

  /** The record; a budget may be missing from a record written by hand. */
  datatype HostRecord = HostRecord(rows: seq<Row>, dispositions: map<string, Judgement>, budget: Option<int>)

  predicate Blank(field: Option<string>) { field.None? || Strip(field.value) == "" }

  predicate WellFormed(j: Judgement) {
    j.disposition.Some? && j.disposition.value in VOCABULARY && !Blank(j.symbols) && !Blank(j.rationale)
  }

  function Fingerprints(rows: seq<Row>): set<string> { set r | r in rows :: r.fingerprint }

  /** `flistUndisposedFingerprints`, before sorting. */
  function Undisposed(rows: seq<Row>, dispositions: map<string, Judgement>): seq<string> {
    if rows == [] then []
    else
      Undisposed(rows[..|rows| - 1], dispositions)
      + if rows[|rows| - 1].fingerprint in dispositions then [] else [rows[|rows| - 1].fingerprint]
  }

  /** `fdictBuildInventory` */
  function Build(scanned: seq<Row>, existing: HostRecord): HostRecord {
    var surviving := map f | f in existing.dispositions && f in Fingerprints(scanned) :: existing.dispositions[f];
    HostRecord(scanned, surviving, Some(|Undisposed(scanned, surviving)|))
  }

  // ----- Drift -----

  datatype Violation = Orphaned(fingerprint: string) | BadDisposition(fingerprint: string) | EmptyField(fingerprint: string, field: string)

  datatype Drift = Drift(
    added: seq<string>, removed: seq<string>, altered: seq<string>, duplicated: seq<string>,
    violations: seq<Violation>, countMismatch: bool, budgetMismatch: bool)

  predicate Clean(d: Drift) {
    && d.added == [] && d.removed == [] && d.altered == [] && d.duplicated == [] && d.violations == []
    && !d.countMismatch && !d.budgetMismatch
  }

  /** The five parts of the report that concern the rows. */
  predicate RowsClean(d: Drift) {
    d.added == [] && d.removed == [] && d.altered == [] && d.duplicated == [] && !d.countMismatch
  }

  ghost predicate IsViolation(v: Violation, inventory: HostRecord) {
    v.fingerprint in inventory.dispositions && IsFault(v, inventory.dispositions[v.fingerprint], Fingerprints(inventory.rows))
  }

  /** The sentence is owed for this judgement. */
  predicate IsFault(v: Violation, j: Judgement, known: set<string>) {
    match v
    case Orphaned(f) => f !in known
    case BadDisposition(_) => IsBad(j)
    case EmptyField(_, field) => IsEmpty(j, field)
  }

  predicate IsBad(j: Judgement) { j.disposition.None? || j.disposition.value !in VOCABULARY }

  predicate IsEmpty(j: Judgement, field: string) {
    (field == "sSupportingSymbols" && Blank(j.symbols)) || (field == "sRationale" && Blank(j.rationale))
  }

  ghost predicate OnlyIn(here: seq<Row>, there: seq<Row>, k: string) {
    Lookup(Fingerprint, here, k).Some? && Lookup(Fingerprint, there, k).None?
  }

  function WholeRow(r: Row): Row { r }

  ghost predicate Reports(d: Drift, inventory: HostRecord, scanned: seq<Row>) {
    && (forall k :: k in d.added <==> OnlyIn(scanned, inventory.rows, k))
    && (forall k :: k in d.removed <==> OnlyIn(inventory.rows, scanned, k))
    && (forall k :: k in d.altered <==> !SameFace(Fingerprint, WholeRow, inventory.rows, scanned, k))
    && (forall k :: k in d.duplicated <==> Count(Fingerprint, inventory.rows, k) > 1)
    && (forall v :: v in d.violations <==> IsViolation(v, inventory))
    && d.countMismatch == (|inventory.rows| != |scanned|)
    && d.budgetMismatch == (inventory.budget != Some(|Undisposed(inventory.rows, inventory.dispositions)|))
  }

  method AlteredRows(common: seq<string>, was: map<string, Row>, now: map<string, Row>) returns (altered: seq<string>)
    requires forall k | k in common :: k in was && k in now
    ensures forall k :: k in altered <==> k in common && was[k] != now[k]
  {
    altered := [];
    for i := 0 to |common|
      invariant forall k :: k in altered <==> k in common[..i] && was[k] != now[k]
    {
      assert common[..i + 1] == common[..i] + [common[i]];
      if was[common[i]] != now[common[i]] { altered := altered + [common[i]]; }
    }
    assert common[..|common|] == common;
  }

  /** What one disposition adds to the violations. */
  function ViolationsOf(f: string, j: Judgement, known: set<string>): seq<Violation> {
    (if f in known then [] else [Orphaned(f)]) + (if IsBad(j) then [BadDisposition(f)] else [])
    + (if Blank(j.symbols) then [EmptyField(f, "sSupportingSymbols")] else [])
    + (if Blank(j.rationale) then [EmptyField(f, "sRationale")] else [])
  }

  lemma ViolationsOfMeaning(f: string, j: Judgement, known: set<string>, v: Violation)
    ensures v in ViolationsOf(f, j, known) <==> v.fingerprint == f && IsFault(v, j, known)
  {
    hide Blank, IsBad;
  }

  /** `flistDispositionSchemaViolations` */
  method SchemaViolations(inventory: HostRecord) returns (violations: seq<Violation>)
    ensures forall v :: v in violations <==> IsViolation(v, inventory)
  {
    hide InOrder, ViolationsOf, IsFault;
    var known := Fingerprints(inventory.rows);
    var keys := SortedKeys(inventory.dispositions.Keys);
    violations := [];
    for i := 0 to |keys|
      invariant forall v :: v in violations <==> v.fingerprint in keys[..i] && IsViolation(v, inventory)
    {
      var f := keys[i];
      assert f in keys && keys[..i + 1] == keys[..i] + [f];
      var more := ViolationsOf(f, inventory.dispositions[f], known);
      forall v ensures v in more <==> v.fingerprint == f && IsViolation(v, inventory) {
        ViolationsOfMeaning(f, inventory.dispositions[f], known, v);
      }
      violations := violations + more;
    }
    assert keys[..|keys|] == keys;
  }

  /** Missing, or nothing but white space. */
  lemma BlankMeans(field: Option<string>)
    ensures Blank(field) <==> field.None? || White(field.value)
  {
    hide White, Strip;
    NoneWhite();
    if field.Some? {
      var v := field.value;
      StripMeans(v, "");
      if White(v) { assert v == v + "" + ""; }
      forall pre, post | White(pre) && White(post) && v == pre + "" + post ensures White(v) { BothWhite(pre, post); }
    }
  }

  lemma BothWhite(a: string, b: string)
    requires White(a) && White(b)
    ensures White(a + "" + b)
  {
  }

  /** What the schema check owes, told from the record. */
  lemma ViolationMeans(inventory: HostRecord, f: string, j: Judgement)
    requires f in inventory.dispositions && inventory.dispositions[f] == j
    ensures IsViolation(Orphaned(f), inventory) <==> forall r | r in inventory.rows :: r.fingerprint != f
    ensures IsViolation(BadDisposition(f), inventory) <==>
      j.disposition != Some("portable") && j.disposition != Some("host-variant") && j.disposition != Some("container-only")
    ensures IsViolation(EmptyField(f, "sSupportingSymbols"), inventory) <==> j.symbols.None? || White(j.symbols.value)
    ensures IsViolation(EmptyField(f, "sRationale"), inventory) <==> j.rationale.None? || White(j.rationale.value)
  {
    hide Blank, White;
    BlankMeans(j.symbols);
    BlankMeans(j.rationale);
    assert "sSupportingSymbols"[1] != "sRationale"[1];
  }

  /** `fdictCompareAgainstSource` */
  method Compare(inventory: HostRecord, scanned: seq<Row>) returns (d: Drift)
    ensures Reports(d, inventory, scanned)
  {
    hide *;
    var was := IndexBy(Fingerprint, inventory.rows);
    var now := IndexBy(Fingerprint, scanned);
    var common := SortedKeys(was.Keys * now.Keys);
    var altered := AlteredRows(common, was, now);
    var added := SortedKeys(now.Keys - was.Keys);
    var removed := SortedKeys(was.Keys - now.Keys);
    var duplicated := DuplicatedKeys(Fingerprint, inventory.rows);
    var violations := SchemaViolations(inventory);
    d := Drift(added, removed, altered, duplicated, violations, |inventory.rows| != |scanned|,
      inventory.budget != Some(|Undisposed(inventory.rows, inventory.dispositions)|));
    IndexesReport(d, common, was, now, inventory, scanned);
  }

  lemma IndexedOnly(here: map<string, Row>, there: map<string, Row>, rows: seq<Row>, others: seq<Row>, k: string)
    requires IsIndex(Fingerprint, here, rows) && IsIndex(Fingerprint, there, others)
    ensures OnlyIn(rows, others, k) <==> k in here.Keys - there.Keys
    ensures !SameFace(Fingerprint, WholeRow, rows, others, k) <==> k in here && k in there && here[k] != there[k]
  {
    hide Lookup;
  }

  lemma IndexesReport(d: Drift, common: seq<string>, was: map<string, Row>, now: map<string, Row>, inventory: HostRecord, scanned: seq<Row>)
    requires IsIndex(Fingerprint, was, inventory.rows) && IsIndex(Fingerprint, now, scanned)
    requires forall k :: k in common <==> k in was.Keys * now.Keys
    requires forall k :: k in d.altered <==> k in common && was[k] != now[k]
    requires forall k :: k in d.added <==> k in now.Keys - was.Keys
    requires forall k :: k in d.removed <==> k in was.Keys - now.Keys
    requires forall k :: k in d.duplicated <==> Count(Fingerprint, inventory.rows, k) > 1
    requires forall v :: v in d.violations <==> IsViolation(v, inventory)
    requires d.countMismatch == (|inventory.rows| != |scanned|)
    requires d.budgetMismatch == (inventory.budget != Some(|Undisposed(inventory.rows, inventory.dispositions)|))
    ensures Reports(d, inventory, scanned)
  {
    hide IsIndex, OnlyIn, Lookup, SameFace, Count, IsViolation, Undisposed;
    forall k ensures OnlyIn(scanned, inventory.rows, k) <==> k in now.Keys - was.Keys { IndexedOnly(now, was, scanned, inventory.rows, k); }
    forall k ensures OnlyIn(inventory.rows, scanned, k) <==> k in was.Keys - now.Keys { IndexedOnly(was, now, inventory.rows, scanned, k); }
    forall k ensures !SameFace(Fingerprint, WholeRow, inventory.rows, scanned, k) <==> k in was && k in now && was[k] != now[k] {
      IndexedOnly(was, now, inventory.rows, scanned, k);
    }
  }

  // ----- What silence means -----

  lemma HeadListed<T>(xs: seq<T>)
    ensures xs == [] || xs[0] in xs
  {
  }

  lemma Empty<T>(xs: seq<T>)
    ensures xs == [] <==> forall x :: x !in xs
  {
    HeadListed(xs);
  }

  lemma RowsCleanIsAgreement(d: Drift, inventory: HostRecord, scanned: seq<Row>)
    requires Reports(d, inventory, scanned) && UniqueKeys(Fingerprint, scanned)
    ensures RowsClean(d) <==> Agrees(Fingerprint, WholeRow, inventory.rows, scanned)
  {
    hide Lookup, UniqueKeys, Count, SameFace;
    Empty(d.added);
    Empty(d.removed);
    Empty(d.altered);
    Empty(d.duplicated);
    if Agrees(Fingerprint, WholeRow, inventory.rows, scanned) {
      AgreementFixesLength(Fingerprint, WholeRow, inventory.rows, scanned);
    }
    if RowsClean(d) {
      forall k ensures Lookup(Fingerprint, inventory.rows, k).Some? <==> Lookup(Fingerprint, scanned, k).Some? {
        assert !OnlyIn(scanned, inventory.rows, k) && !OnlyIn(inventory.rows, scanned, k);
      }
    }
  }

  lemma FacesAreRows(a: seq<Row>, b: seq<Row>)
    ensures multiset(Faces(Fingerprint, WholeRow, a)) == multiset(Faces(Fingerprint, WholeRow, b)) <==> multiset(a) == multiset(b)
  {
    var second := (p: (string, Row)) => p.1;
    assert Project(second, Faces(Fingerprint, WholeRow, a)) == a && Project(second, Faces(Fingerprint, WholeRow, b)) == b;
    if multiset(a) == multiset(b) { ProjectMultiset(Sides(Fingerprint, WholeRow), a, b); }
    if multiset(Faces(Fingerprint, WholeRow, a)) == multiset(Faces(Fingerprint, WholeRow, b)) {
      ProjectMultiset(second, Faces(Fingerprint, WholeRow, a), Faces(Fingerprint, WholeRow, b));
    }
  }

  /** The row checks are silent exactly when recorded and scanned rows are equal up to order. */
  lemma RowsCleanMeansEqual(d: Drift, inventory: HostRecord, hash: Hash, modules: seq<Source>)
    requires GoodHash(hash) && GoodPackage(modules)
    requires Reports(d, inventory, ScanPackage(hash, modules))
    ensures RowsClean(d) <==> multiset(inventory.rows) == multiset(ScanPackage(hash, modules))
  {
    hide *;
    var scanned := ScanPackage(hash, modules);
    FingerprintsAreUnique(hash, modules);
    RowsCleanIsAgreement(d, inventory, scanned);
    SilenceIsAgreement(Fingerprint, WholeRow, inventory.rows, scanned);
    FacesAreRows(inventory.rows, scanned);
  }

  lemma ViolationFree(inventory: HostRecord)
    ensures (forall v :: !IsViolation(v, inventory)) <==>
      forall f | f in inventory.dispositions :: f in Fingerprints(inventory.rows) && WellFormed(inventory.dispositions[f])
  {
    hide Blank;
    if forall v :: !IsViolation(v, inventory) {
      forall f | f in inventory.dispositions ensures f in Fingerprints(inventory.rows) && WellFormed(inventory.dispositions[f]) {
        assert !IsViolation(Orphaned(f), inventory) && !IsViolation(BadDisposition(f), inventory);
        assert !IsViolation(EmptyField(f, "sSupportingSymbols"), inventory) && !IsViolation(EmptyField(f, "sRationale"), inventory);
      }
    }
  }

  lemma CleanParts(d: Drift, inventory: HostRecord, scanned: seq<Row>)
    requires Reports(d, inventory, scanned)
    ensures Clean(d) <==> RowsClean(d) && (forall v :: !IsViolation(v, inventory)) && !d.budgetMismatch
  {
    hide IsViolation;
    Empty(d.violations);
  }

  /** A freshly built inventory compares clean exactly when every surviving disposition is well formed. */
  lemma FreshBuildIsClean(d: Drift, existing: HostRecord, hash: Hash, modules: seq<Source>)
    requires GoodHash(hash) && GoodPackage(modules)
    requires Reports(d, Build(ScanPackage(hash, modules), existing), ScanPackage(hash, modules))
    ensures Clean(d) <==> SurvivorsWellFormed(existing, ScanPackage(hash, modules))
  {
    hide GoodHash, GoodPackage, ScanPackage, Undisposed, Reports, IsViolation, WellFormed, RowsClean, Fingerprints, Clean;
    var scanned := ScanPackage(hash, modules);
    var built := Build(scanned, existing);
    CleanParts(d, built, scanned);
    RowsCleanMeansEqual(d, built, hash, modules);
    ViolationFree(built);
    BudgetHolds(d, scanned, existing);
  }

  ghost predicate SurvivorsWellFormed(existing: HostRecord, scanned: seq<Row>) {
    forall f | f in existing.dispositions && f in Fingerprints(scanned) :: WellFormed(existing.dispositions[f])
  }

  lemma BudgetHolds(d: Drift, scanned: seq<Row>, existing: HostRecord)
    requires Reports(d, Build(scanned, existing), scanned)
    ensures !d.budgetMismatch
  {
    hide Lookup, IsViolation, OnlyIn, SameFace, Count, Undisposed;
  }

  // ----- The budget -----

  lemma LastIsNew(rows: seq<Row>)
    requires rows != [] && UniqueKeys(Fingerprint, rows)
    ensures var rest, last := rows[..|rows| - 1], rows[|rows| - 1];
      UniqueKeys(Fingerprint, rest) && last.fingerprint !in Fingerprints(rest) && Fingerprints(rows) == Fingerprints(rest) + {last.fingerprint}
  {
    var rest, last := rows[..|rows| - 1], rows[|rows| - 1];
    assert rows == rest + [last];
    forall r | r in rest ensures r.fingerprint != last.fingerprint {
      var i :| 0 <= i < |rest| && rest[i] == r;
      assert Fingerprint(rows[i]) != Fingerprint(rows[|rows| - 1]);
    }
  }

  lemma OneMore(a: set<string>, x: string, d: set<string>)
    requires x !in a
    ensures |a + {x}| == |a| + 1
    ensures |(a + {x}) - d| == |a - d| + if x in d then 0 else 1
  {
    if x in d {
      assert (a + {x}) - d == a - d;
    } else {
      assert (a + {x}) - d == (a - d) + {x};
    }
  }

  lemma {:induction false} UndisposedAre(rows: seq<Row>, dispositions: map<string, Judgement>)
    requires UniqueKeys(Fingerprint, rows)
    ensures |Undisposed(rows, dispositions)| == |Fingerprints(rows) - dispositions.Keys|
    ensures |Fingerprints(rows)| == |rows|
  {
    if rows == [] {
      assert Fingerprints(rows) == {};
    } else {
      LastIsNew(rows);
      hide Fingerprints, UniqueKeys;
      var rest, last := rows[..|rows| - 1], rows[|rows| - 1];
      UndisposedAre(rest, dispositions);
      OneMore(Fingerprints(rest), last.fingerprint, dispositions.Keys);
    }
  }

  /** Dispositions and budget together account for every row once: no disposition covers two rows. */
  lemma BudgetAccountsForRows(existing: HostRecord, hash: Hash, modules: seq<Source>)
    requires GoodHash(hash) && GoodPackage(modules)
    ensures var built := Build(ScanPackage(hash, modules), existing);
      built.budget.Some? && |built.dispositions| + built.budget.value == |built.rows|
  {
    hide GoodHash, GoodPackage, ScanPackage, Undisposed, UniqueKeys, Fingerprints;
    var scanned := ScanPackage(hash, modules);
    var built := Build(scanned, existing);
    FingerprintsAreUnique(hash, modules);
    UndisposedAre(scanned, built.dispositions);
    var all, disposed := Fingerprints(scanned), built.dispositions.Keys;
    assert disposed <= all;
    assert all == disposed + (all - disposed);
    assert |built.dispositions| == |disposed|;
  }
}
