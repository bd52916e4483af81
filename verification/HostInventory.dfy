/** tools/generateHostCapabilityInventory.py: fingerprints, the merge with dispositions, and the drift check. */
module HostInventory {
  import opened Numerals
  import opened Orders
  import opened Cuts
  import opened Hashing
  import opened Occurrences
  import opened Records

  /** One call site handing command text to the connection. */
  datatype Row = Row(module_: string, enclosing: string, method_: string, command: string, fingerprint: string)

  function Identity(r: Row): seq<string> { [r.module_, r.enclosing, r.method_, r.command] }

  function Fingerprint(r: Row): string { r.fingerprint }

  function Joined(r: Row): string { r.module_ + "\n" + (r.enclosing + "\n" + (r.method_ + "\n" + r.command)) }

  /** `_fsFingerprintRow` */
  function FingerprintOf(hash: Hash, r: Row, occurrence: nat): string {
    hash(Joined(r)) + if occurrence == 0 then "" else "#" + Decimal(occurrence)
  }

  predicate OneLine(s: string) { '\n' !in s }

  /** Paths, qualified names and method names hold no line break; commands may. */
  predicate Plain(r: Row) { OneLine(r.module_) && OneLine(r.enclosing) && OneLine(r.method_) }

  lemma PeelLine(a: string, rest: string, a': string, rest': string)
    requires OneLine(a) && OneLine(a') && a + "\n" + rest == a' + "\n" + rest'
    ensures a == a' && rest == rest'
  {
    assert a + "\n" + rest == a + ['\n'] + rest;
    CutFirst(a, rest, a', rest', '\n');
  }

  lemma JoinedIsInjective(a: Row, b: Row)
    requires Plain(a) && Plain(b) && Joined(a) == Joined(b)
    ensures Identity(a) == Identity(b)
  {
    PeelLine(a.module_, a.enclosing + "\n" + (a.method_ + "\n" + a.command), b.module_, b.enclosing + "\n" + (b.method_ + "\n" + b.command));
    PeelLine(a.enclosing, a.method_ + "\n" + a.command, b.enclosing, b.method_ + "\n" + b.command);
    PeelLine(a.method_, a.command, b.method_, b.command);
  }

  /** A digest and its occurrence suffix are both determined by the fingerprint. */
  lemma SuffixIsDetermined(d: string, n: nat, e: string, m: nat)
    requires '#' !in d && '#' !in e
    requires d + (if n == 0 then "" else "#" + Decimal(n)) == e + (if m == 0 then "" else "#" + Decimal(m))
    ensures d == e && n == m
  {
    var x := d + (if n == 0 then "" else "#" + Decimal(n));
    assert n == 0 <==> '#' !in x by { if n != 0 { assert x[|d|] == '#'; } }
    assert m == 0 <==> '#' !in x by { if m != 0 { assert x[|e|] == '#'; } }
    assert d + "" == d && e + "" == e;
    if n != 0 {
      assert d + ['#'] + Decimal(n) == x == e + ['#'] + Decimal(m);
      CutFirst(d, Decimal(n), e, Decimal(m), '#');
      DecimalInjective(n, m);
    }
  }

  /** A fingerprint names one site: its module, function, method, command and which repeat it is. */
  lemma FingerprintIdentifies(hash: Hash, a: Row, n: nat, b: Row, m: nat)
    requires GoodHash(hash) && Plain(a) && Plain(b)
    ensures FingerprintOf(hash, a, n) == FingerprintOf(hash, b, m) <==> Identity(a) == Identity(b) && n == m
  {
    hide Decimal, Plain, Joined;
    if FingerprintOf(hash, a, n) == FingerprintOf(hash, b, m) {
      HexHasNone(hash, Joined(a), '#');
      HexHasNone(hash, Joined(b), '#');
      SuffixIsDetermined(hash(Joined(a)), n, hash(Joined(b)), m);
      JoinedIsInjective(a, b);
    }
    if Identity(a) == Identity(b) { SameIdentityJoins(a, b); }
  }

  lemma SameIdentityJoins(a: Row, b: Row)
    requires Identity(a) == Identity(b)
    ensures Joined(a) == Joined(b)
  {
    assert Identity(a)[0] == a.module_ && Identity(a)[1] == a.enclosing && Identity(a)[2] == a.method_ && Identity(a)[3] == a.command;
    assert Identity(b)[0] == b.module_ && Identity(b)[1] == b.enclosing && Identity(b)[2] == b.method_ && Identity(b)[3] == b.command;
  }

  // ----- Scanning -----

  function Ids(rows: seq<Row>): (r: seq<seq<string>>)
    ensures |r| == |rows|
  {
    Project(Identity, rows)
  }

  /** The rows of one module, in visiting order, with their fingerprints. */
  function Scanned(hash: Hash, rows: seq<Row>): (r: seq<Row>)
    ensures |r| == |rows|
    ensures forall i | 0 <= i < |rows| :: r[i] == rows[i].(fingerprint := FingerprintOf(hash, rows[i], Earlier(Ids(rows)[..i], Identity(rows[i]))))
  {
    seq(|rows|, i requires 0 <= i < |rows| =>
      rows[i].(fingerprint := FingerprintOf(hash, rows[i], Earlier(Ids(rows)[..i], Identity(rows[i])))))
  }

  lemma ScannedAt(hash: Hash, rows: seq<Row>, i: nat)
    requires i < |rows|
    ensures |Ids(rows)| == |rows| && Ids(rows)[i] == Identity(rows[i])
    ensures Scanned(hash, rows)[i] == rows[i].(fingerprint := FingerprintOf(hash, rows[i], Earlier(Ids(rows)[..i], Ids(rows)[i])))
  {
    hide FingerprintOf, Earlier;
  }

  lemma NoCounts()
    ensures CountsAre(map[], [])
  {
  }

  /** `flistScanModuleSource`: occurrences counted, fingerprints written into the rows. */
  method ScanModule(hash: Hash, rows: array<Row>)
    modifies rows
    ensures rows[..] == Scanned(hash, old(rows[..]))
  {
    ghost var before := rows[..];
    var counts: map<seq<string>, nat> := map[];
    NoCounts();
    hide *;
    for i := 0 to rows.Length
      invariant CountsAre(counts, Ids(before)[..i])
      invariant forall k | 0 <= k < i :: rows[k] == Scanned(hash, before)[k]
      invariant forall k | i <= k < rows.Length :: rows[k] == before[k]
    {
      ghost var ids := Ids(before);
      ScannedAt(hash, before, i);
      var id := Identity(rows[i]);
      var occurrence := if id in counts then counts[id] else 0;
      CountOneMore(counts, ids, i);
      counts := counts[id := occurrence + 1];
      rows[i] := rows[i].(fingerprint := FingerprintOf(hash, rows[i], occurrence));
    }
  }

  /** The rows of one module, all carrying its path. */
  datatype Source = Source(path: string, rows: seq<Row>)

  ghost predicate GoodSource(m: Source) { forall r | r in m.rows :: r.module_ == m.path && Plain(r) }

  function ScannedPackage(hash: Hash, modules: seq<Source>): seq<Row> {
    if modules == [] then []
    else ScannedPackage(hash, modules[..|modules| - 1]) + Scanned(hash, modules[|modules| - 1].rows)
  }

  function PackageKey(r: Row): seq<string> { Identity(r) + [r.fingerprint] }

  /** `flistScanPackage`, for modules visited in path order. */
  function ScanPackage(hash: Hash, modules: seq<Source>): seq<Row> {
    SortOn(PackageKey, TupleLe, ScannedPackage(hash, modules))
  }

  /** What a scan reports of a call site besides its fingerprint. */
  function Told(r: Row): (string, string, string, string) { (r.module_, r.enclosing, r.method_, r.command) }

  function AllRows(modules: seq<Source>): seq<Row> {
    if modules == [] then [] else AllRows(modules[..|modules| - 1]) + modules[|modules| - 1].rows
  }

  lemma {:induction false} ScanTellsAll(hash: Hash, modules: seq<Source>)
    ensures Project(Told, ScannedPackage(hash, modules)) == Project(Told, AllRows(modules))
  {
    hide FingerprintOf, Earlier;
    if modules != [] { ScanTellsAll(hash, modules[..|modules| - 1]); }
  }

  /** A package scan reports the call sites of all its modules, each once, by module, function,
      method and command, and identical ones by fingerprint. */
  lemma ScanHoldsEverySite(hash: Hash, modules: seq<Source>)
    ensures multiset(Project(Told, ScanPackage(hash, modules))) == multiset(Project(Told, AllRows(modules)))
    ensures forall i, j | 0 <= i < j < |ScanPackage(hash, modules)| ::
      var a, b := ScanPackage(hash, modules)[i], ScanPackage(hash, modules)[j];
      a == b || TupleBefore([a.module_, a.enclosing, a.method_, a.command, a.fingerprint], [b.module_, b.enclosing, b.method_, b.command, b.fingerprint])
  {
    hide ScannedPackage, TupleLe, TupleBefore, SortOn;
    ScanTellsAll(hash, modules);
    ProjectMultiset(Told, ScannedPackage(hash, modules), ScanPackage(hash, modules));
    TupleLeIsTotal();
    SortOnSorts(PackageKey, TupleLe, ScannedPackage(hash, modules));
    var rows := ScanPackage(hash, modules);
    forall i, j | 0 <= i < j < |rows|
      ensures var a, b := rows[i], rows[j];
        a == b || TupleBefore([a.module_, a.enclosing, a.method_, a.command, a.fingerprint], [b.module_, b.enclosing, b.method_, b.command, b.fingerprint])
    {
      KeyFields(rows[i]);
      KeyFields(rows[j]);
      assert TupleLe(PackageKey(rows[i]), PackageKey(rows[j]));
      TupleLeMeans(PackageKey(rows[i]), PackageKey(rows[j]));
    }
  }

  lemma KeyFields(r: Row)
    ensures PackageKey(r) == [r.module_, r.enclosing, r.method_, r.command, r.fingerprint]
    ensures var k := PackageKey(r); r == Row(k[0], k[1], k[2], k[3], k[4])
  {
  }

  ghost predicate GoodPackage(modules: seq<Source>) {
    && (forall i, j | 0 <= i < j < |modules| :: modules[i].path != modules[j].path)
    && (forall m | m in modules :: GoodSource(m))
  }

  /** Identical sites of one module stay apart. */
  lemma ModuleFingerprintsDiffer(hash: Hash, rows: seq<Row>)
    requires GoodHash(hash) && forall r | r in rows :: Plain(r)
    ensures UniqueKeys(Fingerprint, Scanned(hash, rows))
  {
    hide FingerprintOf, GoodHash, Plain, Earlier;
    forall i, j | 0 <= i < j < |rows| ensures Scanned(hash, rows)[i].fingerprint != Scanned(hash, rows)[j].fingerprint {
      var ids := Ids(rows);
      FingerprintIdentifies(hash, rows[i], Earlier(ids[..i], Identity(rows[i])), rows[j], Earlier(ids[..j], Identity(rows[j])));
      if Identity(rows[i]) == Identity(rows[j]) {
        EarlierStep(ids, ids[i], i);
        EarlierGrows(ids, ids[i], i + 1, j);
      }
    }
  }

  /** Every scanned row's fingerprint is the one of its own site, at some occurrence. */
  ghost predicate OwnFingerprint(hash: Hash, r: Row) {
    exists n: nat :: r.fingerprint == FingerprintOf(hash, r, n)
  }

  lemma ModuleRows(hash: Hash, m: Source)
    requires GoodSource(m)
    ensures forall r | r in Scanned(hash, m.rows) :: r.module_ == m.path && Plain(r) && OwnFingerprint(hash, r)
  {
    hide FingerprintOf, Earlier, Plain;
    forall r | r in Scanned(hash, m.rows) ensures r.module_ == m.path && Plain(r) && OwnFingerprint(hash, r) {
      var i :| 0 <= i < |m.rows| && Scanned(hash, m.rows)[i] == r;
      SameSite(hash, m.rows[i], r, Earlier(Ids(m.rows)[..i], Identity(m.rows[i])));
    }
  }

  lemma SameSite(hash: Hash, a: Row, b: Row, n: nat)
    requires Plain(a) && b == a.(fingerprint := FingerprintOf(hash, a, n))
    ensures b.module_ == a.module_ && Plain(b) && OwnFingerprint(hash, b)
  {
    assert b.fingerprint == FingerprintOf(hash, b, n);
  }

  lemma OtherModule(hash: Hash, a: Row, b: Row)
    requires GoodHash(hash) && Plain(a) && Plain(b) && OwnFingerprint(hash, a) && OwnFingerprint(hash, b)
    requires a.module_ != b.module_
    ensures a.fingerprint != b.fingerprint
  {
    hide FingerprintOf, GoodHash, Plain;
    var n: nat :| a.fingerprint == FingerprintOf(hash, a, n);
    var m: nat :| b.fingerprint == FingerprintOf(hash, b, m);
    FingerprintIdentifies(hash, a, n, b, m);
    assert Identity(a)[0] != Identity(b)[0];
  }

  /** The scanned rows of some modules, with what is known of each. */
  ghost predicate FromModules(hash: Hash, rows: seq<Row>, modules: seq<Source>) {
    forall r | r in rows :: Plain(r) && OwnFingerprint(hash, r) && exists m | m in modules :: m.path == r.module_
  }

  lemma {:induction false} PackageFingerprintsDiffer(hash: Hash, modules: seq<Source>)
    requires GoodHash(hash) && GoodPackage(modules)
    ensures UniqueKeys(Fingerprint, ScannedPackage(hash, modules)) && FromModules(hash, ScannedPackage(hash, modules), modules)
  {
    if modules != [] {
      var n := |modules| - 1;
      PackageFingerprintsDiffer(hash, modules[..n]);
      AddModule(hash, ScannedPackage(hash, modules[..n]), modules[..n], modules[n]);
      assert modules[..n] + [modules[n]] == modules;
    }
  }

  lemma AddModule(hash: Hash, rows: seq<Row>, modules: seq<Source>, m: Source)
    requires GoodHash(hash) && GoodSource(m) && UniqueKeys(Fingerprint, rows) && FromModules(hash, rows, modules)
    requires forall o | o in modules :: o.path != m.path
    ensures UniqueKeys(Fingerprint, rows + Scanned(hash, m.rows))
    ensures FromModules(hash, rows + Scanned(hash, m.rows), modules + [m])
  {
    hide GoodHash, Plain, OwnFingerprint;
    var more := Scanned(hash, m.rows);
    ModuleRows(hash, m);
    ModuleFingerprintsDiffer(hash, m.rows);
    hide Scanned;
    forall r, s | r in rows && s in more ensures r.fingerprint != s.fingerprint { OtherModule(hash, r, s); }
    assert m in modules + [m];
  }

  /** No two rows of a package scan share a fingerprint. */
  lemma FingerprintsAreUnique(hash: Hash, modules: seq<Source>)
    requires GoodHash(hash) && GoodPackage(modules)
    ensures UniqueKeys(Fingerprint, ScanPackage(hash, modules))
  {
    hide GoodHash, GoodPackage, ScannedPackage, TupleLe, SortOn, UniqueKeys, Distinct, Project;
    PackageFingerprintsDiffer(hash, modules);
    var a, b := ScannedPackage(hash, modules), ScanPackage(hash, modules);
    ProjectMultiset(Fingerprint, a, b);
    UniqueIsDistinct(Fingerprint, a);
    DistinctFromMultiset(Project(Fingerprint, a), Project(Fingerprint, b));
    UniqueIsDistinct(Fingerprint, b);
  }
}
