/** What an accepted attribution says, told from the rows, lines and definitions of a module. */
module AttributionMeaning {
  import opened Numerals
  import opened Orders
  import opened Inventory
  import opened Records
  import opened Attribution

  // ----- In plain terms -----

  /** Row `j` of the module was recorded in the frame's function. */
  predicate InFrame(source: Source, f: Frame, j: nat) { j < |source.rows| && source.rows[j].function_ == f.function_ }

  /** Besides, its expression stands on the frame's line. */
  predicate OnFrameLine(source: Source, f: Frame, j: nat) {
    InFrame(source, f, j) && f.line in source.byLine && source.rows[j].fingerprint in source.byLine[f.line]
  }

  /** The frame's function has a row outside the gateway. */
  ghost predicate Settles(index: Index, f: Frame) {
    f.path in index && exists j: nat :: InFrame(index[f.path], f, j) && index[f.path].rows[j].insideGateway != Some(true)
  }

  /** The only row of the function on the line. */
  ghost predicate OnlyOnLine(source: Source, f: Frame, row: Row) {
    exists j: nat :: OnFrameLine(source, f, j) && source.rows[j] == row && forall k: nat | OnFrameLine(source, f, k) :: k == j
  }

  /** The innermost definition of the function around the line: of those that start last the
      first in the order of the walk. */
  predicate IsAround(definitions: seq<Definition>, f: Frame, m: nat) {
    m < |definitions| && Surrounds(definitions[m], f) &&
    forall n | 0 <= n < |definitions| && n != m && Surrounds(definitions[n], f) ::
      definitions[n].first < definitions[m].first || (definitions[n].first == definitions[m].first && m < n)
  }

  predicate Surrounds(d: Definition, f: Frame) { d.name == f.function_ && d.first <= f.line && f.line <= d.last }

  /** Target `k` of assignment `i` is the name. */
  predicate BindsAt(d: Definition, name: string, i: nat, k: nat) {
    i < |d.assigns| && k < |d.assigns[i].targets| && d.assigns[i].targets[k] == name
  }

  /** One target of one plain assignment in the definition is the name, and what is assigned has the fingerprint. */
  ghost predicate BoundOnce(d: Definition, name: string, fingerprint: string) {
    exists i: nat, k: nat :: BindsAt(d, name, i, k) && d.assigns[i].fingerprint == fingerprint &&
      forall i': nat, k': nat | BindsAt(d, name, i', k') :: i' == i && k' == k
  }

  /** A call of the bare name in the definition covers the line. */
  ghost predicate CalledOn(d: Definition, line: int, name: string) {
    exists c :: c in d.calls && c.name == name && c.first <= line && line <= c.last
  }

  /** The name is called on the line, bound once, and what it is bound to is row `j`'s expression. */
  ghost predicate HopsTo(source: Source, f: Frame, d: Definition, name: string, j: nat) {
    CalledOn(d, f.line, name) && InFrame(source, f, j) && BoundOnce(d, name, source.rows[j].fingerprint)
  }

  predicate IsRow(source: Source, j: nat, row: Row) { j < |source.rows| && source.rows[j] == row }

  /** No row of the function stands on the line, and one name leads in one hop to one row. */
  ghost predicate OnlyHop(source: Source, f: Frame, row: Row) {
    (forall j: nat :: !OnFrameLine(source, f, j)) &&
    exists m: nat :: IsAround(source.definitions, f, m) && OnlyHopIn(source, f, source.definitions[m], row)
  }

  ghost predicate OnlyHopIn(source: Source, f: Frame, d: Definition, row: Row) {
    exists name, j: nat :: HopsTo(source, f, d, name, j) && IsRow(source, j, row) &&
      forall name', j': nat | HopsTo(source, f, d, name', j') :: name' == name && j' == j
  }

  // ----- Lists of kept rows -----

  /** Row `j` is the one that is kept. */
  ghost predicate KeptAlone(keep: Row -> bool, rows: seq<Row>, row: Row) {
    exists j: nat :: j < |rows| && rows[j] == row && keep(rows[j]) && forall k: nat | k < |rows| && keep(rows[k]) :: k == j
  }

  ghost predicate NoneKept(keep: Row -> bool, rows: seq<Row>) { forall k: nat | k < |rows| :: !keep(rows[k]) }

  lemma NoneStep(keep: Row -> bool, rows: seq<Row>)
    requires rows != []
    ensures NoneKept(keep, rows) <==> !keep(rows[0]) && NoneKept(keep, rows[1..])
  {
    assert forall k: nat | 1 <= k < |rows| :: rows[k] == rows[1..][k - 1];
    assert forall k: nat | k < |rows[1..]| :: rows[1..][k] == rows[k + 1];
  }

  lemma AloneStep(keep: Row -> bool, rows: seq<Row>, row: Row)
    requires rows != []
    ensures KeptAlone(keep, rows, row) <==>
      if keep(rows[0]) then rows[0] == row && NoneKept(keep, rows[1..]) else KeptAlone(keep, rows[1..], row)
  {
    var rest := rows[1..];
    assert forall k: nat | 1 <= k < |rows| :: rows[k] == rest[k - 1];
    assert forall k: nat | k < |rest| :: rest[k] == rows[k + 1];
    if KeptAlone(keep, rows, row) {
      var j: nat :| j < |rows| && rows[j] == row && keep(rows[j]) && forall k: nat | k < |rows| && keep(rows[k]) :: k == j;
      if j > 0 { assert rest[j - 1] == row; }
    }
    if !keep(rows[0]) && KeptAlone(keep, rest, row) {
      var j: nat :| j < |rest| && rest[j] == row && keep(rest[j]) && forall k: nat | k < |rest| && keep(rest[k]) :: k == j;
      assert rows[j + 1] == row;
    }
    if keep(rows[0]) && rows[0] == row && NoneKept(keep, rest) {
      assert forall k: nat | k < |rows| && keep(rows[k]) :: k == 0;
    }
  }

  lemma {:induction false} KeepOne(keep: Row -> bool, rows: seq<Row>, row: Row)
    ensures Keep(keep, rows) == [row] <==> KeptAlone(keep, rows, row)
    ensures Keep(keep, rows) == [] <==> NoneKept(keep, rows)
  {
    hide KeptAlone, NoneKept;
    if rows == [] {
      NothingKept(keep, row);
    } else {
      KeepOne(keep, rows[1..], row);
      AloneStep(keep, rows, row);
      NoneStep(keep, rows);
      var rest := Keep(keep, rows[1..]);
      if keep(rows[0]) {
        assert Keep(keep, rows)[1..] == rest;
      } else {
        assert [] + rest == rest;
      }
    }
  }

  lemma NothingKept(keep: Row -> bool, row: Row)
    ensures NoneKept(keep, []) && !KeptAlone(keep, [], row)
  {
  }

  lemma {:induction false} KeepTwice(a: Row -> bool, b: Row -> bool, rows: seq<Row>)
    ensures Keep(a, Keep(b, rows)) == Keep(r => a(r) && b(r), rows)
  {
    if rows != [] {
      KeepTwice(a, b, rows[1..]);
      var rest := Keep(b, rows[1..]);
      if b(rows[0]) { assert ([rows[0]] + rest)[1..] == rest; } else { assert [] + rest == rest; }
    }
  }

  lemma OnLineMeans(index: Index, f: Frame, row: Row)
    requires f.path in index
    ensures ExactRow(index, f, row) <==> OnlyOnLine(index[f.path], f, row)
    ensures OnTheLine(index, f) == [] <==> forall j: nat :: !OnFrameLine(index[f.path], f, j)
  {
    var source := index[f.path];
    var a, b := HasOneOf(OnLine(source, f.line)), InFunction(f.function_);
    var both := r => a(r) && b(r);
    KeepTwice(a, b, source.rows);
    KeepOne(both, source.rows, row);
    forall j: nat ensures OnFrameLine(source, f, j) <==> j < |source.rows| && both(source.rows[j]) {}
  }

  lemma DecidesMeans(index: Index, f: Frame)
    ensures Decides(index, f) <==> Settles(index, f)
  {
    if Decides(index, f) {
      var r :| r in Candidates(index, f) && !Gateway(r);
      var j :| 0 <= j < |index[f.path].rows| && index[f.path].rows[j] == r;
      assert InFrame(index[f.path], f, j);
    }
    if Settles(index, f) {
      var j: nat :| InFrame(index[f.path], f, j) && index[f.path].rows[j].insideGateway != Some(true);
      assert index[f.path].rows[j] in Candidates(index, f);
    }
  }

  // ----- Names bound once -----

  ghost predicate NeverBound(d: Definition, name: string) { forall i: nat, k: nat :: !BindsAt(d, name, i, k) }

  predicate IsTarget(targets: seq<string>, name: string, k: nat) { k < |targets| && targets[k] == name }

  ghost predicate NoTarget(targets: seq<string>, name: string) { forall k: nat :: !IsTarget(targets, name, k) }

  ghost predicate OneTarget(targets: seq<string>, name: string) {
    exists k: nat :: IsTarget(targets, name, k) && forall j: nat | IsTarget(targets, name, j) :: j == k
  }

  lemma TargetsStep(targets: seq<string>, name: string)
    requires targets != []
    ensures var init, last := targets[..|targets| - 1], targets[|targets| - 1];
      (NoTarget(targets, name) <==> NoTarget(init, name) && last != name) &&
      (OneTarget(targets, name) <==> if last == name then NoTarget(init, name) else OneTarget(init, name))
  {
    var init, n := targets[..|targets| - 1], |targets| - 1;
    forall k: nat ensures IsTarget(targets, name, k) <==> IsTarget(init, name, k) || (k == n && targets[n] == name) {}
    forall k: nat ensures IsTarget(init, name, k) ==> k < n {}
    hide IsTarget;
    if targets[n] == name {
      assert IsTarget(targets, name, n);
      if OneTarget(targets, name) {
        forall k: nat ensures !IsTarget(init, name, k) {}
      }
      if NoTarget(init, name) {
        assert forall j: nat | IsTarget(targets, name, j) :: j == n;
      }
    } else {
      assert forall k: nat :: IsTarget(targets, name, k) <==> IsTarget(init, name, k);
    }
  }

  lemma {:induction false} TimesMeans(targets: seq<string>, name: string, fingerprint: string)
    ensures Times(targets, name, fingerprint) == [] <==> NoTarget(targets, name)
    ensures |Times(targets, name, fingerprint)| == 1 <==> OneTarget(targets, name)
    ensures forall x | x in Times(targets, name, fingerprint) :: x == fingerprint
  {
    if targets == [] {
    } else {
      var init, last := targets[..|targets| - 1], targets[|targets| - 1];
      var more := if last == name then [fingerprint] else [];
      assert Times(targets, name, fingerprint) == Times(init, name, fingerprint) + more;
      hide NoTarget, OneTarget, Times;
      TimesMeans(init, name, fingerprint);
      TargetsStep(targets, name);
    }
  }

  /** The definition with its last assignment taken away. */
  function Before(d: Definition): Definition
    requires d.assigns != []
  {
    d.(assigns := d.assigns[..|d.assigns| - 1])
  }

  lemma BindsLast(d: Definition, name: string)
    requires d.assigns != []
    ensures forall i: nat, k: nat :: BindsAt(d, name, i, k) <==>
      BindsAt(Before(d), name, i, k) || (i == |d.assigns| - 1 && IsTarget(d.assigns[i].targets, name, k))
  {
  }

  lemma {:induction false} BindingsMean(d: Definition, name: string, fingerprint: string)
    ensures Bindings(d.assigns, name) == [] <==> NeverBound(d, name)
    ensures Bindings(d.assigns, name) == [fingerprint] <==> BoundOnce(d, name, fingerprint)
    decreases |d.assigns|
  {
    hide BindsAt, IsTarget;
    if d.assigns == [] {
      NothingBound(d, name, fingerprint);
    } else {
      var last := d.assigns[|d.assigns| - 1];
      BindingsMean(Before(d), name, fingerprint);
      TimesMeans(last.targets, name, last.fingerprint);
      var a, b := Bindings(Before(d).assigns, name), Times(last.targets, name, last.fingerprint);
      BoundStep(d, name, fingerprint);
      SingleOfTwo(a, b, fingerprint);
      if |b| == 1 { assert b[0] in b && b == [b[0]]; }
    }
  }

  lemma SingleOfTwo(a: seq<string>, b: seq<string>, x: string)
    ensures a + b == [x] <==> (a == [x] && b == []) || (a == [] && b == [x])
    ensures a + b == [] <==> a == [] && b == []
  {
    if a + b == [x] { assert |a| + |b| == 1; }
  }

  lemma NothingBound(d: Definition, name: string, fingerprint: string)
    requires d.assigns == []
    ensures NeverBound(d, name) && !BoundOnce(d, name, fingerprint)
  {
  }

  lemma BoundStep(d: Definition, name: string, fingerprint: string)
    requires d.assigns != []
    ensures var last := d.assigns[|d.assigns| - 1];
      (NeverBound(d, name) <==> NeverBound(Before(d), name) && NoTarget(last.targets, name)) &&
      (BoundOnce(d, name, fingerprint) <==>
        (BoundOnce(Before(d), name, fingerprint) && NoTarget(last.targets, name)) ||
        (NeverBound(Before(d), name) && OneTarget(last.targets, name) && last.fingerprint == fingerprint))
  {
    hide BindsAt, IsTarget;
    BindsLast(d, name);
    BoundShorter(d, name, fingerprint);
    var n, last := |d.assigns| - 1, d.assigns[|d.assigns| - 1];
    assert forall i: nat, k: nat | BindsAt(Before(d), name, i, k) :: i < n by { BindsWithin(Before(d), name); }
    if BoundOnce(d, name, fingerprint) {
      var i: nat, k: nat :| BindsAt(d, name, i, k) && d.assigns[i].fingerprint == fingerprint &&
        forall i': nat, k': nat | BindsAt(d, name, i', k') :: i' == i && k' == k;
      if i == n {
        assert IsTarget(last.targets, name, k);
        forall j: nat | IsTarget(last.targets, name, j) ensures j == k { assert BindsAt(d, name, n, j); }
      } else {
        assert BindsAt(Before(d), name, i, k) && Before(d).assigns[i] == d.assigns[i];
        forall j: nat ensures !IsTarget(last.targets, name, j) { assert BindsAt(d, name, n, j) ==> n == i; }
      }
    }
  }

  lemma BindsWithin(d: Definition, name: string)
    ensures forall i: nat, k: nat | BindsAt(d, name, i, k) :: i < |d.assigns|
  {
  }

  lemma BoundShorter(d: Definition, name: string, fingerprint: string)
    requires d.assigns != []
    ensures var last := d.assigns[|d.assigns| - 1];
      (BoundOnce(Before(d), name, fingerprint) && NoTarget(last.targets, name) ==> BoundOnce(d, name, fingerprint)) &&
      (NeverBound(Before(d), name) && OneTarget(last.targets, name) && last.fingerprint == fingerprint ==> BoundOnce(d, name, fingerprint)) &&
      (NeverBound(d, name) <==> NeverBound(Before(d), name) && NoTarget(last.targets, name))
  {
    hide BindsAt, IsTarget;
    BindsLast(d, name);
    var n, last := |d.assigns| - 1, d.assigns[|d.assigns| - 1];
    BindsWithin(Before(d), name);
    if BoundOnce(Before(d), name, fingerprint) && NoTarget(last.targets, name) {
      var i: nat, k: nat :| BindsAt(Before(d), name, i, k) && Before(d).assigns[i].fingerprint == fingerprint &&
        forall i': nat, k': nat | BindsAt(Before(d), name, i', k') :: i' == i && k' == k;
      assert BindsAt(d, name, i, k) && d.assigns[i] == Before(d).assigns[i];
    }
    if NeverBound(Before(d), name) && OneTarget(last.targets, name) && last.fingerprint == fingerprint {
      var k: nat :| IsTarget(last.targets, name, k) && forall j: nat | IsTarget(last.targets, name, j) :: j == k;
      assert BindsAt(d, name, n, k);
    }
    if NeverBound(d, name) {
      forall k: nat ensures !IsTarget(last.targets, name, k) { assert !BindsAt(d, name, n, k); }
    }
  }

  // ----- One hop -----

  lemma {:induction false} EnclosingIsAround(definitions: seq<Definition>, f: Frame) returns (m: nat)
    requires Enclosing(definitions, f).Some?
    ensures IsAround(definitions, f, m) && Enclosing(definitions, f) == Some(definitions[m])
  {
    hide Surrounds, IsAround;
    forall d ensures Covers(d, f) <==> Surrounds(d, f) { CoversMeans(d, f); }
    hide Covers;
    var rest := definitions[1..];
    AroundStep(definitions, f);
    if Covers(definitions[0], f) && (Enclosing(rest, f).None? || definitions[0].first >= Enclosing(rest, f).value.first) {
      m := 0;
      forall n: nat | n < |rest| && Surrounds(rest[n], f) ensures rest[n].first <= definitions[0].first { assert rest[n] in rest; }
    } else {
      m := EnclosingIsAround(rest, f);
      assert m < |rest| by { AroundSurrounds(rest, f, m); }
      assert rest[m] == definitions[m + 1];
      m := m + 1;
    }
  }

  lemma AroundOnce(definitions: seq<Definition>, f: Frame, m: nat, n: nat)
    requires IsAround(definitions, f, m) && IsAround(definitions, f, n)
    ensures m == n
  {
  }

  lemma AroundMeans(definitions: seq<Definition>, f: Frame, m: nat)
    requires IsAround(definitions, f, m)
    ensures Enclosing(definitions, f) == Some(definitions[m])
  {
    hide IsAround;
    assert Surrounds(definitions[m], f) && definitions[m] in definitions by { AroundSurrounds(definitions, f, m); }
    CoversMeans(definitions[m], f);
    var n := EnclosingIsAround(definitions, f);
    AroundOnce(definitions, f, m, n);
  }

  lemma AroundSurrounds(definitions: seq<Definition>, f: Frame, m: nat)
    requires IsAround(definitions, f, m)
    ensures m < |definitions| && Surrounds(definitions[m], f)
  {
  }

  lemma CoversMeans(d: Definition, f: Frame)
    ensures Covers(d, f) <==> Surrounds(d, f)
  {
  }

  lemma AroundStep(definitions: seq<Definition>, f: Frame)
    requires definitions != []
    ensures var rest := definitions[1..];
      (forall m: nat :: IsAround(definitions, f, m + 1) <==>
        IsAround(rest, f, m) && !(Surrounds(definitions[0], f) && definitions[0].first >= rest[m].first)) &&
      (IsAround(definitions, f, 0) <==>
        Surrounds(definitions[0], f) && forall n: nat | n < |rest| && Surrounds(rest[n], f) :: rest[n].first <= definitions[0].first)
  {
    hide Surrounds;
    var rest := definitions[1..];
    assert forall k: nat | k < |rest| :: rest[k] == definitions[k + 1];
    assert forall k: nat | 1 <= k < |definitions| :: definitions[k] == rest[k - 1];
  }

  /** Of some names, in whatever order, one leads to one row. */
  ghost predicate OnlyAmong(source: Source, f: Frame, d: Definition, names: seq<string>, row: Row) {
    exists name, j: nat :: name in names && LeadsToRow(source, f, d, name, j) && IsRow(source, j, row) &&
      forall name', j': nat | name' in names && LeadsToRow(source, f, d, name', j') :: name' == name && j' == j
  }

  ghost predicate LeadsToRow(source: Source, f: Frame, d: Definition, name: string, j: nat) {
    InFrame(source, f, j) && BoundOnce(d, name, source.rows[j].fingerprint)
  }

  ghost predicate NoneAmong(source: Source, f: Frame, d: Definition, names: seq<string>) {
    forall name, j: nat | name in names :: !LeadsToRow(source, f, d, name, j)
  }

  ghost predicate LeadsAlone(source: Source, f: Frame, d: Definition, name: string, row: Row) {
    exists j: nat :: LeadsToRow(source, f, d, name, j) && IsRow(source, j, row) && forall k: nat | LeadsToRow(source, f, d, name, k) :: k == j
  }

  ghost predicate LeadsNowhere(source: Source, f: Frame, d: Definition, name: string) {
    forall j: nat :: !LeadsToRow(source, f, d, name, j)
  }

  lemma HopOne(source: Source, f: Frame, d: Definition, name: string, row: Row)
    ensures var hop := Hop(Bindings(d.assigns, name), Keep(InFunction(f.function_), source.rows));
      (hop == [row] <==> LeadsAlone(source, f, d, name, row)) && (hop == [] <==> LeadsNowhere(source, f, d, name))
  {
    hide BoundOnce, Bindings;
    var bound := Bindings(d.assigns, name);
    forall fingerprint ensures BoundOnce(d, name, fingerprint) <==> bound == [fingerprint] { BindingsMean(d, name, fingerprint); }
    if |bound| == 1 {
      var a, b := HasOneOf({bound[0]}), InFunction(f.function_);
      var both := r => a(r) && b(r);
      KeepTwice(a, b, source.rows);
      KeepOne(both, source.rows, row);
      forall j: nat ensures LeadsToRow(source, f, d, name, j) <==> j < |source.rows| && both(source.rows[j]) {
        assert j < |source.rows| ==> (bound == [source.rows[j].fingerprint] <==> source.rows[j].fingerprint == bound[0]);
      }
    } else {
      forall j: nat ensures !LeadsToRow(source, f, d, name, j) {}
    }
  }

  lemma {:induction false} HopsMean(source: Source, f: Frame, d: Definition, names: seq<string>, row: Row)
    requires forall i, j | 0 <= i < j < |names| :: names[i] != names[j]
    ensures var hops := Hops(names, d, Keep(InFunction(f.function_), source.rows));
      (hops == [row] <==> OnlyAmong(source, f, d, names, row)) && (hops == [] <==> NoneAmong(source, f, d, names))
  {
    hide LeadsToRow, Hop, Bindings;
    if names != [] {
      var init, last := names[..|names| - 1], names[|names| - 1];
      var candidates := Keep(InFunction(f.function_), source.rows);
      HopsMean(source, f, d, init, row);
      HopOne(source, f, d, last, row);
      AmongStep(source, f, d, names, row);
      SingleRowOfTwo(Hops(init, d, candidates), Hop(Bindings(d.assigns, last), candidates), row);
    }
  }

  lemma SingleRowOfTwo(a: seq<Row>, b: seq<Row>, x: Row)
    ensures a + b == [x] <==> (a == [x] && b == []) || (a == [] && b == [x])
    ensures a + b == [] <==> a == [] && b == []
  {
    if a + b == [x] { assert |a| + |b| == 1; }
  }

  lemma AmongStep(source: Source, f: Frame, d: Definition, names: seq<string>, row: Row)
    requires names != [] && forall i, j | 0 <= i < j < |names| :: names[i] != names[j]
    ensures var init, last := names[..|names| - 1], names[|names| - 1];
      (NoneAmong(source, f, d, names) <==> NoneAmong(source, f, d, init) && LeadsNowhere(source, f, d, last)) &&
      (OnlyAmong(source, f, d, names, row) <==>
        (OnlyAmong(source, f, d, init, row) && LeadsNowhere(source, f, d, last)) ||
        (NoneAmong(source, f, d, init) && LeadsAlone(source, f, d, last, row)))
  {
    hide LeadsToRow;
    var init, last := names[..|names| - 1], names[|names| - 1];
    assert names == init + [last];
    assert last !in init;
    if OnlyAmong(source, f, d, names, row) {
      var name, j: nat :| name in names && LeadsToRow(source, f, d, name, j) && IsRow(source, j, row) &&
        forall name', j': nat | name' in names && LeadsToRow(source, f, d, name', j') :: name' == name && j' == j;
      if name == last {
        assert LeadsAlone(source, f, d, last, row);
      } else {
        assert name in init && OnlyAmong(source, f, d, init, row);
      }
    }
    if OnlyAmong(source, f, d, init, row) && LeadsNowhere(source, f, d, last) {
      var name, j: nat :| name in init && LeadsToRow(source, f, d, name, j) && IsRow(source, j, row) &&
        forall name', j': nat | name' in init && LeadsToRow(source, f, d, name', j') :: name' == name && j' == j;
      assert name in names;
    }
    if NoneAmong(source, f, d, init) && LeadsAlone(source, f, d, last, row) {
      var j: nat :| LeadsToRow(source, f, d, last, j) && IsRow(source, j, row) && forall k: nat | LeadsToRow(source, f, d, last, k) :: k == j;
      assert last in names;
    }
  }

  lemma OnlyHopMeans(index: Index, f: Frame, row: Row)
    requires f.path in index
    ensures AliasRow(index, f, row) <==> OnlyHop(index[f.path], f, row)
  {
    hide OnTheLine, Enclosing, Surrounds, OnlyHopIn, OnFrameLine, Hops, AreNames;
    var source := index[f.path];
    OnLineMeans(index, f, row);
    if AliasRow(index, f, row) {
      var d, names :| Enclosing(source.definitions, f) == Some(d) && OneHop(index, f, d, names, row);
      var m := EnclosingIsAround(source.definitions, f);
      assert m < |source.definitions| by { AroundSurrounds(source.definitions, f, m); }
      HopIn(index, f, d, names, row);
    }
    if OnlyHop(source, f, row) {
      var m: nat :| IsAround(source.definitions, f, m) && OnlyHopIn(source, f, source.definitions[m], row);
      AroundMeans(source.definitions, f, m);
      var d := source.definitions[m];
      var names := SomeNames(d, f.line);
      HopIn(index, f, d, names, row);
      assert OneHop(index, f, d, names, row);
    }
  }

  lemma {:induction false} Listed(s: set<string>) returns (l: seq<string>)
    ensures Distinct(l) && forall x :: x in l <==> x in s
  {
    if s == {} {
      l := [];
    } else {
      var x :| x in s;
      var rest := Listed(s - {x});
      l := [x] + rest;
      forall i | 0 <= i < |rest| ensures rest[i] != x { assert rest[i] in rest; }
    }
  }

  lemma SomeNames(d: Definition, line: int) returns (names: seq<string>)
    ensures AreNames(names, d, line)
  {
    hide CalledNames, InOrder;
    var l := Listed(CalledNames(d.calls, line));
    SortedPick(CalledNames(d.calls, line), l);
    names := SortOn(Self, StringLe, l);
  }

  lemma HopIn(index: Index, f: Frame, d: Definition, names: seq<string>, row: Row)
    requires f.path in index && AreNames(names, d, f.line)
    ensures Hops(names, d, Candidates(index, f)) == [row] <==> OnlyHopIn(index[f.path], f, d, row)
  {
    hide Hops, BoundOnce, StringLe;
    var source := index[f.path];
    HopsMean(source, f, d, names, row);
    forall name ensures name in names <==> CalledOn(d, f.line, name) {
      if name in CalledNames(d.calls, f.line) { var c :| c in d.calls && c.first <= f.line <= c.last && c.name == name; }
    }
    hide InOrder, CalledNames, CalledOn;
    forall name, j: nat ensures HopsTo(source, f, d, name, j) <==> name in names && LeadsToRow(source, f, d, name, j) {}
    hide HopsTo, LeadsToRow;
    SameOnly(source, f, d, names, row);
  }

  lemma SameOnly(source: Source, f: Frame, d: Definition, names: seq<string>, row: Row)
    requires forall name, j: nat :: HopsTo(source, f, d, name, j) <==> name in names && LeadsToRow(source, f, d, name, j)
    ensures OnlyHopIn(source, f, d, row) <==> OnlyAmong(source, f, d, names, row)
  {
    hide HopsTo, LeadsToRow, IsRow;
    if OnlyHopIn(source, f, d, row) {
      var name, j: nat :| HopsTo(source, f, d, name, j) && IsRow(source, j, row) &&
        forall name', j': nat | HopsTo(source, f, d, name', j') :: name' == name && j' == j;
      assert name in names && LeadsToRow(source, f, d, name, j);
    }
    if OnlyAmong(source, f, d, names, row) {
      var name, j: nat :| name in names && LeadsToRow(source, f, d, name, j) && IsRow(source, j, row) &&
        forall name', j': nat | name' in names && LeadsToRow(source, f, d, name', j') :: name' == name && j' == j;
      assert HopsTo(source, f, d, name, j);
    }
  }

  // ----- What an outcome says -----

  /** A stack is refused for want of a frame exactly when no frame settles it. The innermost
      frame that does decides alone: a row is accepted by its fingerprint exactly when it is
      the only one of the function on the line, and by one hop exactly when no row of the
      function is on the line and one called name, bound once, leads to this row and to no other. */
  lemma OutcomeMeans(index: Index, frames: seq<Frame>, o: Outcome)
    requires Attributes(index, frames, o)
    ensures (forall k | 0 <= k < |frames| :: !Settles(index, frames[k])) ==> o == Refused(NoFrame)
    ensures forall i | 0 <= i < |frames| && Settles(index, frames[i]) && (forall k | 0 <= k < i :: !Settles(index, frames[k])) ::
      forall row ::
        (o == Accepted(row, FingerprintExact) <==> OnlyOnLine(index[frames[i].path], frames[i], row)) &&
        (o == Accepted(row, AliasSingleHop) <==> OnlyHop(index[frames[i].path], frames[i], row))
  {
    hide Settles, OnlyOnLine, OnlyHop, ExactRow, AliasRow, Decides;
    forall k | 0 <= k < |frames| ensures Decides(index, frames[k]) <==> Settles(index, frames[k]) { DecidesMeans(index, frames[k]); }
    FirstDecidingMeans(index, frames);
    forall i | 0 <= i < |frames| && Settles(index, frames[i]) && (forall k | 0 <= k < i :: !Settles(index, frames[k]))
      ensures forall row ::
        (o == Accepted(row, FingerprintExact) <==> OnlyOnLine(index[frames[i].path], frames[i], row)) &&
        (o == Accepted(row, AliasSingleHop) <==> OnlyHop(index[frames[i].path], frames[i], row))
    {
      FirstIs(index, frames, i);
      var f := frames[i];
      forall row ensures ExactRow(index, f, row) <==> OnlyOnLine(index[f.path], f, row) { OnLineMeans(index, f, row); }
      forall row ensures AliasRow(index, f, row) <==> OnlyHop(index[f.path], f, row) { OnlyHopMeans(index, f, row); }
      forall row ensures (o == Accepted(row, FingerprintExact) <==> ExactRow(index, f, row)) && (o == Accepted(row, AliasSingleHop) <==> AliasRow(index, f, row)) {
        assert o == Accepted(row, FingerprintExact) <==> ExactRow(index, f, row);
      }
    }
  }
}
