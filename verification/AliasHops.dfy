/** Attribution through called names: what it takes for the only row they lead to
    to be accepted. */
module AliasHops {
  import opened Numerals
  import opened Orders
  import opened Inventory
  import opened Records
  import opened Attribution

  /** How many of the names lead to the row. */
  function Leading(names: seq<string>, d: Definition, row: Row): nat {
    if names == [] then 0
    else Leading(names[..|names| - 1], d, row) + if Bindings(d.assigns, names[|names| - 1]) == [row.fingerprint] then 1 else 0
  }

  lemma {:induction false} KeepCounts(keep: Row -> bool, rows: seq<Row>, row: Row)
    ensures multiset(Keep(keep, rows))[row] == if keep(row) then multiset(rows)[row] else 0
  {
    if rows != [] {
      KeepCounts(keep, rows[1..], row);
      assert rows == [rows[0]] + rows[1..];
    }
  }

  lemma HopCounts(bound: seq<string>, candidates: seq<Row>, row: Row)
    ensures multiset(Hop(bound, candidates))[row] == if bound == [row.fingerprint] then multiset(candidates)[row] else 0
  {
    if |bound| == 1 {
      KeepCounts(HasOneOf({bound[0]}), candidates, row);
      assert bound == [bound[0]];
    }
  }

  /** Each leading name adds the row once more. */
  lemma {:induction false} HopsCount(names: seq<string>, d: Definition, candidates: seq<Row>, row: Row)
    requires multiset(candidates)[row] == 1
    ensures multiset(Hops(names, d, candidates))[row] == Leading(names, d, row)
  {
    hide Bindings, Hop;
    if names != [] {
      HopsCount(names[..|names| - 1], d, candidates, row);
      HopCounts(Bindings(d.assigns, names[|names| - 1]), candidates, row);
    }
  }

  predicate Leads(d: Definition, name: string, row: Row) { Bindings(d.assigns, name) == [row.fingerprint] }

  ghost predicate AtMostOneLeads(names: seq<string>, d: Definition, row: Row) {
    forall n, m | n in names && m in names && Leads(d, n, row) && Leads(d, m, row) :: n == m
  }

  lemma {:induction false} LeadingMeans(names: seq<string>, d: Definition, row: Row)
    requires Distinct(names)
    ensures Leading(names, d, row) == 0 <==> forall n | n in names :: !Leads(d, n, row)
    ensures Leading(names, d, row) <= 1 <==> AtMostOneLeads(names, d, row)
  {
    hide Bindings;
    if names != [] {
      var init, last := names[..|names| - 1], names[|names| - 1];
      assert names == init + [last];
      assert last !in init by { assert forall i | 0 <= i < |init| :: names[i] == init[i]; }
      LeadingMeans(init, d, row);
      assert forall n :: n in names <==> n in init || n == last;
    }
  }

  lemma {:induction false} AllTheSame(rows: seq<Row>, row: Row)
    requires forall r | r in rows :: r == row
    ensures multiset(rows)[row] == |rows|
  {
    if rows != [] {
      assert rows == [rows[0]] + rows[1..] && rows[0] in rows;
      assert forall r | r in rows[1..] :: r in rows;
      AllTheSame(rows[1..], row);
    }
  }

  /** The only row the called names can stand for, whichever of them is followed. */
  ghost predicate OnlyPossible(index: Index, f: Frame, row: Row)
    requires f.path in index
  {
    (exists name :: LeadsTo(index, f, name, row)) && forall name, r :: LeadsTo(index, f, name, r) ==> r == row
  }

  /** Where only one row is possible, it is accepted exactly when a single called name
      leads to it: a second name for the same expression turns it into a refusal. */
  lemma PossibleRowAcceptedExactly(index: Index, f: Frame, d: Definition, names: seq<string>, row: Row)
    requires f.path in index && OnTheLine(index, f) == [] && Enclosing(index[f.path].definitions, f) == Some(d)
    requires AreNames(names, d, f.line) && multiset(Candidates(index, f))[row] == 1
    requires OnlyPossible(index, f, row)
    ensures AliasRow(index, f, row) <==> forall n, m :: LeadsTo(index, f, n, row) && LeadsTo(index, f, m, row) ==> n == m
  {
    hide Candidates, OnTheLine, Hops, CalledNames, Enclosing, SortedOn, Bindings;
    var rows := Candidates(index, f);
    var hops := Hops(names, d, rows);
    forall r | r in hops ensures r == row { HopMembers(names, d, rows, r); LedTo(index, f, d, names, r); }
    AllTheSame(hops, row);
    HopsCount(names, d, rows, row);
    LeadingMeans(names, d, row);
    assert row in rows;
    forall n ensures LeadsTo(index, f, n, row) <==> n in names && Leads(d, n, row) {}
    forall other | AreNames(other, d, f.line) ensures other == names { NamesAreDetermined(other, names, d, f.line); }
    OneHopMeans(index, f, d, names, hops, row);
    if |hops| == 1 { assert hops[0] in hops; assert hops == [row]; }
  }

  lemma LedTo(index: Index, f: Frame, d: Definition, names: seq<string>, r: Row)
    requires f.path in index && Enclosing(index[f.path].definitions, f) == Some(d) && AreNames(names, d, f.line)
    requires r in Candidates(index, f) && SomeLeads(names, d, r)
    ensures exists name :: LeadsTo(index, f, name, r)
  {
    hide Candidates, CalledNames, Enclosing, InOrder, Bindings;
    var n :| n in names && Bindings(d.assigns, n) == [r.fingerprint];
    assert LeadsTo(index, f, n, r);
  }

  // ----- Two names for one expression -----

  const SITE := Row("m.py", "f", "run", "passed-callable", 1, "ab", None, None, None, map[])
  const DEFINITION := Definition("f", 1, 9, [Assign(["first"], "ab"), Assign(["second"], "ab")],
                                 [LocalCall("first", 5, 5), LocalCall("second", 5, 5)])

  /** `first = connection.run`, `second = connection.run`, then `first() or second()` on one line. */
  const MODULE := map["m.py" := Source([SITE], map[], [DEFINITION])]
  const LINE := Frame("m.py", "f", 5)

  lemma ExampleBindings(name: string)
    ensures Bindings(DEFINITION.assigns, name) == if name == "first" || name == "second" then ["ab"] else []
  {
    var assigns := DEFINITION.assigns;
    assert assigns[..1][..0] == [] && assigns[..1][0] == assigns[0];
    assert Times(["first"][..0], name, "ab") == [] && Times(["second"][..0], name, "ab") == [];
    assert Times(["first"], name, "ab") == if name == "first" then ["ab"] else [];
    assert Times(["second"], name, "ab") == if name == "second" then ["ab"] else [];
    assert Bindings(assigns[..1], name) == Bindings(assigns[..1][..0], name) + Times(["first"], name, "ab");
    assert Bindings(assigns, name) == Bindings(assigns[..1], name) + Times(["second"], name, "ab");
  }

  lemma KeepOne(keep: Row -> bool, r: Row)
    ensures Keep(keep, [r]) == if keep(r) then [r] else []
  {
    assert [r][1..] == [];
  }

  lemma ExampleCandidates()
    ensures Candidates(MODULE, LINE) == [SITE] && OnTheLine(MODULE, LINE) == []
    ensures Enclosing(MODULE["m.py"].definitions, LINE) == Some(DEFINITION)
  {
    KeepOne(InFunction("f"), SITE);
    KeepOne(HasOneOf({}), SITE);
    assert OnLine(MODULE["m.py"], 5) == {} && [DEFINITION][1..] == [];
    assert Covers(DEFINITION, LINE);
    assert [DEFINITION] == [[DEFINITION][0]] + [];
  }

  lemma ExampleLeads(name: string, r: Row)
    ensures LeadsTo(MODULE, LINE, name, r) <==> r == SITE && (name == "first" || name == "second")
  {
    hide Candidates, Enclosing, Bindings;
    ExampleCandidates();
    ExampleBindings(name);
    var calls := DEFINITION.calls;
    assert calls[0] in calls && calls[1] in calls;
    assert forall n :: n in CalledNames(calls, 5) <==> n == "first" || n == "second" by {
      assert forall c | c in calls :: c == calls[0] || c == calls[1];
    }
  }

  lemma OnePossibleSite()
    ensures OnlyPossible(MODULE, LINE, SITE)
    ensures LeadsTo(MODULE, LINE, "first", SITE) && LeadsTo(MODULE, LINE, "second", SITE)
  {
    hide LeadsTo;
    forall n, r ensures LeadsTo(MODULE, LINE, n, r) <==> r == SITE && (n == "first" || n == "second") { ExampleLeads(n, r); }
    assert LeadsTo(MODULE, LINE, "first", SITE);
  }

  /** Both names stand for the one recorded site, and the observation is refused. */
  lemma TwoNamesAreRefused(o: Outcome)
    requires MatchMeaning(MODULE, LINE, o)
    ensures OnlyPossible(MODULE, LINE, SITE) && o.Refused?
  {
    hide OnlyPossible, ExactRow, AliasRow;
    OnePossibleSite();
    if o.Accepted? {
      assert o == Accepted(o.row, o.evidence);
      NotOnTheLine(o.row);
      NotAnAlias(o.row);
    }
  }

  lemma NotOnTheLine(row: Row)
    ensures !ExactRow(MODULE, LINE, row)
  {
    ExampleCandidates();
  }

  lemma NotAnAlias(row: Row)
    ensures !AliasRow(MODULE, LINE, row)
  {
    hide LeadsTo, AreNames, Hops, Candidates, OnTheLine, Enclosing;
    if AliasRow(MODULE, LINE, row) {
      var d, names :| Enclosing(MODULE["m.py"].definitions, LINE) == Some(d) && OneHop(MODULE, LINE, d, names, row);
      ExampleCandidates();
      OnePossibleSite();
      AliasIsSound(MODULE, LINE, row);
      assert row == SITE && "first" != "second";
      PossibleRowAcceptedExactly(MODULE, LINE, DEFINITION, names, SITE);
    }
  }
}
