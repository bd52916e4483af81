/** tools/reconfirmFalsification.py: which tests the one clean run of all of them vouches for. */
module Preconditions {
  import opened Numerals
  import opened Text

  // ----- Node ids and the cases of a report -----

  datatype Case = Case(classname: string, name: string)

  /** One test case of a JUnit report; it passed when no failure, error or skip is recorded in it. */
  datatype Listed = Listed(at: Case, passed: bool)

  /** A batched run: its exit code, and its report when that can be read. */
  datatype Batch = Batch(code: int, timedOut: bool, skipped: bool, report: Option<seq<Listed>>)

  /** `text.split(sep)` */
  function SplitOn(s: string, sep: string): (r: seq<string>)
    requires sep != ""
    ensures r != []
    decreases |s|
  {
    var k := Find(s, sep);
    if k.None? then [s] else [s[..k.value]] + SplitOn(s[k.value + |sep|..], sep)
  }

  /** `text.replace("/", ".")` */
  function Dotted(s: string): (r: string)
    ensures |r| == |s| && forall i | 0 <= i < |s| :: r[i] == if s[i] == '/' then '.' else s[i]
  {
    if s == "" then "" else [if s[0] == '/' then '.' else s[0]] + Dotted(s[1..])
  }

  /** `_ftJunitCaseOfNodeId`: the module's suffix goes, and the last part is the name. */
  function CaseOf(nodeId: string): Case {
    var parts := SplitOn(nodeId, "::");
    var file := parts[0];
    var stem := if |file| < 3 then "" else file[..|file| - 3];
    Case(Join(".", [Dotted(stem)] + if |parts| < 2 then [] else parts[1..|parts| - 1]), parts[|parts| - 1])
  }

  /** The dictionary of cases; a later id takes the place of an earlier one with the same case. */
  function ByCase(ids: seq<string>): map<Case, string> {
    if ids == [] then map[] else ByCase(ids[..|ids| - 1])[CaseOf(ids[|ids| - 1]) := ids[|ids| - 1]]
  }

  lemma {:induction false} ByCaseMeans(ids: seq<string>)
    ensures forall c | c in ByCase(ids) :: ByCase(ids)[c] in ids && CaseOf(ByCase(ids)[c]) == c
    ensures forall id | id in ids :: CaseOf(id) in ByCase(ids)
  {
    hide CaseOf;
    if ids != [] {
      ByCaseMeans(ids[..|ids| - 1]);
      assert ids == ids[..|ids| - 1] + [ids[|ids| - 1]];
    }
  }

  // ----- Suspects -----

  /** The report shows a test that was not asked for and did not pass. */
  predicate NamesStranger(listed: seq<Listed>, byCase: map<Case, string>) {
    exists l | l in listed :: !l.passed && l.at !in byCase
  }

  /** The requested tests the report shows failing, erring or skipped; none when it cannot say which. */
  function Unpassed(report: Option<seq<Listed>>, ids: seq<string>): set<string> {
    if report.None? || NamesStranger(report.value, ByCase(ids)) then {}
    else set l | l in report.value && !l.passed && l.at in ByCase(ids) :: ByCase(ids)[l.at]
  }

  predicate CleanExit(b: Batch) { b.code == 0 && !b.timedOut && !b.skipped }

  function Suspects(ids: seq<string>, b: Batch): set<string> {
    if CleanExit(b) then {}
    else
      var unpassed := Unpassed(b.report, ids);
      if unpassed == {} then set id | id in ids else unpassed
  }

  /** Nobody is suspected after a run that ended in time with code 0 and skipped nothing, and only then. */
  lemma NoSuspectsExactly(ids: seq<string>, b: Batch)
    requires ids != []
    ensures Suspects(ids, b) == {} <==> b.code == 0 && b.timedOut == false && b.skipped == false
  {
    hide Unpassed;
    var all := set id | id in ids;
    assert ids[0] in all;
  }

  /** `_fsetReadUnpassedNodeIds` */
  method ReadUnpassed(report: Option<seq<Listed>>, ids: seq<string>) returns (unpassed: set<string>)
    ensures unpassed == Unpassed(report, ids)
  {
    hide CaseOf;
    var byCase: map<Case, string> := map[];
    for i := 0 to |ids|
      invariant byCase == ByCase(ids[..i])
    {
      assert ids[..i + 1][..i] == ids[..i];
      byCase := byCase[CaseOf(ids[i]) := ids[i]];
    }
    assert ids[..|ids|] == ids;
    if report.None? { return {}; }
    var listed := report.value;
    unpassed := {};
    for i := 0 to |listed|
      invariant !NamesStranger(listed[..i], byCase)
      invariant unpassed == set l | l in listed[..i] && !l.passed && l.at in byCase :: byCase[l.at]
    {
      var l := listed[i];
      assert listed[..i + 1] == listed[..i] + [l];
      if l.passed { continue; }
      if l.at !in byCase {
        assert l in listed;
        return {};
      }
      unpassed := unpassed + {byCase[l.at]};
    }
    assert listed[..|listed|] == listed;
  }

  /** `_fsetSelectPreconditionSuspects`, given what the batched run did. */
  method SelectSuspects(ids: seq<string>, b: Batch) returns (suspects: set<string>)
    ensures suspects == Suspects(ids, b)
  {
    hide Unpassed;
    if CleanExit(b) { return {}; }
    suspects := ReadUnpassed(b.report, ids);
    if suspects == {} { suspects := set id | id in ids; }
  }

  // ----- What being no suspect is worth -----

  /** The report's case is one of the id's: its own, or, when the test is parametrised and
      the id names no parameters, the one for some parameters in brackets. */
  predicate Belongs(c: Case, id: string) {
    c.classname == CaseOf(id).classname && (c.name == CaseOf(id).name || StartsWith(c.name, CaseOf(id).name + "["))
  }

  predicate Names(b: Batch, id: string) { b.report.Some? && exists l | l in b.report.value :: Belongs(l.at, id) }

  /** The batch showed the test passing: it ended well as a whole, which pytest does only
      when every test it was asked for passed or was skipped, or its report lists the
      test, with no failure, error or skip in any of its cases. */
  predicate ShownPassing(b: Batch, id: string) {
    CleanExit(b) || (Names(b, id) && forall l | l in b.report.value && Belongs(l.at, id) :: l.passed)
  }

  /** No other requested test has a case of this one in the report. */
  predicate OwnCase(ids: seq<string>, id: string) { forall other | other in ids && Belongs(CaseOf(other), id) :: other == id }

  /** A test that is no suspect was shown passing exactly when the batch ended well or its
      report lists the test at all: tests an aborted batch never reached are vouched for. */
  lemma VouchedForExactly(ids: seq<string>, b: Batch, id: string)
    requires id in ids && id !in Suspects(ids, b) && OwnCase(ids, id)
    ensures ShownPassing(b, id) <==> CleanExit(b) || Names(b, id)
  {
    hide CaseOf, Unpassed;
    if !CleanExit(b) && Names(b, id) {
      forall l | l in b.report.value && Belongs(l.at, id) ensures l.passed { CasePassed(ids, b, id, l); }
    }
  }

  lemma CasePassed(ids: seq<string>, b: Batch, id: string, l: Listed)
    requires id in ids && id !in Suspects(ids, b) && OwnCase(ids, id)
    requires !CleanExit(b) && b.report.Some? && l in b.report.value && Belongs(l.at, id)
    ensures l.passed
  {
    hide CaseOf, Belongs;
    ByCaseMeans(ids);
    if l.at in ByCase(ids) {
      assert ByCase(ids)[l.at] == id;
      PassedOrSuspect(ids, b, l);
    } else if !l.passed {
      FailureOutsideSuspectsAll(ids, b, l);
    }
  }

  /** A failing case that is no requested id's own, as one with brackets, makes every test a suspect. */
  lemma FailureOutsideSuspectsAll(ids: seq<string>, b: Batch, l: Listed)
    requires !CleanExit(b) && b.report.Some? && l in b.report.value && !l.passed && l.at !in ByCase(ids)
    ensures Suspects(ids, b) == set id | id in ids
  {
    assert NamesStranger(b.report.value, ByCase(ids));
  }

  lemma PassedOrSuspect(ids: seq<string>, b: Batch, l: Listed)
    requires !CleanExit(b) && b.report.Some? && l in b.report.value && l.at in ByCase(ids)
    requires Suspects(ids, b) != set id | id in ids
    ensures l.passed || ByCase(ids)[l.at] in Suspects(ids, b)
  {
  }

  /** Without cases of their own, a failure is charged to the wrong test: of two ids with
      one case the later is checked again, and the earlier is vouched for. */
  lemma SharedCaseIsVouchedFor(x: string, y: string, b: Batch)
    requires x != y && CaseOf(x) == CaseOf(y)
    requires b.code != 0 && b.report == Some([Listed(CaseOf(x), false)])
    ensures Suspects([x, y], b) == {y} && !ShownPassing(b, x)
  {
    hide CaseOf;
    var ids := [x, y];
    assert ids[..1] == [x] && [x][..0] == [];
    assert ByCase([x]) == map[CaseOf(x) := x];
    assert ByCase(ids) == map[CaseOf(x) := y];
    assert Belongs(CaseOf(x), x);
    var l := Listed(CaseOf(x), false);
    assert l in [l] && forall k | k in [l] :: k == l;
    assert !NamesStranger([l], ByCase(ids));
    assert ByCase(ids)[l.at] in Unpassed(b.report, ids);
    assert Unpassed(b.report, ids) == {y};
  }

  lemma SplitAt(a: string, b: string)
    requires forall i | 0 <= i < |a| :: a[i] != ':'
    ensures SplitOn(a + "::" + b, "::") == [a] + SplitOn(b, "::")
    ensures SplitOn(a, "::") == [a]
  {
    var s := a + "::" + b;
    forall j | 0 <= j < |a| ensures !StartsWith(s[j..], "::") { assert s[j..][0] == a[j]; }
    assert s[|a|..] == "::" + b;
    FindIs(s, "::", |a|);
    assert s[|a| + 2..] == b && s[..|a|] == a;
    forall j | 0 <= j <= |a| ensures !StartsWith(a[j..], "::") {
      if j < |a| { assert a[j..][0] == a[j]; }
    }
  }

  predicate Without(s: string, c: char) { forall i | 0 <= i < |s| :: s[i] != c }

  lemma DottedPath(stem: string, name: string)
    requires Without(name, '/')
    ensures Dotted(stem + "/" + name) == Dotted(stem) + "." + name
  {
  }

  lemma CaseOfFunction(stem: string, name: string)
    requires Without(stem, ':') && Without(name, ':')
    ensures CaseOf(stem + ".py" + "::" + name) == Case(Dotted(stem), name)
  {
    hide Dotted, Find, SplitOn;
    SplitAt(stem + ".py", name);
    SplitAt(name, "");
    assert (stem + ".py")[..|stem|] == stem;
    assert [Dotted(stem)] + [] == [Dotted(stem)];
  }

  lemma JoinTwo(a: string, b: string)
    ensures Join(".", [a] + [b]) == a + "." + b
  {
    assert ([a] + [b])[1..] == [b];
  }

  lemma CaseOfMethod(stem: string, class_: string, name: string)
    requires Without(stem, ':') && Without(class_, ':') && Without(name, ':')
    ensures CaseOf(stem + ".py" + "::" + (class_ + "::" + name)) == Case(Dotted(stem) + "." + class_, name)
  {
    hide Dotted, Find, SplitOn;
    SplitAt(stem + ".py", class_ + "::" + name);
    SplitAt(class_, name);
    SplitAt(name, "");
    assert (stem + ".py")[..|stem|] == stem;
    var parts := [stem + ".py"] + ([class_] + [name]);
    assert parts == [stem + ".py", class_, name] && parts[1..2] == [class_];
    JoinTwo(Dotted(stem), class_);
  }

  /** A method of a class in one file has the case of the function of that name in the
      file the class would be, were it a module: the ids differ, the cases do not. */
  lemma ClassAndFileCollide(stem: string, class_: string, name: string)
    requires Without(stem, ':') && Without(class_, ':') && Without(class_, '/') && Without(name, ':')
    ensures CaseOf(stem + ".py" + "::" + (class_ + "::" + name)) == CaseOf((stem + "/" + class_) + ".py" + "::" + name)
    ensures stem + ".py" + "::" + (class_ + "::" + name) != (stem + "/" + class_) + ".py" + "::" + name
  {
    hide CaseOf, Dotted;
    CaseOfMethod(stem, class_, name);
    CaseOfFunction(stem + "/" + class_, name);
    DottedPath(stem, class_);
    assert (stem + ".py" + "::" + (class_ + "::" + name))[|stem|] == '.';
    assert ((stem + "/" + class_) + ".py" + "::" + name)[|stem|] == '/';
  }
}
