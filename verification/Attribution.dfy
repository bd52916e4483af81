/** tools/mutationAttribution.py: tying a stack to one inventory row, and merging what was observed. */
module Attribution {
  import opened Numerals
  import opened Orders
  import opened Inventory
  import opened Records

  // ----- What attribution reads -----

  datatype Frame = Frame(path: string, function_: string, line: int)

  /** `x = y = value`: the plain names on the left, and the fingerprint of the value. */
  datatype Assign = Assign(targets: seq<string>, fingerprint: string)

  datatype LocalCall = LocalCall(name: string, first: int, last: int)

  /** A function definition with what a walk of its whole subtree meets. */
  datatype Definition = Definition(name: string, first: int, last: int, assigns: seq<Assign>, calls: seq<LocalCall>)

  /** One scanned module: its rows, the fingerprints on each line, and its definitions in walk order. */
  datatype Source = Source(rows: seq<Row>, byLine: map<int, set<string>>, definitions: seq<Definition>)

  type Index = map<string, Source>

  datatype Evidence = FingerprintExact | AliasSingleHop

  datatype Reason = NoFrame | SharedExpression(count: nat) | NoDefinition | NotOneBinding(count: nat)

  datatype Outcome = Accepted(row: Row, evidence: Evidence) | Refused(reason: Reason)

  function Keep(keep: Row -> bool, rows: seq<Row>): (r: seq<Row>)
    ensures forall x :: x in r <==> x in rows && keep(x)
  {
    if rows == [] then []
    else
      assert rows == [rows[0]] + rows[1..];
      (if keep(rows[0]) then [rows[0]] else []) + Keep(keep, rows[1..])
  }

  function InFunction(name: string): Row -> bool { (r: Row) => r.function_ == name }

  function HasOneOf(fingerprints: set<string>): Row -> bool { (r: Row) => r.fingerprint in fingerprints }

  /** `dictRowsByFrame.get((path, function))` */
  function Candidates(index: Index, f: Frame): seq<Row> {
    if f.path in index then Keep(InFunction(f.function_), index[f.path].rows) else []
  }

  predicate Gateway(r: Row) { r.insideGateway == Some(true) }

  /** A frame that settles the attribution: it has candidates, and not all inside the gateway. */
  predicate Decides(index: Index, f: Frame) {
    exists r | r in Candidates(index, f) :: !Gateway(r)
  }

  function OnLine(source: Source, line: int): set<string> {
    if line in source.byLine then source.byLine[line] else {}
  }

  /** The candidates whose fingerprint stands on the frame's line. */
  function OnTheLine(index: Index, f: Frame): seq<Row>
    requires f.path in index
  {
    Keep(HasOneOf(OnLine(index[f.path], f.line)), Candidates(index, f))
  }

  // ----- One hop through a local name -----

  predicate Covers(d: Definition, f: Frame) { d.name == f.function_ && d.first <= f.line <= d.last }

  /** `max(covering, key=first line)`: the first of those that start last. */
  function Enclosing(definitions: seq<Definition>, f: Frame): (r: Option<Definition>)
    ensures r.None? <==> forall d | d in definitions :: !Covers(d, f)
    ensures r.Some? ==> r.value in definitions && Covers(r.value, f)
    ensures r.Some? ==> forall d | d in definitions && Covers(d, f) :: d.first <= r.value.first
  {
    if definitions == [] then None
    else
      assert definitions == [definitions[0]] + definitions[1..];
      var d, rest := definitions[0], Enclosing(definitions[1..], f);
      if Covers(d, f) && (rest.None? || d.first >= rest.value.first) then Some(d) else rest
  }

  /** The fingerprints bound to a name in a definition, one for each binding target. */
  function Bindings(assigns: seq<Assign>, name: string): seq<string> {
    if assigns == [] then []
    else Bindings(assigns[..|assigns| - 1], name) + Times(assigns[|assigns| - 1].targets, name, assigns[|assigns| - 1].fingerprint)
  }

  function Times(targets: seq<string>, name: string, fingerprint: string): seq<string> {
    if targets == [] then []
    else Times(targets[..|targets| - 1], name, fingerprint) + if targets[|targets| - 1] == name then [fingerprint] else []
  }

  /** The dictionary of bindings. */
  ghost predicate AreBound(bindings: map<string, seq<string>>, assigns: seq<Assign>, more: seq<string>, fingerprint: string) {
    forall name :: Bindings(assigns, name) + Times(more, name, fingerprint) == if name in bindings then bindings[name] else []
  }

  method CollectBindings(assigns: seq<Assign>) returns (bindings: map<string, seq<string>>)
    ensures AreBound(bindings, assigns, [], "")
  {
    bindings := map[];
    for i := 0 to |assigns|
      invariant AreBound(bindings, assigns[..i], [], "")
    {
      var targets, fingerprint := assigns[i].targets, assigns[i].fingerprint;
      for j := 0 to |targets|
        invariant AreBound(bindings, assigns[..i], targets[..j], fingerprint)
      {
        BindOne(bindings, assigns[..i], targets, j, fingerprint);
        var name := targets[j];
        bindings := bindings[name := (if name in bindings then bindings[name] else []) + [fingerprint]];
      }
      NextAssign(bindings, assigns, i);
    }
    assert assigns[..|assigns|] == assigns;
  }

  lemma BindOne(bindings: map<string, seq<string>>, assigns: seq<Assign>, targets: seq<string>, j: nat, fingerprint: string)
    requires j < |targets| && AreBound(bindings, assigns, targets[..j], fingerprint)
    ensures var name := targets[j];
      AreBound(bindings[name := (if name in bindings then bindings[name] else []) + [fingerprint]], assigns, targets[..j + 1], fingerprint)
  {
    hide Bindings;
    assert targets[..j + 1][..j] == targets[..j];
    var name := targets[j];
    forall n ensures Bindings(assigns, n) + Times(targets[..j + 1], n, fingerprint)
      == Bindings(assigns, n) + Times(targets[..j], n, fingerprint) + if n == name then [fingerprint] else [] {
      Associative(Bindings(assigns, n), Times(targets[..j], n, fingerprint), if n == name then [fingerprint] else []);
    }
  }

  lemma NextAssign(bindings: map<string, seq<string>>, assigns: seq<Assign>, i: nat)
    requires i < |assigns|
    requires var t := assigns[i].targets; AreBound(bindings, assigns[..i], t[..|t|], assigns[i].fingerprint)
    ensures AreBound(bindings, assigns[..i + 1], [], "")
  {
    assert assigns[..i + 1][..i] == assigns[..i];
    assert assigns[i].targets[..|assigns[i].targets|] == assigns[i].targets;
    forall n ensures Bindings(assigns[..i + 1], n) + Times([], n, "") == Bindings(assigns[..i], n) + Times(assigns[i].targets, n, assigns[i].fingerprint) {
    }
  }

  /** The bare names called on one line. */
  function CalledNames(calls: seq<LocalCall>, line: int): set<string> {
    set c | c in calls && c.first <= line <= c.last :: c.name
  }

  /** The rows each called name leads to by its only binding; a name bound twice leads nowhere. */
  function Hops(names: seq<string>, d: Definition, candidates: seq<Row>): seq<Row> {
    if names == [] then []
    else
      Hops(names[..|names| - 1], d, candidates) + Hop(Bindings(d.assigns, names[|names| - 1]), candidates)
  }

  function Hop(bound: seq<string>, candidates: seq<Row>): seq<Row> {
    if |bound| == 1 then Keep(HasOneOf({bound[0]}), candidates) else []
  }

  /** `_flistMatchAliasBindings`, for the called names in sorting order. */
  method MatchAliasBindings(d: Definition, names: seq<string>, candidates: seq<Row>) returns (matched: seq<Row>)
    ensures matched == Hops(names, d, candidates)
  {
    hide Bindings;
    var bindings := CollectBindings(d.assigns);
    matched := [];
    for i := 0 to |names|
      invariant matched == Hops(names[..i], d, candidates)
    {
      var name := names[i];
      assert names[..i + 1][..i] == names[..i];
      assert Times([], name, "") == [] && Bindings(d.assigns, name) + [] == Bindings(d.assigns, name);
      assert Bindings(d.assigns, name) + Times([], name, "") == if name in bindings then bindings[name] else [];
      var bound := if name in bindings then bindings[name] else [];
      if |bound| == 1 {
        matched := matched + Keep(HasOneOf({bound[0]}), candidates);
      }
    }
    assert names[..|names|] == names;
  }

  /** The called names of a frame's line, as a sorted list. */
  ghost predicate AreNames(names: seq<string>, d: Definition, line: int) {
    InOrder(names) && forall n :: n in names <==> n in CalledNames(d.calls, line)
  }

  // ----- Attribution -----

  /** Exactly one candidate's fingerprint is on the line. */
  predicate ExactRow(index: Index, f: Frame, row: Row)
    requires f.path in index
  {
    OnTheLine(index, f) == [row]
  }

  /** No candidate is on the line, and one called name with a single binding leads to one candidate. */
  ghost predicate AliasRow(index: Index, f: Frame, row: Row)
    requires f.path in index
  {
    OnTheLine(index, f) == [] && exists d, names :: Enclosing(index[f.path].definitions, f) == Some(d) && OneHop(index, f, d, names, row)
  }

  ghost predicate OneHop(index: Index, f: Frame, d: Definition, names: seq<string>, row: Row) {
    AreNames(names, d, f.line) && Hops(names, d, Candidates(index, f)) == [row]
  }

  /** Two sorted lists of the same names are equal. */
  lemma NamesAreDetermined(a: seq<string>, b: seq<string>, d: Definition, line: int)
    requires AreNames(a, d, line) && AreNames(b, d, line)
    ensures a == b
  {
    hide StringLe, CalledNames, Distinct;
    StringLeIsTotal();
    SameElementsSameMultiset(a, b);
    SortedIsUnique(StringLe, a, b);
  }

  lemma OneHopMeans(index: Index, f: Frame, d: Definition, names: seq<string>, hops: seq<Row>, row: Row)
    requires f.path in index && OnTheLine(index, f) == [] && Enclosing(index[f.path].definitions, f) == Some(d)
    requires AreNames(names, d, f.line) && hops == Hops(names, d, Candidates(index, f))
    requires forall other | AreNames(other, d, f.line) :: other == names
    ensures AliasRow(index, f, row) <==> hops == [row]
  {
    hide AreNames, OnTheLine, Enclosing, Candidates, Hops;
    if hops == [row] { assert OneHop(index, f, d, names, row); }
  }

  ghost predicate MatchMeaning(index: Index, f: Frame, o: Outcome)
    requires f.path in index
  {
    forall row, e :: o == Accepted(row, e) <==> (e == FingerprintExact && ExactRow(index, f, row)) || (e == AliasSingleHop && AliasRow(index, f, row))
  }

  /** Why a frame gives no row: several candidates on its line; or none, and no definition
      around it, or not one row behind the called names. */
  ghost predicate ReasonMeaning(index: Index, f: Frame, reason: Reason)
    requires f.path in index
  {
    var definition := Enclosing(index[f.path].definitions, f);
    match reason
    case NoFrame => false
    case SharedExpression(count) => |OnTheLine(index, f)| == count > 1
    case NoDefinition => OnTheLine(index, f) == [] && definition.None?
    case NotOneBinding(count) =>
      OnTheLine(index, f) == [] && definition.Some? && count != 1 &&
      exists names :: AreNames(names, definition.value, f.line) && |Hops(names, definition.value, Candidates(index, f))| == count
  }

  /** `_fdictMatchFrameToRow` with `_fdictMatchThroughLocalAlias`. */
  method MatchFrame(index: Index, f: Frame) returns (o: Outcome)
    requires f.path in index
    ensures MatchMeaning(index, f, o)
    ensures o.Refused? ==> ReasonMeaning(index, f, o.reason)
  {
    hide Candidates, OnTheLine, Hops, CalledNames, Enclosing, InOrder;
    var matched := OnTheLine(index, f);
    if |matched| == 1 {
      assert matched == [matched[0]];
      return Accepted(matched[0], FingerprintExact);
    }
    if |matched| > 1 { return Refused(SharedExpression(|matched|)); }
    var d := Enclosing(index[f.path].definitions, f);
    if d.None? { return Refused(NoDefinition); }
    var names := SortedKeys(CalledNames(d.value.calls, f.line));
    var hops := MatchAliasBindings(d.value, names, Candidates(index, f));
    forall other | AreNames(other, d.value, f.line) ensures other == names { NamesAreDetermined(other, names, d.value, f.line); }
    assert AreNames(names, d.value, f.line);
    assert forall row :: AliasRow(index, f, row) <==> hops == [row] by {
      forall row ensures AliasRow(index, f, row) <==> hops == [row] { OneHopMeans(index, f, d.value, names, hops, row); }
    }
    if |hops| == 1 {
      assert hops == [hops[0]];
      return Accepted(hops[0], AliasSingleHop);
    }
    return Refused(NotOneBinding(|hops|));
  }

  /** The first deciding frame of a stack, innermost first. */
  function FirstDeciding(index: Index, frames: seq<Frame>): (r: Option<nat>)
    ensures r.Some? ==> r.value < |frames|
  {
    if frames == [] then None
    else if Decides(index, frames[0]) then Some(0)
    else
      var rest := FirstDeciding(index, frames[1..]);
      if rest.None? then None else Some(rest.value + 1)
  }

  lemma {:induction false} FirstDecidingMeans(index: Index, frames: seq<Frame>)
    ensures var r := FirstDeciding(index, frames);
      if r.None? then forall k | 0 <= k < |frames| :: !Decides(index, frames[k])
      else Decides(index, frames[r.value]) && forall k | 0 <= k < r.value :: !Decides(index, frames[k])
  {
    hide Decides;
    if frames != [] {
      FirstDecidingMeans(index, frames[1..]);
      assert forall k | 1 <= k < |frames| :: frames[k] == frames[1..][k - 1];
    }
  }

  /** What an outcome says about a stack: an accepted row is settled by the first deciding frame alone. */
  ghost predicate Attributes(index: Index, frames: seq<Frame>, o: Outcome) {
    var first := FirstDeciding(index, frames);
    if first.None? then o == Refused(NoFrame)
    else
      frames[first.value].path in index && MatchMeaning(index, frames[first.value], o) &&
      (o.Refused? ==> ReasonMeaning(index, frames[first.value], o.reason))
  }

  /** `fdictAttributeFramesToInventoryRow` */
  method AttributeFrames(index: Index, frames: seq<Frame>) returns (o: Outcome)
    ensures Attributes(index, frames, o)
  {
    hide MatchMeaning, Gateway;
    for i := 0 to |frames|
      invariant forall k | 0 <= k < i :: !Decides(index, frames[k])
    {
      var candidates := Candidates(index, frames[i]);
      if candidates == [] { continue; }
      if forall r | r in candidates :: Gateway(r) { continue; }
      o := MatchFrame(index, frames[i]);
      FirstIs(index, frames, i);
      return;
    }
    NoneDecides(index, frames);
    return Refused(NoFrame);
  }

  lemma NoneDecides(index: Index, frames: seq<Frame>)
    requires forall k | 0 <= k < |frames| :: !Decides(index, frames[k])
    ensures FirstDeciding(index, frames).None?
  {
    hide Decides;
    FirstDecidingMeans(index, frames);
  }

  lemma FirstIs(index: Index, frames: seq<Frame>, i: nat)
    requires i < |frames| && Decides(index, frames[i]) && forall k | 0 <= k < i :: !Decides(index, frames[k])
    ensures FirstDeciding(index, frames) == Some(i)
  {
    hide Decides;
    FirstDecidingMeans(index, frames);
  }

  // ----- What an accepted row means -----

  /** Only one row can be accepted for a stack, whatever route is taken to it. */
  lemma AcceptedRowIsUnique(index: Index, frames: seq<Frame>, o: Outcome, o': Outcome)
    requires Attributes(index, frames, o) && Attributes(index, frames, o')
    ensures o.Accepted? <==> o'.Accepted?
    ensures o.Accepted? ==> o == o'
  {
    hide ExactRow, AliasRow;
    if o.Accepted? { assert o == Accepted(o.row, o.evidence); }
    if o'.Accepted? { assert o' == Accepted(o'.row, o'.evidence); }
  }

  /** An accepted row is a candidate of the first deciding frame, and no other candidate fits the evidence. */
  lemma AcceptedIsSound(index: Index, frames: seq<Frame>, row: Row, e: Evidence)
    requires Attributes(index, frames, Accepted(row, e))
    ensures FirstDeciding(index, frames).Some? && frames[FirstDeciding(index, frames).value].path in index
    ensures Sound(index, frames[FirstDeciding(index, frames).value], row, e)
  {
    var f := frames[FirstDeciding(index, frames).value];
    SoundMatch(index, f, row, e);
  }

  ghost predicate Sound(index: Index, f: Frame, row: Row, e: Evidence)
    requires f.path in index
  {
    && row in Candidates(index, f)
    && (forall r | r in Candidates(index, f) && r.fingerprint in OnLine(index[f.path], f.line) :: e.FingerprintExact? && r == row)
    && (e.AliasSingleHop? ==> exists name :: LeadsTo(index, f, name, row))
    && (e.AliasSingleHop? ==> forall name, r :: LeadsTo(index, f, name, r) ==> r == row)
  }

  /** A name called on the frame's line has one binding in the enclosing definition, and it has the row's fingerprint. */
  ghost predicate LeadsTo(index: Index, f: Frame, name: string, r: Row)
    requires f.path in index
  {
    var d := Enclosing(index[f.path].definitions, f);
    d.Some? && name in CalledNames(d.value.calls, f.line) && r in Candidates(index, f) && Bindings(d.value.assigns, name) == [r.fingerprint]
  }

  predicate SomeLeads(names: seq<string>, d: Definition, r: Row) { exists n | n in names :: Bindings(d.assigns, n) == [r.fingerprint] }

  lemma SomeLeadsStep(names: seq<string>, d: Definition, r: Row)
    requires names != []
    ensures var n := names[|names| - 1];
      SomeLeads(names, d, r) <==> SomeLeads(names[..|names| - 1], d, r) || Bindings(d.assigns, n) == [r.fingerprint]
  {
    hide Bindings;
    assert names == names[..|names| - 1] + [names[|names| - 1]];
  }

  lemma {:induction false} HopMembers(names: seq<string>, d: Definition, candidates: seq<Row>, r: Row)
    ensures r in Hops(names, d, candidates) <==> r in candidates && SomeLeads(names, d, r)
  {
    hide Bindings, Hop, SomeLeads;
    if names == [] {
      NoneLeads(d, r);
    } else {
      HopMembers(names[..|names| - 1], d, candidates, r);
      HopStep(Bindings(d.assigns, names[|names| - 1]), candidates, r);
      SomeLeadsStep(names, d, r);
    }
  }

  lemma NoneLeads(d: Definition, r: Row)
    ensures !SomeLeads([], d, r)
  {
  }

  lemma HopStep(bound: seq<string>, candidates: seq<Row>, r: Row)
    ensures r in Hop(bound, candidates) <==> r in candidates && bound == [r.fingerprint]
  {
    if |bound| == 1 {
      assert bound == [bound[0]];
      assert HasOneOf({bound[0]})(r) <==> r.fingerprint == bound[0];
    }
  }

  lemma SoundMatch(index: Index, f: Frame, row: Row, e: Evidence)
    requires f.path in index && MatchMeaning(index, f, Accepted(row, e))
    ensures Sound(index, f, row, e)
  {
    hide Candidates, OnTheLine, AliasRow, LeadsTo;
    assert Accepted(row, e) == Accepted(row, e);
    if e.FingerprintExact? {
      assert OnTheLine(index, f) == [row];
      OnLineMembers(index, f);
    } else {
      AliasIsSound(index, f, row);
      OnLineMembers(index, f);
    }
  }

  lemma OnLineMembers(index: Index, f: Frame)
    requires f.path in index
    ensures forall r :: r in OnTheLine(index, f) <==> r in Candidates(index, f) && r.fingerprint in OnLine(index[f.path], f.line)
  {
    hide Candidates, OnLine;
  }

  lemma AliasIsSound(index: Index, f: Frame, row: Row)
    requires f.path in index && AliasRow(index, f, row)
    ensures OnTheLine(index, f) == [] && row in Candidates(index, f)
    ensures (exists name :: LeadsTo(index, f, name, row)) && forall name, r :: LeadsTo(index, f, name, r) ==> r == row
  {
    hide Candidates, CalledNames, Bindings, Hops, InOrder, OnTheLine;
    var d, names :| Enclosing(index[f.path].definitions, f) == Some(d) && OneHop(index, f, d, names, row);
    HopMembers(names, d, Candidates(index, f), row);
    assert row in [row];
    var n :| n in names && Bindings(d.assigns, n) == [row.fingerprint];
    assert LeadsTo(index, f, n, row);
    forall name, r | LeadsTo(index, f, name, r) ensures r == row {
      HopMembers(names, d, Candidates(index, f), r);
      assert name in names;
    }
  }

  /** Once a frame decides, no outer frame is consulted. */
  lemma OuterFramesAreIgnored(index: Index, frames: seq<Frame>, outer: seq<Frame>, o: Outcome)
    requires FirstDeciding(index, frames).Some?
    ensures Attributes(index, frames + outer, o) <==> Attributes(index, frames, o)
  {
    hide Decides, MatchMeaning;
    var i := FirstDeciding(index, frames).value;
    FirstDecidingMeans(index, frames);
    assert (frames + outer)[i] == frames[i];
    assert forall k | 0 <= k < i :: (frames + outer)[k] == frames[k];
    FirstIs(index, frames + outer, i);
  }

  /** Frames without candidates, and frames inside the gateway, make no difference. */
  lemma {:induction false} InnerFramesAreSkipped(index: Index, inner: seq<Frame>, frames: seq<Frame>, o: Outcome)
    requires forall f | f in inner :: !Decides(index, f)
    ensures Attributes(index, inner + frames, o) <==> Attributes(index, frames, o)
  {
    hide Decides, MatchMeaning;
    var all, first := inner + frames, FirstDeciding(index, frames);
    FirstDecidingMeans(index, frames);
    if first.Some? {
      assert all[|inner| + first.value] == frames[first.value];
      FirstIs(index, all, |inner| + first.value);
    } else {
      NoneDecides(index, all);
    }
  }
}
