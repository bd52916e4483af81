/** When a name that is read as an argument vector was bound to that vector alone. */
module ListReadings {
  import opened PythonTree
  import opened ScopeModel
  import opened LexicalScopes
  import opened ScopeTheorems
  import opened LambdaScopes
  import opened NameBinders
  import opened CallSites

  // ----- The targets a display is assigned to -----

  function NamePlaces(ls: seq<Located>): seq<Located> {
    if ls == [] then [] else (if ls[0].node.kind.Name? then [ls[0]] else []) + NamePlaces(ls[1..])
  }

  predicate AssignsDisplay(n: Node) { n.kind.Assign? && AssignedValue(n).kind.Sequence? }

  function PlainTargets(a: Located): seq<Located>
    requires a.node.kind.Assign?
  {
    NamePlaces(Kids(a)[..if a.node.kind.targets <= |a.node.children| then a.node.kind.targets else |a.node.children|])
  }

  /** The plain targets of the display assignments, in the order of `ListEvents`. */
  function DisplayTargets(own: seq<Located>): seq<Located> {
    if own == [] then []
    else (if AssignsDisplay(own[0].node) then PlainTargets(own[0]) else []) + DisplayTargets(own[1..])
  }

  ghost predicate Aligned(places: seq<Located>, es: seq<Event>) {
    |places| == |es| &&
    forall i | 0 <= i < |es| :: places[i].node.kind.Name? && places[i].node.kind.id == es[i].name
  }

  lemma {:induction false} NamesAlign(ls: seq<Located>, ns: seq<Node>, value: Node)
    requires |ls| == |ns| && forall i | 0 <= i < |ls| :: ls[i].node == ns[i]
    ensures Aligned(NamePlaces(ls), EventsFor(NamesOf(ns), value))
  {
    if ls != [] {
      NamesAlign(ls[1..], ns[1..], value);
      if ns[0].kind.Name? {
        assert ([ns[0].kind.id] + NamesOf(ns[1..]))[1..] == NamesOf(ns[1..]);
      } else {
        assert [] + NamesOf(ns[1..]) == NamesOf(ns[1..]);
      }
    }
  }

  lemma {:induction false} TargetsAlign(own: seq<Located>)
    ensures Aligned(DisplayTargets(own), ListEvents(own))
  {
    if own != [] {
      TargetsAlign(own[1..]);
      var a := own[0];
      if AssignsDisplay(a.node) {
        var k := if a.node.kind.targets <= |a.node.children| then a.node.kind.targets else |a.node.children|;
        NamesAlign(Kids(a)[..k], a.node.children[..k], AssignedValue(a.node));
      }
    }
  }

  lemma {:induction false} NamePlacesWithin(ls: seq<Located>)
    requires DistinctPaths(ls)
    ensures DistinctPaths(NamePlaces(ls))
    ensures forall x | x in NamePlaces(ls) :: x in ls && x.node.kind.Name?
  {
    if ls != [] {
      NamePlacesWithin(ls[1..]);
      var rest := NamePlaces(ls[1..]);
      forall i | 0 <= i < |rest| ensures rest[i].path != ls[0].path { assert rest[i] in ls[1..]; }
    }
  }

  lemma PlainTargetsAreKids(a: Located)
    requires a.node.kind.Assign?
    ensures DistinctPaths(PlainTargets(a))
    ensures forall x | x in PlainTargets(a) :: x in Kids(a) && x.node.kind.Name?
  {
    var k := if a.node.kind.targets <= |a.node.children| then a.node.kind.targets else |a.node.children|;
    forall i, j | 0 <= i < j < k ensures Kids(a)[i].path != Kids(a)[j].path {
      assert Kids(a)[i].path[|a.path|] == i && Kids(a)[j].path[|a.path|] == j;
    }
    NamePlacesWithin(Kids(a)[..k]);
  }

  /** `x` is a plain target of a display assignment listed in `own`. */
  ghost predicate TargetIn(own: seq<Located>, x: Located) {
    x.node.kind.Name? && exists a :: a in own && a.node.kind.Assign? && x in PlainTargets(a)
  }

  lemma {:induction false} DisplayTargetsWithin(own: seq<Located>)
    requires DistinctPaths(own)
    ensures DistinctPaths(DisplayTargets(own))
    ensures forall x | x in DisplayTargets(own) :: TargetIn(own, x)
  {
    if own != [] {
      var a, rest := own[0], DisplayTargets(own[1..]);
      DisplayTargetsWithin(own[1..]);
      forall x | x in rest ensures TargetIn(own, x) {
        var b :| b in own[1..] && b.node.kind.Assign? && x in PlainTargets(b);
      }
      if AssignsDisplay(a.node) {
        PlainTargetsAreKids(a);
        forall i, j | 0 <= i < |PlainTargets(a)| && 0 <= j < |rest| ensures PlainTargets(a)[i].path != rest[j].path {
          assert rest[j] in rest;
          var b :| b in own[1..] && b.node.kind.Assign? && rest[j] in PlainTargets(b);
          PlainTargetsAreKids(b);
          TargetsOfDifferent(a, b, PlainTargets(a)[i], rest[j]);
        }
      }
    }
  }

  lemma {:induction false} NamePlacesAmong(ls: seq<Located>, t: Located)
    requires t in NamePlaces(ls)
    ensures t in ls
  {
    if t in NamePlaces(ls[1..]) { NamePlacesAmong(ls[1..], t); }
  }

  lemma TargetIsKid(a: Located, t: Located)
    requires a.node.kind.Assign? && t in PlainTargets(a)
    ensures exists k :: 0 <= k < |a.node.children| && k < a.node.kind.targets && Kids(a)[k] == t
  {
    var n := if a.node.kind.targets <= |a.node.children| then a.node.kind.targets else |a.node.children|;
    NamePlacesAmong(Kids(a)[..n], t);
    var k :| 0 <= k < n && Kids(a)[..n][k] == t;
    assert Kids(a)[k] == t;
  }

  lemma TargetsOfDifferent(a: Located, b: Located, x: Located, y: Located)
    requires x in Kids(a) && y in Kids(b) && a.path != b.path
    ensures x.path != y.path
  {
    assert x.path[..|x.path| - 1] == a.path && y.path[..|y.path| - 1] == b.path;
  }

  // ----- A target is itself a node of the scope -----

  lemma TargetsAreOwn(l: Located, x: Located)
    requires x in DisplayTargets(OwnNodes(Region(l)))
    ensures x in OwnNodes(Region(l))
  {
    hide Region, OwnNodes, DisplayTargets;
    var own := OwnNodes(Region(l));
    OwnOnce(l);
    DisplayTargetsWithin(own);
    var a :| a in own && a.node.kind.Assign? && x in PlainTargets(a);
    PlainTargetsAreKids(a);
    KidsOfOwn(l, a, x);
  }

  lemma {:induction false} OwnDistinct(ls: seq<Located>)
    requires DistinctPaths(ls)
    ensures DistinctPaths(OwnNodes(ls))
  {
    if ls != [] {
      OwnDistinct(ls[1..]);
      FilterMembers(ls[1..]);
      var rest := OwnNodes(ls[1..]);
      forall i | 0 <= i < |rest| ensures rest[i].path != ls[0].path { assert rest[i] in ls[1..]; }
    }
  }

  lemma OwnOnce(l: Located)
    ensures DistinctPaths(OwnNodes(Region(l)))
  {
    RegionOnce(l);
    OwnDistinct(Region(l));
  }

  // ----- What the reading is worth -----

  /** Of all nodes of the scope, nested definitions and classes included, only `t` binds
      the name, and it is no parameter. */
  ghost predicate OnlyBinder(l: Located, name: string, t: Located) {
    name !in Parameters(l.node.kind) && t in Binders(l) && name in BoundBy(t.node) &&
    forall x | x in Binders(l) && name in BoundBy(x.node) :: x == t
  }

  /** What the source promises of a name it resolves: the vector read is what its
      only binding in the scope assigns. */
  ghost predicate ReadsOnlyBinding(l: Located, name: string) {
    var own := OwnNodes(Region(l));
    name in ListLiterals(own) ==>
      exists i :: 0 <= i < |ListEvents(own)| && i < |DisplayTargets(own)| &&
        ListEvents(own)[i] == Event(name, ListLiterals(own)[name]) && OnlyBinder(l, name, DisplayTargets(own)[i])
  }

  /** The nodes of the scope that are no target of a display assignment. */
  function Elsewhere(own: seq<Located>, targets: seq<Located>): seq<Located> {
    if own == [] then []
    else (if own[0] in targets then [] else [own[0]]) + Elsewhere(own[1..], targets)
  }

  lemma {:induction false} ElsewhereMembers(own: seq<Located>, targets: seq<Located>)
    ensures forall x :: x in Elsewhere(own, targets) <==> x in own && x !in targets
  {
    if own != [] {
      ElsewhereMembers(own[1..], targets);
      assert own == [own[0]] + own[1..];
    }
  }

  lemma ResolvedEvent(own: seq<Located>, name: string) returns (i: nat)
    requires name in ListLiterals(own)
    ensures i < |ListEvents(own)| && ListEvents(own)[i] == Event(name, ListLiterals(own)[name])
    ensures forall j | 0 <= j < |ListEvents(own)| && ListEvents(own)[j].name == name :: j == i
  {
    ListLiteralsMeaning(own, name, ListLiterals(own)[name]);
    var es := ListEvents(own);
    i :| 0 <= i < |es| && es[i] == Event(name, ListLiterals(own)[name]) &&
         (forall j | 0 <= j < |es| && es[j].name == name :: j == i);
  }

  lemma DisplayTargetBinds(l: Located, i: nat)
    requires Grammatical(l) && i < |DisplayTargets(OwnNodes(Region(l)))|
    ensures i < |ListEvents(OwnNodes(Region(l)))|
    ensures DisplayTargets(OwnNodes(Region(l)))[i] in Binders(l)
    ensures BoundBy(DisplayTargets(OwnNodes(Region(l)))[i].node) == {ListEvents(OwnNodes(Region(l)))[i].name}
  {
    hide DisplayTargets, ListEvents, Region, PlainTargets, IsHeld;
    var own := OwnNodes(Region(l));
    var t := DisplayTargets(own)[i];
    TargetsAlign(own);
    assert t in DisplayTargets(own);
    TargetsAreOwn(l, t);
    FilterMembers(Region(l));
    BinderIsNode(l, t);
    OwnOnce(l);
    DisplayTargetsWithin(own);
    var a :| a in own && a.node.kind.Assign? && t in PlainTargets(a);
    TargetIsKid(a, t);
    var k :| 0 <= k < |a.node.children| && k < a.node.kind.targets && Kids(a)[k] == t;
    KidNotHeld(l, a, k);
  }

  /** The promise is kept for a name exactly when it is not resolved, or when nothing else
      binds it in the scope: no parameter, no other store or deletion outside a comprehension,
      no import, nested definition or class, except handler or match pattern. */
  lemma ReadingIsOnlyBinding(l: Located, name: string)
    requires Grammatical(l)
    ensures var own := OwnNodes(Region(l));
      ReadsOnlyBinding(l, name) <==>
      (name in ListLiterals(own) ==>
        name !in Parameters(l.node.kind) + BoundIn(Elsewhere(Binders(l), DisplayTargets(own))))
  {
    hide DisplayTargets, ListEvents, Region, Binders, Grammatical, ListLiterals, Elsewhere, BoundIn, BoundBy, Parameters;
    var own := OwnNodes(Region(l));
    var targets := DisplayTargets(own);
    BoundInMeans(Elsewhere(Binders(l), targets), name);
    ElsewhereMembers(Binders(l), targets);
    if name in ListLiterals(own) {
      TargetsAlign(own);
      var i := ResolvedEvent(own, name);
      DisplayTargetBinds(l, i);
      if name !in BoundIn(Elsewhere(Binders(l), targets)) {
        forall x | x in Binders(l) && name in BoundBy(x.node) ensures x == targets[i] {
          assert x in targets;
          var j :| 0 <= j < |targets| && targets[j] == x;
          DisplayTargetBinds(l, j);
        }
      }
    }
  }

  // ----- A rebound name that is still read -----

  predicate AssignsNothing(n: Node) { !n.kind.Assign? }

  /** No assignment anywhere in the node. */
  predicate Quiet(n: Node) { Throughout(n, AssignsNothing) }

  lemma {:induction false} NoEvents(ls: seq<Located>)
    requires forall x | x in ls :: !x.node.kind.Assign?
    ensures ListEvents(OwnNodes(ls)) == []
  {
    if ls != [] {
      NoEvents(ls[1..]);
      assert ls[0] in ls;
      assert OwnNodes(ls) == (if IsScope(ls[0].node) then [] else [ls[0]]) + OwnNodes(ls[1..]);
      if IsScope(ls[0].node) {
        assert OwnNodes(ls) == OwnNodes(ls[1..]);
      } else {
        assert OwnNodes(ls)[1..] == OwnNodes(ls[1..]);
        assert ListEvents(OwnNodes(ls)) == [] + ListEvents(OwnNodes(ls[1..]));
      }
    }
  }

  /** What a simple statement on top of the stack adds to the events. */
  lemma StatementEvents(below: seq<Located>, l: Located)
    requires !IsScope(l.node) && forall i | 0 <= i < |l.node.children| :: Quiet(l.node.children[i])
    ensures ListEvents(OwnNodes(Popped(below + [l]))) == ListEvents([l]) + ListEvents(OwnNodes(Popped(below)))
  {
    hide Popped, ListEvents;
    PoppedAppend(below, [l]);
    PoppedNode(l);
    ThroughoutPopped(Kids(l), AssignsNothing);
    NoEvents(Popped(Kids(l)));
    FilterAppend([l] + Popped(Kids(l)), Popped(below));
    FilterAppend([l], Popped(Kids(l)));
    assert OwnNodes([l]) == [l] by { assert [l][1..] == []; }
    ListEventsAppend([l] + OwnNodes(Popped(Kids(l))), OwnNodes(Popped(below)));
    ListEventsAppend([l], OwnNodes(Popped(Kids(l))));
  }

  /** What a nested definition or class on top of the stack adds to them: nothing. */
  lemma DefinitionEvents(below: seq<Located>, l: Located)
    requires IsScope(l.node)
    ensures ListEvents(OwnNodes(Popped(below + [l]))) == ListEvents(OwnNodes(Popped(below)))
  {
    hide Popped, ListEvents;
    PoppedAppend(below, [l]);
    PoppedNode(l);
    FilterAppend([l], Popped(below));
    assert [l] + [] == [l] && [l][1..] == [] && OwnNodes([l]) == [];
    assert [] + OwnNodes(Popped(below)) == OwnNodes(Popped(below));
  }

  const DISPLAY := Node(Sequence, [Node(Constant(true, "ls"), [])])
  const FIRST := Node(Assign(1), [Node(Name("listCommand", Store), []), DISPLAY])
  const SECOND := Node(Assign(1), [Node(Name("listCommand", Store), []),
                                   Node(Call(0), [Node(Name("build", Load), [])])])
  const LAUNCH := Node(Call(1), [Node(Attribute("run"), [Node(Name("subprocess", Load), [])]),
                                 Node(Name("listCommand", Load), [])])

  /** `listCommand = ["ls"]`, then `listCommand = build()`, then `subprocess.run(listCommand)`. */
  const REBOUND := Node(Module, [FIRST, SECOND, LAUNCH])

  lemma ReboundEvents()
    ensures ListEvents(OwnNodes(Region(Located([], REBOUND)))) == [Event("listCommand", DISPLAY)]
  {
    hide Popped, OwnNodes, Quiet;
    var a, b, c := Located([0], FIRST), Located([1], SECOND), Located([2], LAUNCH);
    var kids := Kids(Located([], REBOUND));
    assert [] + [0] == [0] && [] + [1] == [1] && [] + [2] == [2];
    assert kids[0] == a && kids[1] == b && kids[2] == c;
    assert kids == [a, b] + [c];
    QuietExample();
    StatementEvents([a, b], c);
    assert [a, b] == [a] + [b];
    StatementEvents([a], b);
    assert [a] == [] + [a];
    StatementEvents([], a);
    ExampleEvents(a, b, c);
  }

  lemma QuietExample()
    ensures forall i | 0 <= i < |FIRST.children| :: Quiet(FIRST.children[i])
    ensures forall i | 0 <= i < |SECOND.children| :: Quiet(SECOND.children[i])
    ensures forall i | 0 <= i < |LAUNCH.children| :: Quiet(LAUNCH.children[i])
  {
    var name := Node(Name("listCommand", Store), []);
    assert Quiet(name) && Quiet(Node(Constant(true, "ls"), []));
    assert Quiet(DISPLAY);
    assert Quiet(Node(Name("build", Load), [])) && Quiet(SECOND.children[1]);
    assert Quiet(Node(Name("subprocess", Load), [])) && Quiet(LAUNCH.children[0]);
  }

  lemma ExampleEvents(a: Located, b: Located, c: Located)
    requires a.node == FIRST && b.node == SECOND && c.node == LAUNCH
    ensures ListEvents([a]) == [Event("listCommand", DISPLAY)] && ListEvents([b]) == [] && ListEvents([c]) == []
    ensures ListEvents(OwnNodes(Popped([]))) == []
  {
    var targets := FIRST.children[..1];
    assert targets[0].kind == Name("listCommand", Store) && targets[1..] == [];
    assert NamesOf(targets) == ["listCommand"];
    assert ["listCommand"][1..] == [];
    assert EventsFor(["listCommand"], DISPLAY) == [Event("listCommand", DISPLAY)];
    assert [a][1..] == [] && [b][1..] == [] && [c][1..] == [];
  }

  /** A name assigned a display and then something else is still read as the display,
      and the launch of whatever it holds by then is taken to be readable. */
  lemma ReboundNameIsRead()
    ensures Lexical(REBOUND, []).commandLists == map["listCommand" := DISPLAY]
    ensures !ReadsOnlyBinding(Located([], REBOUND), "listCommand")
    ensures !IsOpaque(LAUNCH, Lexical(REBOUND, []).commandLists)
  {
    hide Region, OwnNodes, ListEvents;
    var l := Located([], REBOUND);
    ReboundEvents();
    ReboundLiterals();
    TwoBinders();
    assert Lexical(REBOUND, []) == VisibleIn(l, SEED);
    assert LAUNCH.children[1..2] == [LAUNCH.children[1]];
  }

  lemma ReboundLiterals()
    ensures var es := [Event("listCommand", DISPLAY)]; Assigned(es) - Reassigned(es) == map["listCommand" := DISPLAY]
  {
    var es := [Event("listCommand", DISPLAY)];
    assert es[..0] == [];
    assert Assigned(es) == map["listCommand" := DISPLAY];
  }

  lemma TwoBinders()
    ensures forall t :: !OnlyBinder(Located([], REBOUND), "listCommand", t)
  {
    hide Region, OwnNodes;
    var l := Located([], REBOUND);
    BinderAt([0, 0], Node(Name("listCommand", Store), []));
    BinderAt([1, 0], Node(Name("listCommand", Store), []));
  }

  lemma KidIsInside(n: Node, i: nat)
    requires i < |n.children|
    ensures ValidPath(n, [i]) && At(n, [i]) == n.children[i] && InRegion(n, [i])
  {
    assert [i][1..] == [];
  }

  lemma BinderAt(p: Path, n: Node)
    requires |p| == 2 && p[0] < 2 && p[1] == 0 && n == Node(Name("listCommand", Store), [])
    ensures Located(p, n) in Binders(Located([], REBOUND))
  {
    hide Region, OwnNodes;
    var l, x := Located([], REBOUND), Located(p, n);
    var statement := REBOUND.children[p[0]];
    assert p[0..] == p && p[1..] == [0];
    KidIsInside(REBOUND.children[p[0]], 0);
    assert REBOUND.children[p[0]].children[0] == n;
    assert StartsWithPath(x.path, l.path);
    RegionMembers(l, x);
    BinderIsNode(l, x);
    ShortHeld(REBOUND, p);
  }

  // ----- A name rebound by a definition -----

  const REDEFINITION := Node(FunctionDef("listCommand", []), [])

  /** `listCommand = ["ls"]`, then `def listCommand(): ...`, then `subprocess.run(listCommand)`. */
  const REDEFINED := Node(Module, [FIRST, REDEFINITION, LAUNCH])

  lemma RedefinedEvents()
    ensures ListEvents(OwnNodes(Region(Located([], REDEFINED)))) == [Event("listCommand", DISPLAY)]
  {
    hide Popped, OwnNodes, Quiet;
    var a, b, c := Located([0], FIRST), Located([1], REDEFINITION), Located([2], LAUNCH);
    var kids := Kids(Located([], REDEFINED));
    assert [] + [0] == [0] && [] + [1] == [1] && [] + [2] == [2];
    assert kids[0] == a && kids[1] == b && kids[2] == c;
    assert kids == [a, b] + [c];
    QuietExample();
    StatementEvents([a, b], c);
    assert [a, b] == [a] + [b];
    DefinitionEvents([a], b);
    assert [a] == [] + [a];
    StatementEvents([], a);
    ExampleEvents(a, Located([1], SECOND), c);
  }

  /** A name assigned a display and then defined as a function is still read as the display. */
  lemma RedefinedNameIsRead()
    ensures Lexical(REDEFINED, []).commandLists == map["listCommand" := DISPLAY]
    ensures !ReadsOnlyBinding(Located([], REDEFINED), "listCommand")
    ensures !IsOpaque(LAUNCH, Lexical(REDEFINED, []).commandLists)
  {
    hide Region, OwnNodes, ListEvents;
    var l := Located([], REDEFINED);
    RedefinedEvents();
    ReboundLiterals();
    NoOnlyBinder();
    assert Lexical(REDEFINED, []) == VisibleIn(l, SEED);
    assert LAUNCH.children[1..2] == [LAUNCH.children[1]];
  }

  lemma NoOnlyBinder()
    ensures forall t :: !OnlyBinder(Located([], REDEFINED), "listCommand", t)
  {
    hide Region;
    var l := Located([], REDEFINED);
    var d, x := Located([1], REDEFINITION), Located([0, 0], Node(Name("listCommand", Store), []));
    KidIsInside(REDEFINED, 1);
    RegionMembers(l, d);
    KidIsInside(FIRST, 0);
    assert [0, 0][1..] == [0] && [0, 0][0..] == [0, 0] && [1][0..] == [1];
    RegionMembers(l, x);
    ShortHeld(REDEFINED, [1]);
    ShortHeld(REDEFINED, [0, 0]);
    BinderIsNode(l, d);
    BinderIsNode(l, x);
    assert "listCommand" in BoundBy(d.node) && "listCommand" in BoundBy(x.node);
  }

  /** `listCommand = ["ls"]`, then a function that defines a `listCommand` of its own and
      launches it. */
  const WITHIN := Node(FunctionDef("launchAll", []), [REDEFINITION, LAUNCH])
  const UNSHADOWED := Node(Module, [FIRST, WITHIN])

  lemma OuterEvents()
    ensures ListEvents(OwnNodes(Region(Located([], UNSHADOWED)))) == [Event("listCommand", DISPLAY)]
  {
    hide Popped, OwnNodes, Quiet;
    var a, b := Located([0], FIRST), Located([1], WITHIN);
    var kids := Kids(Located([], UNSHADOWED));
    assert [] + [0] == [0] && [] + [1] == [1];
    assert kids[0] == a && kids[1] == b && kids == [a] + [b];
    QuietExample();
    DefinitionEvents([a], b);
    assert [a] == [] + [a];
    StatementEvents([], a);
    ExampleEvents(a, Located([1], SECOND), Located([2], LAUNCH));
  }

  lemma WithinSaysNothing()
    ensures ListLiterals(OwnNodes(Region(Located([1], WITHIN)))) == map[]
    ensures NamesBound(WITHIN.kind, OwnNodes(Region(Located([1], WITHIN)))) == {}
  {
    hide Region, ListEvents, NamesStored, OwnNodes;
    var l := Located([1], WITHIN);
    assert Throughout(REDEFINITION, IsSilent);
    assert Throughout(Node(Name("subprocess", Load), []), IsSilent);
    assert Throughout(LAUNCH.children[0], IsSilent) && Throughout(LAUNCH.children[1], IsSilent);
    SilentScope(l);
    ExpressionsGiveNothing(OwnNodes(Region(l)), {}, map[]);
  }

  /** A function's own definition of a name does not shadow the display the module assigned
      to it: the launch of the function counts as readable. */
  lemma DefinitionDoesNotShadow()
    ensures ScopeAt(UNSHADOWED, [1]) && Lexical(UNSHADOWED, [1]).commandLists == map["listCommand" := DISPLAY]
    ensures !ShadowsRightly(Located([1], WITHIN), Lexical(UNSHADOWED, []))
    ensures !IsOpaque(LAUNCH, Lexical(UNSHADOWED, [1]).commandLists)
  {
    hide Lexical, VisibleIn, ShadowsRightly, AllBound;
    var l := Located([1], WITHIN);
    WithinSees();
    OuterSees();
    RedefinedWithin();
    StillVisible(l, Lexical(UNSHADOWED, []));
    assert LAUNCH.children[1..2] == [LAUNCH.children[1]];
  }

  lemma WithinSees()
    ensures ScopeAt(UNSHADOWED, [1]) && Lexical(UNSHADOWED, [1]) == VisibleIn(Located([1], WITHIN), Lexical(UNSHADOWED, []))
  {
    hide Lexical, VisibleIn, Handed;
    KidIsInside(UNSHADOWED, 1);
    LexicalFromOwner(UNSHADOWED, [1]);
    assert Owner(UNSHADOWED, [1]) == [];
    LambdaHandsAll(UNSHADOWED, []);
  }

  lemma StillVisible(l: Located, outer: Bindings)
    requires l == Located([1], WITHIN) && outer.commandLists == map["listCommand" := DISPLAY] && "listCommand" in AllBound(l)
    ensures VisibleIn(l, outer).commandLists == outer.commandLists && !ShadowsRightly(l, outer)
  {
    hide Region, OwnNodes, ListLiterals, NamesBound, AllBound;
    WithinSaysNothing();
    assert "listCommand" in VisibleIn(l, outer).commandLists;
    assert "listCommand" !in Extended(OwnNodes(Region(l)), Without(outer, AllBound(l))).commandLists;
  }

  lemma OuterSees()
    ensures Lexical(UNSHADOWED, []).commandLists == map["listCommand" := DISPLAY]
  {
    hide Region, OwnNodes, ListEvents;
    OuterEvents();
    ReboundLiterals();
    assert Lexical(UNSHADOWED, []) == VisibleIn(Located([], UNSHADOWED), SEED);
  }

  lemma RedefinedWithin()
    ensures "listCommand" in AllBound(Located([1], WITHIN))
  {
    hide Region;
    var l, d := Located([1], WITHIN), Located([1, 0], REDEFINITION);
    KidIsInside(WITHIN, 0);
    assert [1, 0][1..] == [0] && [1, 0][..1] == [1];
    RegionMembers(l, d);
    ShortHeld(WITHIN, [0]);
    BinderIsNode(l, d);
    BoundInMeans(Binders(l), "listCommand");
  }
}
