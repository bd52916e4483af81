/** Every way a scope binds a name, beside the ways `_fsetNamesBoundInScope` looks at:
    where a rebound name shadows the inherited one. */
module NameBinders {
  import opened PythonTree
  import opened ScopeModel
  import opened LexicalScopes
  import opened ScopeTheorems
  import opened LambdaScopes
  import opened CallSites

  // ----- What binds a name -----

  /** The names a node binds: a store or deletion, an import, a nested definition or class, an
      except handler or a match pattern. */
  function BoundBy(n: Node): set<string> {
    match n.kind
    case Name(id, ctx) => if ctx.Load? then {} else {id}
    case Alias(_, _) => {Root(BoundAs(n.kind))}
    case FunctionDef(name, _) => {name}
    case ClassDef(name) => {name}
    case Capture(name) => {name}
    case _ => {}
  }

  /** What the node at `r` binds, it binds for a comprehension between it and `n`: a walrus
      reaches out of all of them. */
  predicate HeldBelow(n: Node, r: Path, inside: bool) {
    if r == [] then inside
    else
      r[0] < |n.children| &&
      HeldBelow(n.children[r[0]], r[1..], n.kind.Comprehension? || (inside && !(n.kind.Walrus? && r[0] == 0)))
  }

  predicate IsHeld(l: Located, x: Located) { |l.path| <= |x.path| && HeldBelow(l.node, x.path[|l.path|..], false) }

  function NotHeld(l: Located, ls: seq<Located>): seq<Located> {
    if ls == [] then [] else (if IsHeld(l, ls[0]) then [] else [ls[0]]) + NotHeld(l, ls[1..])
  }

  /** The nodes of the scope that bind what they bind for the scope itself, nested
      definitions and classes included. */
  function Binders(l: Located): seq<Located> { NotHeld(l, Region(l)) }

  lemma {:induction false} NotHeldMembers(l: Located, ls: seq<Located>)
    ensures forall x :: x in NotHeld(l, ls) <==> x in ls && !IsHeld(l, x)
  {
    if ls != [] {
      NotHeldMembers(l, ls[1..]);
      assert ls == [ls[0]] + ls[1..];
    }
  }

  lemma BinderIsNode(l: Located, x: Located)
    ensures x in Binders(l) <==> x in Region(l) && !IsHeld(l, x)
  {
    NotHeldMembers(l, Region(l));
  }

  function BoundIn(ls: seq<Located>): set<string> {
    if ls == [] then {} else BoundBy(ls[0].node) + BoundIn(ls[1..])
  }

  function Parameters(scope: Kind): set<string> {
    if scope.FunctionDef? || scope.Lambda? then Names(scope.parameters) else {}
  }

  /** Every name the scope binds. */
  function AllBound(l: Located): set<string> { Parameters(l.node.kind) + BoundIn(Binders(l)) }

  /** The names the source takes to be bound. */
  function Counted(l: Located): set<string> { NamesBound(l.node.kind, OwnNodes(Region(l))) }

  lemma {:induction false} BoundInMeans(ls: seq<Located>, name: string)
    ensures name in BoundIn(ls) <==> exists x :: x in ls && name in BoundBy(x.node)
  {
    if ls != [] {
      BoundInMeans(ls[1..], name);
      assert ls == [ls[0]] + ls[1..];
      assert ls[0] in ls;
      assert forall x | x in ls[1..] :: x in ls;
    }
  }

  lemma {:induction false} StoredMeansBound(own: seq<Located>, name: string)
    ensures name in NamesStored(own) <==>
      exists x :: x in own && (x.node.kind.Name? || x.node.kind.Alias?) && name in BoundBy(x.node)
  {
    if own != [] {
      StoredMeansBound(own[1..], name);
      assert own == [own[0]] + own[1..];
      assert own[0] in own;
      assert forall x | x in own[1..] :: x in own;
    }
  }

  /** The source misses only names that nested definitions, classes, handlers and patterns bind,
      and counts too many only for the targets of comprehensions. */
  lemma CountedExactly(l: Located, name: string)
    ensures name in AllBound(l) && name !in Counted(l) ==>
      exists x :: x in Binders(l) && name in BoundBy(x.node) && (IsScope(x.node) || x.node.kind.Capture?)
    ensures name in Counted(l) && name !in AllBound(l) ==>
      exists x :: x in Region(l) && name in BoundBy(x.node) && IsHeld(l, x)
  {
    hide Region, IsHeld;
    StoredMeansBound(OwnNodes(Region(l)), name);
    BoundInMeans(Binders(l), name);
    NotHeldMembers(l, Region(l));
    FilterMembers(Region(l));
    if name in AllBound(l) && name !in Counted(l) {
      var x :| x in Binders(l) && name in BoundBy(x.node);
      assert IsScope(x.node) || x in OwnNodes(Region(l));
    }
    if name in Counted(l) && name !in AllBound(l) {
      var x :| x in OwnNodes(Region(l)) && name in BoundBy(x.node);
    }
  }

  // ----- What a scope itself says about a name it also counts -----

  predicate IsStatement(n: Node) { n.kind.Assign? || n.kind.Import? || n.kind.ImportFrom? }

  /** In Python's grammar a plain assignment target is a store, an import binds a plain name,
      without a dot, and neither statement stands in a comprehension. */
  ghost predicate Grammatical(l: Located) {
    var own := OwnNodes(Region(l));
    (forall a, i | a in own && a.node.kind.Assign? && 0 <= i < |a.node.children| && i < a.node.kind.targets ::
      a.node.children[i].kind.Name? ==> a.node.children[i].kind.ctx.Store?) &&
    (forall a, i | a in own && 0 <= i < |a.node.children| && a.node.children[i].kind.Alias? ::
      NoDot(a.node.children[i].kind.asName) && (a.node.kind.ImportFrom? ==> NoDot(a.node.children[i].kind.name))) &&
    (forall a | a in own && IsStatement(a.node) :: !IsHeld(l, a))
  }

  predicate NoDot(s: string) { '.' !in s }

  lemma {:induction false} RootOfName(s: string)
    ensures NoDot(s) ==> Root(s) == s
    ensures Root(Root(s)) == Root(s) && NoDot(Root(s))
  {
    if s != "" {
      assert s == [s[0]] + s[1..];
      RootOfName(s[1..]);
      if s[0] != '.' { assert ([s[0]] + Root(s[1..]))[1..] == Root(s[1..]); }
    }
  }

  lemma {:induction false} InRegionDown(n: Node, r: Path, t: nat)
    requires InRegion(n, r) && ValidPath(n, r) && !IsScope(At(n, r)) && t < |At(n, r).children|
    ensures InRegion(n, r + [t]) && ValidPath(n, r + [t]) && At(n, r + [t]) == At(n, r).children[t]
  {
    var c := n.children[r[0]];
    assert (r + [t])[0] == r[0] && (r + [t])[1..] == r[1..] + [t];
    if |r| > 1 {
      InRegionDown(c, r[1..], t);
    } else {
      assert r[1..] == [] && (r + [t])[1..] == [t] && [t][1..] == [];
      assert At(n, r) == c && At(c, [t]) == At(c.children[t], []);
    }
  }

  lemma KidInRegion(l: Located, a: Located, t: nat)
    requires InRegionOf(l, a) && !IsScope(a.node) && t < |a.node.children|
    ensures InRegionOf(l, Kids(a)[t])
  {
    hide InRegion, At, ValidPath;
    var r, x := a.path[|l.path|..], Kids(a)[t];
    InRegionDown(l.node, r, t);
    assert x.path[..|l.path|] == l.path && x.path[|l.path|..] == r + [t];
  }

  lemma KidsOfOwn(l: Located, a: Located, x: Located)
    requires a in OwnNodes(Region(l)) && x in Kids(a) && !IsScope(x.node)
    ensures x in OwnNodes(Region(l))
  {
    hide InRegion, At, ValidPath, Region, InRegionOf;
    FilterMembers(Region(l));
    RegionMembers(l, a);
    var t :| 0 <= t < |Kids(a)| && Kids(a)[t] == x;
    KidInRegion(l, a, t);
    RegionMembers(l, x);
  }

  lemma {:induction false} HeldDown(n: Node, r: Path, i: nat, inside: bool)
    requires ValidPath(n, r) && i < |At(n, r).children|
    ensures HeldBelow(n, r + [i], inside) <==>
      At(n, r).kind.Comprehension? || (HeldBelow(n, r, inside) && !(At(n, r).kind.Walrus? && i == 0))
  {
    if r == [] {
      assert (r + [i])[0] == i && (r + [i])[1..] == [];
    } else {
      assert (r + [i])[0] == r[0] && (r + [i])[1..] == r[1..] + [i];
      HeldDown(n.children[r[0]], r[1..], i, n.kind.Comprehension? || (inside && !(n.kind.Walrus? && r[0] == 0)));
    }
  }

  /** At one or two steps from a scope, with no comprehension there, nothing is held. */
  lemma ShortHeld(n: Node, p: Path)
    requires 1 <= |p| <= 2 && !n.kind.Comprehension?
    requires |p| == 2 && p[0] < |n.children| ==> !n.children[p[0]].kind.Comprehension?
    ensures !HeldBelow(n, p, false)
  {
    assert p[1..] == if |p| == 1 then [] else [p[1]];
    if |p| == 2 { assert [p[1]][1..] == []; }
  }

  /** A kid of a statement of the scope binds for the scope. */
  lemma KidNotHeld(l: Located, a: Located, i: nat)
    requires a in OwnNodes(Region(l)) && IsStatement(a.node) && !IsHeld(l, a) && i < |a.node.children|
    ensures !IsHeld(l, Kids(a)[i])
  {
    hide InRegion, At, ValidPath, Region, HeldBelow;
    FilterMembers(Region(l));
    RegionMembers(l, a);
    var r := a.path[|l.path|..];
    HeldDown(l.node, r, i, false);
    assert Kids(a)[i].path[|l.path|..] == r + [i];
  }

  /** Counted, and bound. */
  ghost predicate BothWays(l: Located, name: string) {
    name in NamesStored(OwnNodes(Region(l))) && name in BoundIn(Binders(l))
  }

  /** A name that a kid of a statement of the scope stores or imports is counted, rightly. */
  lemma KidCounts(l: Located, a: Located, i: nat, name: string)
    requires a in OwnNodes(Region(l)) && IsStatement(a.node) && !IsHeld(l, a)
    requires i < |a.node.children| && name in BoundBy(a.node.children[i])
    requires a.node.children[i].kind.Name? || a.node.children[i].kind.Alias?
    ensures BothWays(l, name)
  {
    hide Region, IsHeld;
    var x := Kids(a)[i];
    assert x in Kids(a);
    KidsOfOwn(l, a, x);
    KidNotHeld(l, a, i);
    FilterMembers(Region(l));
    BinderIsNode(l, x);
    StoredMeansBound(OwnNodes(Region(l)), name);
    BoundInMeans(Binders(l), name);
  }

  lemma {:induction false} NameAmong(ns: seq<Node>, name: string) returns (i: nat)
    requires name in NamesOf(ns)
    ensures i < |ns| && ns[i].kind.Name? && ns[i].kind.id == name
  {
    if ns[0].kind.Name? && ns[0].kind.id == name {
      i := 0;
    } else {
      i := NameAmong(ns[1..], name);
      i := i + 1;
    }
  }

  /** What an assignment of the scope gives a meaning to, the scope stores. */
  lemma TargetCounts(l: Located, a: Located, name: string)
    requires Grammatical(l) && a in OwnNodes(Region(l)) && a.node.kind.Assign? && name in Names(TargetNames(a.node))
    ensures BothWays(l, name)
  {
    hide Region, BothWays, IsHeld;
    var k := if a.node.kind.targets <= |a.node.children| then a.node.kind.targets else |a.node.children|;
    var i := NameAmong(a.node.children[..k], name);
    KidCounts(l, a, i, name);
  }

  // The five collectors, each traced back to the node that gives the name its meaning.

  lemma {:induction false} ImportedFrom(aliases: seq<Node>, roots: set<string>, name: string) returns (i: nat)
    requires name in ImportedNames(aliases, roots)
    ensures i < |aliases| && aliases[i].kind.Alias?
    ensures name == if aliases[i].kind.asName != "" then aliases[i].kind.asName else Root(aliases[i].kind.name)
  {
    if name in ImportedNames(aliases[1..], roots) {
      i := ImportedFrom(aliases[1..], roots, name);
      i := i + 1;
    } else {
      i := 0;
    }
  }

  lemma {:induction false} ModuleNameFrom(own: seq<Located>, roots: set<string>, name: string) returns (a: Located)
    requires name in ModuleNames(own, roots)
    ensures a in own && a.node.kind.Import? && name in ImportedNames(a.node.children, roots)
  {
    if name in ModuleNames(own[1..], roots) { a := ModuleNameFrom(own[1..], roots, name); } else { a := own[0]; }
  }

  lemma {:induction false} ClientFrom(own: seq<Located>, s: set<string>, name: string) returns (a: Located)
    requires name in ClientNames(own, s)
    ensures a in own && a.node.kind.Assign? && name in Names(TargetNames(a.node))
  {
    hide IsClientConstructor;
    if name in ClientNames(own[1..], s) { a := ClientFrom(own[1..], s, name); } else { a := own[0]; }
  }

  lemma {:induction false} SdkBoundFrom(own: seq<Located>, s: set<string>, name: string) returns (a: Located)
    requires name in SdkBoundNames(own, s)
    ensures a in own && a.node.kind.Assign? && name in Names(TargetNames(a.node))
  {
    hide FetchesFromSdk;
    if name in SdkBoundNames(own[1..], s) { a := SdkBoundFrom(own[1..], s, name); } else { a := own[0]; }
  }

  lemma {:induction false} LauncherAmong(aliases: seq<Node>, name: string) returns (i: nat)
    requires name in ImportedLaunchers(aliases)
    ensures i < |aliases| && aliases[i].kind.Alias? && name == BoundAs(aliases[i].kind)
  {
    if name in ImportedLaunchers(aliases[1..]) {
      i := LauncherAmong(aliases[1..], name);
      i := i + 1;
    } else {
      i := 0;
    }
  }

  lemma {:induction false} LauncherFrom(own: seq<Located>, s: set<string>, name: string) returns (a: Located)
    requires name in LauncherNames(own, s)
    ensures a in own
    ensures (a.node.kind.Assign? && name in Names(TargetNames(a.node))) ||
            (a.node.kind.ImportFrom? && name in ImportedLaunchers(a.node.children))
  {
    hide IsLauncherReference;
    if name in LauncherNames(own[1..], s) { a := LauncherFrom(own[1..], s, name); } else { a := own[0]; }
  }

  lemma {:induction false} UpdatedFrom(aliases: seq<Node>, m: map<string, string>, name: string) returns (i: nat)
    requires name in AliasUpdates(aliases, m) && name !in m
    ensures i < |aliases| && aliases[i].kind.Alias?
    ensures name == if aliases[i].kind.asName != "" then aliases[i].kind.asName else Root(aliases[i].kind.name)
  {
    var k := aliases[0].kind;
    var next := if k.Alias? && Root(k.name) in MEMBER_ROOTS
      then if k.asName != "" then m[k.asName := k.name] else m[Root(k.name) := Root(k.name)]
      else m;
    if name in next {
      i := 0;
    } else {
      i := UpdatedFrom(aliases[1..], next, name);
      i := i + 1;
    }
  }

  lemma {:induction false} AliasFrom(own: seq<Located>, m: map<string, string>, name: string) returns (a: Located, was: map<string, string>)
    requires name in ModuleAliases(own, m) && name !in m
    ensures a in own && a.node.kind.Import? && name !in was && name in AliasUpdates(a.node.children, was)
  {
    var next := if own[0].node.kind.Import? then AliasUpdates(own[0].node.children, m) else m;
    if name in next {
      a, was := own[0], m;
    } else {
      a, was := AliasFrom(own[1..], next, name);
    }
  }

  /** What a scope's own nodes say about names: the part of its bindings it does not inherit. */
  function OwnSays(own: seq<Located>, dockerModules: set<string>, clients: set<string>, processModules: set<string>): set<string> {
    ListLiterals(own).Keys + ModuleNames(own, PROCESS_ROOTS) + ModuleNames(own, DOCKER_ROOTS) + ClientNames(own, dockerModules) +
    SdkBoundNames(own, clients) + LauncherNames(own, processModules) + ModuleAliases(own, map[]).Keys
  }

  lemma ImportCounts(l: Located, a: Located, i: nat, name: string)
    requires Grammatical(l) && a in OwnNodes(Region(l)) && (a.node.kind.Import? || a.node.kind.ImportFrom?)
    requires i < |a.node.children| && a.node.children[i].kind.Alias?
    requires name == (if a.node.children[i].kind.asName != "" then a.node.children[i].kind.asName else Root(a.node.children[i].kind.name))
      || (a.node.kind.ImportFrom? && name == BoundAs(a.node.children[i].kind))
    ensures BothWays(l, name)
  {
    hide Region, BothWays, Root, IsHeld;
    var k := a.node.children[i].kind;
    RootOfName(k.asName);
    RootOfName(k.name);
    KidCounts(l, a, i, name);
  }

  lemma ListLiteralFrom(own: seq<Located>, name: string) returns (a: Located)
    requires name in ListLiterals(own)
    ensures a in own && a.node.kind.Assign? && name in Names(TargetNames(a.node))
  {
    AssignedKeys(ListEvents(own));
    var i :| 0 <= i < |ListEvents(own)| && ListEvents(own)[i].name == name;
    a := EventFrom(own, i);
  }

  lemma {:induction false} EventFrom(own: seq<Located>, i: nat) returns (a: Located)
    requires i < |ListEvents(own)|
    ensures a in own && a.node.kind.Assign? && ListEvents(own)[i].name in Names(TargetNames(a.node))
  {
    var n := own[0].node;
    var here := if n.kind.Assign? && AssignedValue(n).kind.Sequence? then EventsFor(TargetNames(n), AssignedValue(n)) else [];
    if i < |here| {
      a := own[0];
      EventNamed(TargetNames(n), AssignedValue(n), i);
    } else {
      a := EventFrom(own[1..], i - |here|);
    }
  }

  lemma {:induction false} EventNamed(names: seq<string>, value: Node, i: nat)
    requires i < |EventsFor(names, value)|
    ensures EventsFor(names, value)[i].name in names
  {
    if i > 0 { EventNamed(names[1..], value, i - 1); }
  }

  /** Whatever a scope's own nodes give a meaning to is bound there, and counted. */
  lemma OwnSaysIsCounted(l: Located, dockerModules: set<string>, clients: set<string>, processModules: set<string>, name: string)
    requires Grammatical(l) && name in OwnSays(OwnNodes(Region(l)), dockerModules, clients, processModules)
    ensures BothWays(l, name)
  {
    hide Region, BothWays, Grammatical, ListLiterals, ModuleNames, ClientNames, SdkBoundNames, LauncherNames, ModuleAliases, Root;
    var own := OwnNodes(Region(l));
    if name in ListLiterals(own) {
      var a := ListLiteralFrom(own, name);
      TargetCounts(l, a, name);
    } else if name in ModuleNames(own, PROCESS_ROOTS) {
      ModuleCounts(l, PROCESS_ROOTS, name);
    } else if name in ModuleNames(own, DOCKER_ROOTS) {
      ModuleCounts(l, DOCKER_ROOTS, name);
    } else if name in ClientNames(own, dockerModules) {
      var a := ClientFrom(own, dockerModules, name);
      TargetCounts(l, a, name);
    } else if name in SdkBoundNames(own, clients) {
      var a := SdkBoundFrom(own, clients, name);
      TargetCounts(l, a, name);
    } else if name in LauncherNames(own, processModules) {
      var a := LauncherFrom(own, processModules, name);
      if a.node.kind.Assign? {
        TargetCounts(l, a, name);
      } else {
        var i := LauncherAmong(a.node.children, name);
        ImportCounts(l, a, i, name);
      }
    } else {
      var a, was := AliasFrom(own, map[], name);
      var i := UpdatedFrom(a.node.children, was, name);
      ImportCounts(l, a, i, name);
    }
  }

  lemma ModuleCounts(l: Located, roots: set<string>, name: string)
    requires Grammatical(l) && name in ModuleNames(OwnNodes(Region(l)), roots)
    ensures BothWays(l, name)
  {
    hide Region, BothWays, Grammatical, ModuleNames, Root;
    var a := ModuleNameFrom(OwnNodes(Region(l)), roots, name);
    var i := ImportedFrom(a.node.children, roots, name);
    ImportCounts(l, a, i, name);
  }

  // ----- Shadowing -----

  /** What is left of the inherited bindings, extended by what the scope's own nodes say. */
  function Extended(own: seq<Located>, left: Bindings): Bindings {
    var processModules := left.processModules + ModuleNames(own, PROCESS_ROOTS);
    var dockerModules := left.dockerModules + ModuleNames(own, DOCKER_ROOTS);
    var clients := left.clientNames + ClientNames(own, dockerModules);
    Bindings(
      left.commandLists + ListLiterals(own), clients, left.sdkBoundNames + SdkBoundNames(own, clients), processModules,
      left.launchers + LauncherNames(own, processModules), dockerModules, left.moduleAliases + ModuleAliases(own, map[]))
  }

  /** What is visible is what is inherited less the names the scope really binds, extended by
      what it says of them. */
  predicate ShadowsRightly(l: Located, inherited: Bindings) {
    VisibleIn(l, inherited) == Extended(OwnNodes(Region(l)), Without(inherited, AllBound(l)))
  }

  /** The names bound in ways that are not counted, and those counted that the scope does not bind. */
  function Misjudged(l: Located): set<string> { (AllBound(l) - Counted(l)) + (Counted(l) - AllBound(l)) }

  /** Rebinding shadows what it should, and nothing else, exactly when no tracked name is
      bound only by a nested definition or class, an except handler or a match pattern, or
      only as the target of a comprehension. */
  lemma ShadowsExactly(l: Located, inherited: Bindings)
    requires Grammatical(l)
    ensures ShadowsRightly(l, inherited) <==> Misjudged(l) !! Tracked(inherited)
  {
    hide Region, Visible, Grammatical, Tracked, AllBound, Counted, Extended, Without;
    var own := OwnNodes(Region(l));
    VisibleIsExtended(l, inherited);
    if Misjudged(l) !! Tracked(inherited) {
      SameLess(inherited, Counted(l), AllBound(l));
    } else {
      var name :| name in Misjudged(l) && name in Tracked(inherited);
      SaysNothingOf(l, name);
      if name in AllBound(l) {
        OneIsGone(own, inherited, Counted(l), AllBound(l), name);
      } else {
        OneIsGone(own, inherited, AllBound(l), Counted(l), name);
      }
    }
  }

  lemma VisibleIsExtended(l: Located, inherited: Bindings)
    ensures VisibleIn(l, inherited) == Extended(OwnNodes(Region(l)), Without(inherited, Counted(l)))
  {
    hide Region, NamesBound, ListLiterals, ModuleNames, ClientNames, SdkBoundNames, LauncherNames, ModuleAliases;
  }

  /** Taking away names that differ only where nothing is tracked leaves the same. */
  lemma SameLess(b: Bindings, counted: set<string>, all: set<string>)
    requires ((all - counted) + (counted - all)) !! Tracked(b)
    ensures Without(b, counted) == Without(b, all)
  {
    hide Without, Tracked;
    UntrackedMore(b, counted, all - counted);
    UntrackedMore(b, all, counted - all);
    assert counted + (all - counted) == all + (counted - all);
  }

  lemma UntrackedMore(b: Bindings, names: set<string>, more: set<string>)
    requires more !! Tracked(b)
    ensures Without(b, names + more) == Without(b, names)
  {
    WithoutTwice(b, more, names);
    WithoutNothingTracked(b, more);
    assert more + names == names + more;
  }

  /** The scope says nothing of a name that is not both bound and counted. */
  lemma SaysNothingOf(l: Located, name: string)
    requires Grammatical(l) && name in Misjudged(l)
    ensures forall d: set<string>, c: set<string>, p: set<string> :: name !in OwnSays(OwnNodes(Region(l)), d, c, p)
  {
    hide Region, Grammatical, NamesStored, OwnSays;
    forall d: set<string>, c: set<string>, p: set<string> ensures name !in OwnSays(OwnNodes(Region(l)), d, c, p) {
      if name in OwnSays(OwnNodes(Region(l)), d, c, p) { OwnSaysIsCounted(l, d, c, p, name); }
    }
  }

  lemma OneIsGone(own: seq<Located>, b: Bindings, less: set<string>, more: set<string>, name: string)
    requires name in Tracked(b) && name !in less && name in more
    requires forall d: set<string>, c: set<string>, p: set<string> :: name !in OwnSays(own, d, c, p)
    ensures Extended(own, Without(b, less)) != Extended(own, Without(b, more))
  {
    hide ListLiterals, ModuleNames, ClientNames, SdkBoundNames, LauncherNames, ModuleAliases;
    var gone := Extended(own, Without(b, more));
    assert name !in OwnSays(own, gone.dockerModules, gone.clientNames, gone.processModules);
    assert name !in Tracked(gone);
    assert name in Tracked(Extended(own, Without(b, less)));
  }

  // ----- A comprehension's target that hides a module -----

  const TARGET := Node(Name("subprocess", Store), [])
  const HIDING := Node(FunctionDef("f", []), [Node(Comprehension, [TARGET]), CALL])

  /** `def f(): [... for subprocess in ...]; subprocess.run(cmd)` */
  const HIDDEN := Node(Module, [HIDING])

  const INNER := Node(Comprehension, [TARGET])

  lemma HidingRegion()
    ensures Region(Located([0], HIDING)) ==
      Popped([Located([0, 1], CALL)]) + [Located([0, 0], INNER), Located([0, 0, 0], TARGET)]
  {
    hide Popped;
    var l, c, x, y := Located([0], HIDING), Located([0, 1], CALL), Located([0, 0], INNER), Located([0, 0, 0], TARGET);
    assert [0] + [0] == [0, 0] && [0] + [1] == [0, 1] && [0, 0] + [0] == [0, 0, 0];
    assert Kids(l)[0] == x && Kids(l)[1] == c && Kids(l) == [x] + [c];
    assert Kids(x) == [y] && Kids(y) == [];
    PoppedAppend([x], [c]);
    PoppedNode(x);
    PoppedNode(y);
    assert Popped([]) == [] by { EmptyStack(); }
    assert [x] + ([y] + []) == [x, y];
  }

  lemma EmptyStack()
    ensures Popped([]) == []
  {
  }

  predicate BindsAndSaysNothing(n: Node) { IsSilent(n) && BoundBy(n) == {} }

  lemma CallBindsNothing()
    ensures forall z | z in Popped([Located([0, 1], CALL)]) :: BindsAndSaysNothing(z.node)
  {
    hide Popped;
    assert Throughout(Node(Name("subprocess", Load), []), BindsAndSaysNothing) && Throughout(Node(Name("cmd", Load), []), BindsAndSaysNothing);
    assert Throughout(CALLEE, BindsAndSaysNothing) && Throughout(CALL, BindsAndSaysNothing);
    ThroughoutPopped([Located([0, 1], CALL)], BindsAndSaysNothing);
  }

  lemma HidingMember(z: Located)
    requires z in Region(Located([0], HIDING))
    ensures z == Located([0, 0], INNER) || z == Located([0, 0, 0], TARGET) || BindsAndSaysNothing(z.node)
  {
    hide Region, Popped;
    HidingRegion();
    CallBindsNothing();
  }

  lemma HidingCounts()
    ensures OnlyExpressions(OwnNodes(Region(Located([0], HIDING)))) && "subprocess" in Counted(Located([0], HIDING))
  {
    hide Region, OwnNodes, NamesStored, Popped, BindsAndSaysNothing;
    var l, y := Located([0], HIDING), Located([0, 0, 0], TARGET);
    HidingRegion();
    FilterMembers(Region(l));
    assert y in [Located([0, 0], INNER), y];
    StoredMeansBound(OwnNodes(Region(l)), "subprocess");
    forall z | z in OwnNodes(Region(l)) ensures !IsStatement(z.node) {
      HidingMember(z);
      assert BindsAndSaysNothing(z.node) ==> IsSilent(z.node) by { SaysNothing(z.node); }
    }
  }

  lemma SaysNothing(n: Node)
    ensures BindsAndSaysNothing(n) ==> IsSilent(n) && BoundBy(n) == {}
  {
  }

  lemma HidingBinds()
    ensures AllBound(Located([0], HIDING)) == {}
  {
    hide Region, Binders, BoundIn, HeldBelow, BindsAndSaysNothing;
    var l := Located([0], HIDING);
    TargetIsHeld();
    forall name ensures name !in BoundIn(Binders(l)) {
      BoundInMeans(Binders(l), name);
      forall z | z in Binders(l) ensures name !in BoundBy(z.node) {
        BinderIsNode(l, z);
        HidingMember(z);
        SaysNothing(z.node);
      }
    }
  }

  lemma TargetIsHeld()
    ensures IsHeld(Located([0], HIDING), Located([0, 0, 0], TARGET))
  {
    assert [0, 0, 0][1..] == [0, 0] && [0, 0][1..] == [0] && [0][1..] == [];
  }

  lemma HidingSees()
    ensures ScopeAt(HIDDEN, [0]) && Lexical(HIDDEN, []) == SEED
    ensures Lexical(HIDDEN, [0]) == VisibleIn(Located([0], HIDING), SEED)
  {
    hide Lexical, VisibleIn, Handed;
    FirstKid(HIDDEN, []);
    assert [0] + [] == [0];
    RootSees();
    assert Owner(HIDDEN, [0]) == [];
    LexicalFromOwner(HIDDEN, [0]);
    LambdaHandsAll(HIDDEN, []);
  }

  lemma RootSees()
    ensures Lexical(HIDDEN, []) == SEED
  {
    hide Popped, Visible, Without;
    var root, d := Located([], HIDDEN), Located([0], HIDING);
    assert [] + [0] == [0];
    assert Kids(root) == [d];
    PoppedNode(d);
    assert Region(root) == [d] && [d][1..] == [] && OwnNodes([d]) == [];
    assert NamesBound(Module, []) == {};
    ExpressionsOnlyShadow(Module, [], SEED);
    WithoutNothingTracked(SEED, {});
    assert Lexical(HIDDEN, []) == VisibleIn(root, SEED);
  }

  /** The launch is one by the bindings around the function, which binds nothing of its own,
      and none by what the model takes to be visible in it. */
  lemma TargetHidesLaunch()
    ensures ScopeAt(HIDDEN, [0]) && AllBound(Located([0], HIDING)) == {} && !ShadowsRightly(Located([0], HIDING), SEED)
    ensures IsProcessLaunch(CALL, Lexical(HIDDEN, [])) && !IsProcessLaunch(CALL, Lexical(HIDDEN, [0]))
  {
    hide Region, OwnNodes, NamesBound, AllBound, Lexical, Visible, Extended;
    var l := Located([0], HIDING);
    HidingCounts();
    HidingBinds();
    HidingSees();
    ExpressionsOnlyShadow(HIDING.kind, OwnNodes(Region(l)), SEED);
    assert "subprocess" in SEED.processModules;
    assert AttributeChain(CALLEE.children[0]) == ["subprocess"];
    assert AttributeChain(CALL) == AttributeChain(CALLEE) == ["subprocess", "run"];
    NothingExtended(OwnNodes(Region(l)), SEED);
  }

  lemma NothingExtended(own: seq<Located>, b: Bindings)
    requires OnlyExpressions(own)
    ensures Extended(own, Without(b, {})).processModules == b.processModules
  {
    ExpressionsGiveNothing(own, PROCESS_ROOTS, map[]);
  }
}
