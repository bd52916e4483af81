/** What each kind of binding in a scope's entry means, told from the statements of the scope. */
module BindingMeaning {
  import opened PythonTree
  import opened ExpressionChains
  import opened ScopeModel
  import opened LexicalScopes
  import opened ScopeTheorems
  import opened LambdaScopes
  import opened NameBinders
  import opened ListReadings
  import opened CallSites

  // ----- Scopes -----

  predicate OpensScope(n: Node) { n.kind.FunctionDef? || n.kind.Lambda? || n.kind.ClassDef? }

  lemma {:induction false} InRegionMeans(n: Node, r: Path)
    requires ValidPath(n, r)
    ensures InRegion(n, r) <==> r != [] && forall k | 1 <= k < |r| :: ValidPath(n, r[..k]) && !OpensScope(At(n, r[..k]))
  {
    if |r| > 1 {
      var c := n.children[r[0]];
      InRegionMeans(c, r[1..]);
      assert r[..1][0] == r[0] && r[..1][1..] == [];
      forall k | 2 <= k < |r| ensures r[..k][0] == r[0] && r[..k][1..] == r[1..][..k - 1] {}
      forall k | 1 <= k < |r| ensures ValidPath(n, r[..k]) { PrefixIsValid(n, r, k); }
      if InRegion(n, r) {
        forall k | 1 <= k < |r| ensures !OpensScope(At(n, r[..k])) {
          if k > 1 { assert At(n, r[..k]) == At(c, r[1..][..k - 1]); }
        }
      }
      if forall k | 1 <= k < |r| :: ValidPath(n, r[..k]) && !OpensScope(At(n, r[..k])) {
        assert !IsScope(c) by { assert At(n, r[..1]) == c; }
        forall k | 1 <= k < |r[1..]| ensures ValidPath(c, r[1..][..k]) && !OpensScope(At(c, r[1..][..k])) {
          assert At(n, r[..k + 1]) == At(c, r[1..][..k]);
        }
      }
    }
  }

  lemma {:induction false} PrefixIsValid(n: Node, r: Path, k: nat)
    requires ValidPath(n, r) && k <= |r|
    ensures ValidPath(n, r[..k])
  {
    if k > 0 {
      assert r[..k][0] == r[0] && r[..k][1..] == r[1..][..k - 1];
      PrefixIsValid(n.children[r[0]], r[1..], k - 1);
    }
  }

  /** A scope's own nodes are those below it with no function, lambda or class on the way, nor there. */
  lemma OwnNodesMean(l: Located, r: Path)
    requires ValidPath(l.node, r)
    ensures Located(l.path + r, At(l.node, r)) in OwnNodes(Region(l)) <==>
      r != [] && forall k | 1 <= k <= |r| :: ValidPath(l.node, r[..k]) && !OpensScope(At(l.node, r[..k]))
  {
    hide Region, OwnNodes, InRegion, At, ValidPath;
    var x := Located(l.path + r, At(l.node, r));
    FilterMembers(Region(l));
    RegionMembers(l, x);
    assert x.path[|l.path|..] == r && x.path[..|l.path|] == l.path;
    InRegionMeans(l.node, r);
    assert r[..|r|] == r;
  }

  /** A scope sees what its owner sees, but what stands in a class sees only what is visible
      around the class. */
  lemma OutsideMeans(tree: Node, p: Path)
    requires ScopeAt(tree, p) && p != []
    ensures var o := Owner(tree, p);
      Outside(tree, p) == if At(tree, o).kind.ClassDef? then Outside(tree, o) else Lexical(tree, o)
  {
    hide Lexical, VisibleIn;
    if !At(tree, Owner(tree, p)).kind.ClassDef? { LambdaHandsAll(tree, Owner(tree, p)); }
  }

  // ----- Statements -----

  /** The assignment has the name among its plain targets. */
  predicate Targets(a: Node, name: string) {
    a.kind.Assign? && exists i :: 0 <= i < |a.children| && i < a.kind.targets && a.children[i].kind.Name? && a.children[i].kind.id == name
  }

  /** The scope has an assignment of the expression to the name. */
  ghost predicate Assigns(own: seq<Located>, name: string, value: Node) {
    exists a :: a in own && Targets(a.node, name) && a.node.kind.targets < |a.node.children| && a.node.children[a.node.kind.targets] == value
  }

  /** In Python's grammar an assignment's value stands behind its targets, and is spelled out. */
  ghost predicate ValuesSpelled(own: seq<Located>) {
    forall a | a in own && a.node.kind.Assign? ::
      a.node.kind.targets < |a.node.children| && IsSpelled(a.node.children[a.node.kind.targets])
  }

  lemma {:induction false} NameListed(ns: seq<Node>, name: string)
    ensures name in NamesOf(ns) <==> exists i :: 0 <= i < |ns| && ns[i].kind.Name? && ns[i].kind.id == name
  {
    if ns != [] {
      NameListed(ns[1..], name);
      assert forall i | 0 < i < |ns| :: ns[i] == ns[1..][i - 1];
    }
  }

  lemma TargetsMeans(a: Node, name: string)
    requires a.kind.Assign?
    ensures name in Names(TargetNames(a)) <==> Targets(a, name)
  {
    var k := if a.kind.targets <= |a.children| then a.kind.targets else |a.children|;
    NameListed(a.children[..k], name);
  }

  // ----- Clients, and what is fetched from them -----

  /** A call on a chain that starts at a Docker module and ends in a constructor. */
  ghost predicate MakesClient(value: Node, dockerModules: set<string>) {
    value.kind.Call? && exists parts ::
      HasParts(value, parts) && |parts| >= 2 && parts[0] in dockerModules && parts[|parts| - 1] in CLIENT_CONSTRUCTORS
  }

  /** A call on a chain that starts at a client and has a collection somewhere. */
  ghost predicate Fetches(value: Node, clients: set<string>) {
    value.kind.Call? && exists parts, i ::
      HasParts(value, parts) && parts != [] && parts[0] in clients && 0 <= i < |parts| && parts[i] in SDK_COLLECTIONS
  }

  /** An attribute of a process module, at any depth, that is a launcher. */
  ghost predicate NamesLauncher(value: Node, processModules: set<string>) {
    value.kind.Attribute? && exists parts ::
      HasParts(value, parts) && |parts| >= 2 && parts[0] in processModules && parts[|parts| - 1] in LAUNCHERS
  }

  lemma MakesClientMeans(value: Node, dockerModules: set<string>)
    requires IsSpelled(value)
    ensures value.kind.Call? && IsClientConstructor(value, dockerModules) <==> MakesClient(value, dockerModules)
  {
    hide IsSpelled, HasParts, AttributeChain;
    forall parts ensures HasParts(value, parts) <==> parts == AttributeChain(value) { PartsAreChain(value, parts); }
  }

  lemma FetchesMeans(value: Node, clients: set<string>)
    requires IsSpelled(value)
    ensures value.kind.Call? && FetchesFromSdk(value, clients) <==> Fetches(value, clients)
  {
    hide IsSpelled, HasParts, AttributeChain;
    forall parts ensures HasParts(value, parts) <==> parts == AttributeChain(value) { PartsAreChain(value, parts); }
    var chain := AttributeChain(value);
    if s :| s in chain && s in SDK_COLLECTIONS {
      var i :| 0 <= i < |chain| && chain[i] == s;
    }
  }

  lemma NamesLauncherMeans(value: Node, processModules: set<string>)
    requires IsSpelled(value)
    ensures IsLauncherReference(value, processModules) <==> NamesLauncher(value, processModules)
  {
    hide IsSpelled, HasParts, AttributeChain;
    forall parts ensures HasParts(value, parts) <==> parts == AttributeChain(value) { PartsAreChain(value, parts); }
  }

  /** The scope assigns the name a new client. */
  ghost predicate AssignsClient(own: seq<Located>, dockerModules: set<string>, name: string) {
    exists value :: Assigns(own, name, value) && MakesClient(value, dockerModules)
  }

  ghost predicate AssignsFetched(own: seq<Located>, clients: set<string>, name: string) {
    exists value :: Assigns(own, name, value) && Fetches(value, clients)
  }

  ghost predicate AssignsLauncher(own: seq<Located>, processModules: set<string>, name: string) {
    exists value :: Assigns(own, name, value) && NamesLauncher(value, processModules)
  }

  lemma AssignsFirst(own: seq<Located>, name: string, value: Node)
    requires own != []
    ensures Assigns(own, name, value) <==> Assigns(own[..1], name, value) || Assigns(own[1..], name, value)
  {
    assert own == own[..1] + own[1..];
  }

  lemma {:induction false} ClientNamesMean(own: seq<Located>, dockerModules: set<string>, name: string)
    requires ValuesSpelled(own)
    ensures name in ClientNames(own, dockerModules) <==> AssignsClient(own, dockerModules, name)
  {
    hide IsSpelled, MakesClient, IsClientConstructor;
    if own != [] {
      ClientNamesMean(own[1..], dockerModules, name);
      forall value { AssignsFirst(own, name, value); }
      OneAssigns(own[0], name);
      var n := own[0].node;
      if n.kind.Assign? {
        TargetsMeans(n, name);
        MakesClientMeans(AssignedValue(n), dockerModules);
      }
    }
  }

  lemma OneAssigns(a: Located, name: string)
    ensures forall value :: Assigns([a], name, value) <==>
      Targets(a.node, name) && a.node.kind.targets < |a.node.children| && value == AssignedValue(a.node)
  {
  }

  lemma {:induction false} SdkBoundNamesMean(own: seq<Located>, clients: set<string>, name: string)
    requires ValuesSpelled(own)
    ensures name in SdkBoundNames(own, clients) <==> AssignsFetched(own, clients, name)
  {
    hide IsSpelled, Fetches, FetchesFromSdk;
    if own != [] {
      SdkBoundNamesMean(own[1..], clients, name);
      forall value { AssignsFirst(own, name, value); }
      OneAssigns(own[0], name);
      var n := own[0].node;
      if n.kind.Assign? {
        TargetsMeans(n, name);
        FetchesMeans(AssignedValue(n), clients);
      }
    }
  }

  // ----- Imports -----

  /** `root` or `root.anything`, the root without a dot. */
  ghost predicate RootedIn(path: string, root: string) {
    '.' !in root && (path == root || exists rest :: path == root + "." + rest)
  }

  lemma {:induction false} RootMeans(path: string, root: string)
    ensures Root(path) == root <==> RootedIn(path, root)
  {
    if path == "" {
    } else if path[0] == '.' {
      assert path == "" + "." + path[1..];
    } else {
      var c, rest := path[0], path[1..];
      assert path == [c] + rest;
      if root != "" && root[0] == c {
        RootMeans(rest, root[1..]);
        assert root == [c] + root[1..];
        if RootedIn(rest, root[1..]) && rest != root[1..] {
          var more :| rest == root[1..] + "." + more;
          assert path == root + "." + more;
        }
        if RootedIn(path, root) && path != root {
          var more :| path == root + "." + more;
          assert rest == root[1..] + "." + more;
        }
      } else {
        assert Root(path)[0] == c;
      }
    }
  }

  /** The alias gives the name to a module whose root is listed: the name after `as`, or the root. */
  ghost predicate GivesModule(alias: Node, roots: set<string>, name: string) {
    alias.kind.Alias? && exists root ::
      root in roots && RootedIn(alias.kind.name, root) && name == if alias.kind.asName != "" then alias.kind.asName else root
  }

  ghost predicate ImportsModule(own: seq<Located>, roots: set<string>, name: string) {
    exists a, i :: a in own && a.node.kind.Import? && 0 <= i < |a.node.children| && GivesModule(a.node.children[i], roots, name)
  }

  lemma {:induction false} ImportedNamesMean(aliases: seq<Node>, roots: set<string>, name: string)
    ensures name in ImportedNames(aliases, roots) <==> exists i :: 0 <= i < |aliases| && GivesModule(aliases[i], roots, name)
  {
    hide Root, RootedIn;
    if aliases != [] {
      ImportedNamesMean(aliases[1..], roots, name);
      assert forall i | 0 < i < |aliases| :: aliases[i] == aliases[1..][i - 1];
      if aliases[0].kind.Alias? {
        forall root ensures Root(aliases[0].kind.name) == root <==> RootedIn(aliases[0].kind.name, root) { RootMeans(aliases[0].kind.name, root); }
      }
    }
  }

  lemma {:induction false} ModuleNamesMean(own: seq<Located>, roots: set<string>, name: string)
    ensures name in ModuleNames(own, roots) <==> ImportsModule(own, roots, name)
  {
    hide GivesModule;
    if own != [] {
      ModuleNamesMean(own[1..], roots, name);
      ImportedNamesMean(own[0].node.children, roots, name);
      assert own == [own[0]] + own[1..] && own[0] in own;
      assert forall a | a in own[1..] :: a in own;
    }
  }

  /** The alias imports a launcher, perhaps under another name. */
  predicate GivesLauncher(alias: Node, name: string) {
    alias.kind.Alias? && alias.kind.name in LAUNCHERS && name == if alias.kind.asName != "" then alias.kind.asName else alias.kind.name
  }

  /** `from subprocess import launcher`, absolutely. */
  ghost predicate ImportsLauncher(own: seq<Located>, name: string) {
    exists a, i ::
      a in own && a.node.kind == ImportFrom("subprocess", 0) && 0 <= i < |a.node.children| && GivesLauncher(a.node.children[i], name)
  }

  lemma {:induction false} ImportedLaunchersMean(aliases: seq<Node>, name: string)
    ensures name in ImportedLaunchers(aliases) <==> exists i :: 0 <= i < |aliases| && GivesLauncher(aliases[i], name)
  {
    if aliases != [] {
      ImportedLaunchersMean(aliases[1..], name);
      assert forall i | 0 < i < |aliases| :: aliases[i] == aliases[1..][i - 1];
    }
  }

  lemma {:induction false} LauncherNamesMean(own: seq<Located>, processModules: set<string>, name: string)
    requires ValuesSpelled(own)
    ensures name in LauncherNames(own, processModules) <==> ImportsLauncher(own, name) || AssignsLauncher(own, processModules, name)
  {
    hide IsSpelled, NamesLauncher, IsLauncherReference, ImportedLaunchers;
    if own != [] {
      var n := own[0].node;
      LauncherNamesMean(own[1..], processModules, name);
      forall value { AssignsFirst(own, name, value); }
      OneAssigns(own[0], name);
      ImportedLaunchersMean(n.children, name);
      LauncherImportFirst(own, name);
      if n.kind.Assign? {
        TargetsMeans(n, name);
        NamesLauncherMeans(AssignedValue(n), processModules);
      }
    }
  }

  lemma LauncherImportFirst(own: seq<Located>, name: string)
    requires own != []
    ensures ImportsLauncher(own, name) <==> ImportsLauncher(own[..1], name) || ImportsLauncher(own[1..], name)
  {
    hide GivesLauncher;
    assert own == own[..1] + own[1..];
    assert forall a :: a in own <==> a in own[..1] || a in own[1..];
  }

  // ----- Displays -----

  /** Child `k` of the assignment is a plain target, and a display is assigned. */
  predicate TakesDisplay(a: Node, k: nat, name: string) {
    a.kind.Assign? && k < a.kind.targets < |a.children| && a.children[a.kind.targets].kind.Sequence? &&
    a.children[k].kind.Name? && a.children[k].kind.id == name
  }

  /** One target of one assignment of the scope, and no other, gives the name a display. */
  ghost predicate OnlyDisplay(own: seq<Located>, name: string, value: Node) {
    exists a, k: nat ::
      a in own && TakesDisplay(a.node, k, name) && value == a.node.children[a.node.kind.targets] &&
      forall b, j: nat | b in own && TakesDisplay(b.node, j, name) :: b == a && j == k
  }

  lemma {:induction false} PlaceListed(ls: seq<Located>, k: nat)
    requires k < |ls| && ls[k].node.kind.Name?
    ensures ls[k] in NamePlaces(ls)
  {
    if k > 0 { PlaceListed(ls[1..], k - 1); }
  }

  lemma {:induction false} TargetListed(own: seq<Located>, a: Located, k: nat, name: string)
    requires a in own && TakesDisplay(a.node, k, name)
    ensures Kids(a)[k] in DisplayTargets(own)
  {
    if a == own[0] {
      PlaceListed(Kids(a)[..a.node.kind.targets], k);
    } else {
      TargetListed(own[1..], a, k, name);
    }
  }

  /** An event is the target of an assignment of a display. */
  lemma {:induction false} EventIsTarget(own: seq<Located>, i: nat) returns (a: Located, k: nat)
    requires i < |ListEvents(own)| && |DisplayTargets(own)| == |ListEvents(own)|
    ensures a in own && TakesDisplay(a.node, k, ListEvents(own)[i].name) && DisplayTargets(own)[i] == Kids(a)[k]
    ensures ListEvents(own)[i].value == a.node.children[a.node.kind.targets]
  {
    var n := own[0].node;
    TargetsAlign(own);
    TargetsAlign(own[1..]);
    if AssignsDisplay(n) {
      var here := EventsFor(TargetNames(n), AssignedValue(n));
      TargetsAlign(own[..1]);
      OneAssignment(own[0]);
      if i < |here| {
        a := own[0];
        EventValue(TargetNames(n), AssignedValue(n), i);
        assert DisplayTargets(own)[i] == PlainTargets(a)[i] && PlainTargets(a)[i] in PlainTargets(a);
        TargetIsKid(a, PlainTargets(a)[i]);
        k :| 0 <= k < |a.node.children| && k < a.node.kind.targets && Kids(a)[k] == PlainTargets(a)[i];
      } else {
        a, k := EventIsTarget(own[1..], i - |here|);
      }
    } else {
      a, k := EventIsTarget(own[1..], i);
    }
  }

  lemma OneAssignment(a: Located)
    requires AssignsDisplay(a.node)
    ensures |PlainTargets(a)| == |EventsFor(TargetNames(a.node), AssignedValue(a.node))|
  {
    var k := if a.node.kind.targets <= |a.node.children| then a.node.kind.targets else |a.node.children|;
    NamesAlign(Kids(a)[..k], a.node.children[..k], AssignedValue(a.node));
  }

  lemma {:induction false} EventValue(names: seq<string>, value: Node, i: nat)
    requires i < |EventsFor(names, value)|
    ensures EventsFor(names, value)[i].value == value
  {
    if i > 0 { EventValue(names[1..], value, i - 1); }
  }

  /** A name resolves to a display exactly when one target in the scope takes it. */
  lemma ListLiteralsMean(l: Located, name: string, value: Node)
    ensures var own := OwnNodes(Region(l));
      (name in ListLiterals(own) && ListLiterals(own)[name] == value) <==> OnlyDisplay(own, name, value)
  {
    hide Region, OwnNodes, ListLiterals, ListEvents, DisplayTargets;
    var own := OwnNodes(Region(l));
    ListLiteralsMeaning(own, name, value);
    OwnOnce(l);
    DisplayTargetsWithin(own);
    TargetsAlign(own);
    if OnlyEvent(ListEvents(own), name, value) { OnlyEventIsOnlyDisplay(l, name, value); }
    if OnlyDisplay(own, name, value) { OnlyDisplayIsOnlyEvent(l, name, value); }
  }

  lemma OnlyEventIsOnlyDisplay(l: Located, name: string, value: Node)
    requires var own := OwnNodes(Region(l)); OnlyEvent(ListEvents(own), name, value)
    ensures OnlyDisplay(OwnNodes(Region(l)), name, value)
  {
    hide Region, OwnNodes, ListEvents, DisplayTargets;
    var own := OwnNodes(Region(l));
    var es, ts := ListEvents(own), DisplayTargets(own);
    OwnOnce(l);
    TargetsAlign(own);
    var i :| 0 <= i < |es| && es[i] == Event(name, value) && (forall j | 0 <= j < |es| && es[j].name == name :: j == i);
    var a, k := EventIsTarget(own, i);
    forall b, j: nat | b in own && TakesDisplay(b.node, j, name) ensures b == a && j == k {
      TargetListed(own, b, j, name);
      var m :| 0 <= m < |ts| && ts[m] == Kids(b)[j];
      assert m == i;
      SameKid(own, a, k, b, j);
    }
  }

  lemma SameKid(own: seq<Located>, a: Located, k: nat, b: Located, j: nat)
    requires DistinctPaths(own) && a in own && b in own && k < |Kids(a)| && j < |Kids(b)| && Kids(a)[k] == Kids(b)[j]
    ensures a == b && k == j
  {
    var p := Kids(a)[k].path;
    assert p[..|p| - 1] == a.path && p[..|p| - 1] == b.path && p[|p| - 1] == k && p[|p| - 1] == j;
    var x :| 0 <= x < |own| && own[x] == a;
    var y :| 0 <= y < |own| && own[y] == b;
  }

  lemma OnlyDisplayIsOnlyEvent(l: Located, name: string, value: Node)
    requires OnlyDisplay(OwnNodes(Region(l)), name, value)
    ensures OnlyEvent(ListEvents(OwnNodes(Region(l))), name, value)
  {
    hide Region, OwnNodes, ListEvents, DisplayTargets;
    var own := OwnNodes(Region(l));
    var es, ts := ListEvents(own), DisplayTargets(own);
    OwnOnce(l);
    DisplayTargetsWithin(own);
    TargetsAlign(own);
    var a, k: nat :| a in own && TakesDisplay(a.node, k, name) && value == a.node.children[a.node.kind.targets] &&
      forall b, j: nat | b in own && TakesDisplay(b.node, j, name) :: b == a && j == k;
    TargetListed(own, a, k, name);
    var i :| 0 <= i < |ts| && ts[i] == Kids(a)[k];
    var b, m := EventIsTarget(own, i);
    assert es[i].name == name;
    forall j | 0 <= j < |es| && es[j].name == name ensures j == i {
      var c, n := EventIsTarget(own, j);
      assert ts[j] == ts[i];
    }
  }

  // ----- The entry of a scope -----

  /** For every scope of every tree, in plain terms: a name is a client, a fetched object, a
      process or Docker module or a launcher in its entry exactly when it was one outside
      and the scope does not rebind it, or a statement of the scope itself makes it one. */
  lemma EntryMeans(tree: Node, p: Path, name: string)
    requires ScopeAt(tree, p) && ValuesSpelled(OwnNodes(Region(ScopeOf(tree, p))))
    ensures var v, outside, own := Lexical(tree, p), Outside(tree, p), OwnNodes(Region(ScopeOf(tree, p)));
      var kept := name !in Counted(ScopeOf(tree, p));
      (name in v.processModules <==> (kept && name in outside.processModules) || ImportsModule(own, PROCESS_ROOTS, name)) &&
      (name in v.dockerModules <==> (kept && name in outside.dockerModules) || ImportsModule(own, DOCKER_ROOTS, name)) &&
      (name in v.clientNames <==> (kept && name in outside.clientNames) || AssignsClient(own, v.dockerModules, name)) &&
      (name in v.sdkBoundNames <==> (kept && name in outside.sdkBoundNames) || AssignsFetched(own, v.clientNames, name)) &&
      (name in v.launchers <==>
        (kept && name in outside.launchers) || ImportsLauncher(own, name) || AssignsLauncher(own, v.processModules, name))
  {
    hide Region, OwnNodes, Outside, Lexical, NamesBound, ModuleNames, ClientNames, SdkBoundNames, LauncherNames, ListLiterals, ModuleAliases;
    hide ImportsModule, AssignsClient, AssignsFetched, AssignsLauncher, ImportsLauncher, ValuesSpelled;
    LexicalFromOwner(tree, p);
    var v, own := Lexical(tree, p), OwnNodes(Region(ScopeOf(tree, p)));
    ModuleNamesMean(own, PROCESS_ROOTS, name);
    ModuleNamesMean(own, DOCKER_ROOTS, name);
    ClientNamesMean(own, v.dockerModules, name);
    SdkBoundNamesMean(own, v.clientNames, name);
    LauncherNamesMean(own, v.processModules, name);
  }

  /** The same for the displays: a name resolves to the one the scope assigns it once, or to
      the one it had outside, when the scope does not rebind it. */
  lemma DisplayMeans(tree: Node, p: Path, name: string, value: Node)
    requires ScopeAt(tree, p)
    ensures var v, outside, own := Lexical(tree, p).commandLists, Outside(tree, p).commandLists, OwnNodes(Region(ScopeOf(tree, p)));
      (name in v && v[name] == value) <==>
        OnlyDisplay(own, name, value) ||
        ((forall n :: !OnlyDisplay(own, name, n)) && name !in Counted(ScopeOf(tree, p)) && name in outside && outside[name] == value)
  {
    hide Region, OwnNodes, Outside, Lexical, NamesBound, ModuleNames, ClientNames, SdkBoundNames, LauncherNames, ListLiterals, ModuleAliases;
    hide OnlyDisplay;
    LexicalFromOwner(tree, p);
    var l := ScopeOf(tree, p);
    forall n ensures (name in ListLiterals(OwnNodes(Region(l))) && ListLiterals(OwnNodes(Region(l)))[name] == n) <==> OnlyDisplay(OwnNodes(Region(l)), name, n) {
      ListLiteralsMean(l, name, n);
    }
    var literals := ListLiterals(OwnNodes(Region(l)));
    if name in literals { assert OnlyDisplay(OwnNodes(Region(l)), name, literals[name]); }
  }
}
