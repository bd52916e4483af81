/** Two consequences of the scope model: the scopes' bodies partition the tree, and
    what is visible in a scope does not depend on the inside of any unrelated scope. */
module ScopeTheorems {
  import opened PythonTree
  import opened ScopeModel
  import opened LexicalScopes

  // ----- Every node belongs to exactly one scope -----

  /** The innermost scope strictly above the node at `r`. */
  function Owner(n: Node, r: Path): (o: Path)
    requires r != [] && ValidPath(n, r)
    ensures |o| < |r| && r[..|o|] == o && ScopeAt(n, o)
    ensures InRegion(At(n, o), r[|o|..])
  {
    var c := n.children[r[0]];
    if |r| == 1 then []
    else
      var o := Owner(c, r[1..]);
      if o == [] && !IsScope(c) then [] else
        assert ([r[0]] + o)[1..] == o && r[|o| + 1..] == r[1..][|o|..];
        [r[0]] + o
  }

  lemma {:induction false} OwnerIsUnique(n: Node, r: Path, p: Path)
    requires r != [] && ValidPath(n, r)
    requires ScopeAt(n, p) && StartsWithPath(r, p) && InRegion(At(n, p), r[|p|..])
    ensures p == Owner(n, r)
  {
    var c := n.children[r[0]];
    if p == [] {
      NoScopeAbove(n, r);
    } else {
      assert p[0] == r[0];
      assert r[1..][..|p| - 1] == p[1..] && r[1..][|p| - 1..] == r[|p|..];
      OwnerIsUnique(c, r[1..], p[1..]);
      assert p == [p[0]] + p[1..];
      if p[1..] == [] { assert At(n, p) == c; }
    }
  }

  lemma {:induction false} NoScopeAbove(n: Node, r: Path)
    requires InRegion(n, r) && ValidPath(n, r)
    ensures Owner(n, r) == []
  {
    if |r| > 1 { NoScopeAbove(n.children[r[0]], r[1..]); }
  }

  /** Every node other than the module is listed by exactly one scope. */
  lemma RegionsPartition(tree: Node, r: Path, p: Path)
    requires r != [] && ValidPath(tree, r) && ScopeAt(tree, p)
    ensures Child(Located([], tree), r) in Region(Child(Located([], tree), p)) <==> p == Owner(tree, r)
  {
    hide Owner, Region;
    var scope, x := Located(p, At(tree, p)), Located(r, At(tree, r));
    assert [] + p == p && [] + r == r;
    RegionMembers(scope, x);
    if InRegionOf(scope, x) { OwnerIsUnique(tree, r, p); }
    if p == Owner(tree, r) { OwnedByOwner(tree, r); }
  }

  lemma OwnedByOwner(tree: Node, r: Path)
    requires r != [] && ValidPath(tree, r)
    ensures InRegionOf(Located(Owner(tree, r), At(tree, Owner(tree, r))), Located(r, At(tree, r)))
  {
    hide Owner, IsScope, ScopeAt, InRegion, At;
    var p := Owner(tree, r);
    OwnerIsPrefix(tree, r);
    AtSuffix(tree, p, r[|p|..]);
    RegionOfOwner(tree, r, p);
  }

  lemma OwnerIsPrefix(tree: Node, r: Path)
    requires r != [] && ValidPath(tree, r)
    ensures var p := Owner(tree, r); |p| <= |r| && r == p + r[|p|..] && ValidPath(tree, p) && InRegion(At(tree, p), r[|p|..])
  {
    hide Owner, IsScope, InRegion, At;
  }

  lemma RegionOfOwner(tree: Node, r: Path, p: Path)
    requires ValidPath(tree, p) && ValidPath(tree, r) && |p| <= |r| && r == p + r[|p|..]
    requires InRegion(At(tree, p), r[|p|..]) && ValidPath(At(tree, p), r[|p|..])
    requires At(At(tree, p), r[|p|..]) == At(tree, r)
    ensures InRegionOf(Located(p, At(tree, p)), Located(r, At(tree, r)))
  {
    hide InRegion, At, ValidPath;
  }

  lemma {:induction false} AtSuffix(n: Node, p: Path, q: Path)
    requires ValidPath(n, p + q) && ValidPath(n, p)
    ensures ValidPath(At(n, p), q) && At(At(n, p), q) == At(n, p + q)
  {
    if p == [] {
      assert p + q == q;
    } else {
      assert (p + q)[0] == p[0] && (p + q)[1..] == p[1..] + q;
      AtSuffix(n.children[p[0]], p[1..], q);
    }
  }

  // ----- Visibility is local -----

  /** The two nodes differ at most inside nested scopes. */
  ghost predicate SameOutside(a: Node, b: Node) {
    if IsScope(a) then IsScope(b)
    else a.kind == b.kind && |a.children| == |b.children| &&
         forall i | 0 <= i < |a.children| :: SameOutside(a.children[i], b.children[i])
  }

  ghost predicate SameLists(a: seq<Located>, b: seq<Located>) {
    |a| == |b| && forall i | 0 <= i < |a| :: a[i].path == b[i].path && SameOutside(a[i].node, b[i].node)
  }

  ghost predicate SameNodes(a: seq<Node>, b: seq<Node>) {
    |a| == |b| && forall i | 0 <= i < |a| :: SameOutside(a[i], b[i])
  }

  lemma {:induction false} SamePopped(a: seq<Located>, b: seq<Located>)
    requires SameLists(a, b)
    ensures SameLists(Popped(a), Popped(b))
    decreases StackSize(a)
  {
    hide StackSize, NextStack, SameOutside;
    if a != [] {
      SameNext(a, b);
      SamePopped(NextStack(a), NextStack(b));
    }
  }

  lemma SameKids(k: Located, m: Located)
    requires k.path == m.path && SameOutside(k.node, m.node)
    ensures IsScope(k.node) <==> IsScope(m.node)
    ensures !IsScope(k.node) ==> SameLists(Kids(k), Kids(m))
  {
  }

  lemma SameNext(a: seq<Located>, b: seq<Located>)
    requires a != [] && SameLists(a, b)
    ensures SameLists(NextStack(a), NextStack(b))
  {
    hide StackSize, Size, Kids, SameOutside, IsScope;
    SameKids(a[|a| - 1], b[|b| - 1]);
  }

  lemma {:induction false} SameOwn(a: seq<Located>, b: seq<Located>)
    requires SameLists(a, b)
    ensures SameLists(OwnNodes(a), OwnNodes(b))
  {
    if a != [] {
      SameOwn(a[1..], b[1..]);
      assert IsScope(a[0].node) <==> IsScope(b[0].node);
    }
  }

  lemma {:induction false} SameChain(a: Node, b: Node)
    requires SameOutside(a, b)
    ensures AttributeChain(a) == AttributeChain(b)
  {
    if !IsScope(a) && a.children != [] && (a.kind.Attribute? || a.kind.Call?) {
      SameChain(a.children[0], b.children[0]);
    }
  }

  lemma {:induction false} SameNamesOf(a: seq<Node>, b: seq<Node>)
    requires SameNodes(a, b)
    ensures NamesOf(a) == NamesOf(b)
  {
    if a != [] { SameNamesOf(a[1..], b[1..]); }
  }

  lemma SameAssignment(a: Node, b: Node)
    requires a.kind.Assign? && SameOutside(a, b)
    ensures b.kind.Assign? && TargetNames(a) == TargetNames(b) && SameOutside(AssignedValue(a), AssignedValue(b))
    ensures AttributeChain(AssignedValue(a)) == AttributeChain(AssignedValue(b))
  {
    var k := if a.kind.targets <= |a.children| then a.kind.targets else |a.children|;
    SameNamesOf(a.children[..k], b.children[..k]);
    SameChain(AssignedValue(a), AssignedValue(b));
  }

  /** The kinds the import readers look at are the same on both sides. */
  lemma {:induction false} SameImports(a: seq<Node>, b: seq<Node>, roots: set<string>, m: map<string, string>)
    requires SameNodes(a, b)
    ensures ImportedNames(a, roots) == ImportedNames(b, roots)
    ensures ImportedLaunchers(a) == ImportedLaunchers(b)
    ensures AliasUpdates(a, m) == AliasUpdates(b, m)
  {
    if a != [] {
      var k := a[0].kind;
      assert k.Alias? || b[0].kind.Alias? ==> k == b[0].kind;
      SameImports(a[1..], b[1..], roots,
        if k.Alias? && Root(k.name) in MEMBER_ROOTS
        then if k.asName != "" then m[k.asName := k.name] else m[Root(k.name) := Root(k.name)]
        else m);
    }
  }

  lemma {:induction false} SameImportSets(a: seq<Located>, b: seq<Located>, s: set<string>)
    requires SameLists(a, b)
    ensures NamesStored(a) == NamesStored(b)
    ensures ModuleNames(a, s) == ModuleNames(b, s)
  {
    if a != [] {
      var x, y := a[0].node, b[0].node;
      SameImportSets(a[1..], b[1..], s);
      if x.kind.Import? { SameImports(x.children, y.children, s, map[]); }
      assert if IsScope(x) then IsScope(y) else x.kind == y.kind;
    }
  }

  lemma {:induction false} SameOrigins(a: seq<Located>, b: seq<Located>, s: set<string>)
    requires SameLists(a, b)
    ensures ClientNames(a, s) == ClientNames(b, s)
    ensures SdkBoundNames(a, s) == SdkBoundNames(b, s)
  {
    if a != [] {
      var x, y := a[0].node, b[0].node;
      SameOrigins(a[1..], b[1..], s);
      assert if IsScope(x) then IsScope(y) else x.kind == y.kind;
      if x.kind.Assign? { SameAssignment(x, y); SameKindOfValue(x, y); }
    }
  }

  lemma {:induction false} SameLaunchers(a: seq<Located>, b: seq<Located>, s: set<string>)
    requires SameLists(a, b)
    ensures LauncherNames(a, s) == LauncherNames(b, s)
  {
    if a != [] {
      var x, y := a[0].node, b[0].node;
      SameLaunchers(a[1..], b[1..], s);
      assert if IsScope(x) then IsScope(y) else x.kind == y.kind;
      if x.kind.Assign? { SameAssignment(x, y); SameKindOfValue(x, y); }
      if x.kind.ImportFrom? { SameImports(x.children, y.children, s, map[]); }
    }
  }

  lemma SameKindOfValue(a: Node, b: Node)
    requires a.kind.Assign? && SameOutside(a, b)
    ensures var v, w := AssignedValue(a).kind, AssignedValue(b).kind;
      (v.Call? <==> w.Call?) && (v.Attribute? <==> w.Attribute?) && (v.Sequence? <==> w.Sequence?)
  {
    SameAssignment(a, b);
  }

  lemma {:induction false} SameAliases(a: seq<Located>, b: seq<Located>, m: map<string, string>)
    requires SameLists(a, b)
    ensures ModuleAliases(a, m) == ModuleAliases(b, m)
  {
    if a != [] {
      var x, y := a[0].node, b[0].node;
      if x.kind.Import? {
        SameImports(x.children, y.children, {}, m);
      }
      assert x.kind.Import? <==> y.kind.Import?;
      SameAliases(a[1..], b[1..], if x.kind.Import? then AliasUpdates(x.children, m) else m);
    }
  }

  ghost predicate SameEvents(a: seq<Event>, b: seq<Event>) {
    |a| == |b| && forall i | 0 <= i < |a| :: a[i].name == b[i].name && SameOutside(a[i].value, b[i].value)
  }

  lemma {:induction false} SameEventsFor(names: seq<string>, v: Node, w: Node)
    requires SameOutside(v, w)
    ensures SameEvents(EventsFor(names, v), EventsFor(names, w))
  {
    if names != [] { SameEventsFor(names[1..], v, w); }
  }

  lemma {:induction false} SameListEvents(a: seq<Located>, b: seq<Located>)
    requires SameLists(a, b)
    ensures SameEvents(ListEvents(a), ListEvents(b))
  {
    if a != [] {
      var x, y := a[0].node, b[0].node;
      SameListEvents(a[1..], b[1..]);
      assert x.kind.Assign? <==> y.kind.Assign?;
      if x.kind.Assign? {
        SameAssignment(x, y);
        SameKindOfValue(x, y);
        SameEventsFor(TargetNames(x), AssignedValue(x), AssignedValue(y));
      }
    }
  }

  ghost predicate SameMaps(a: map<string, Node>, b: map<string, Node>) {
    a.Keys == b.Keys && forall k | k in a :: SameOutside(a[k], b[k])
  }

  lemma {:induction false} SameAssigned(a: seq<Event>, b: seq<Event>)
    requires SameEvents(a, b)
    ensures SameMaps(Assigned(a), Assigned(b)) && Reassigned(a) == Reassigned(b)
  {
    if a != [] { SameAssigned(a[..|a| - 1], b[..|b| - 1]); }
  }

  /** Equal bindings, except that a readable argument vector may differ inside lambdas. */
  ghost predicate SameBindings(a: Bindings, b: Bindings) {
    SameMaps(a.commandLists, b.commandLists) && a == b.(commandLists := a.commandLists)
  }

  lemma SameVisible(scope: Kind, a: seq<Located>, b: seq<Located>, x: Bindings, y: Bindings)
    requires SameLists(a, b) && SameBindings(x, y)
    ensures SameBindings(Visible(scope, a, x), Visible(scope, b, y))
  {
    SameImportSets(a, b, PROCESS_ROOTS);
    SameImportSets(a, b, DOCKER_ROOTS);
    SameLaunchers(a, b, Visible(scope, a, x).processModules);
    SameOrigins(a, b, Visible(scope, a, x).dockerModules);
    SameOrigins(a, b, Visible(scope, a, x).clientNames);
    SameAliases(a, b, map[]);
    SameListEvents(a, b);
    SameAssigned(ListEvents(a), ListEvents(b));
  }

  /** `b` differs from `a` only inside scopes that do not lie on `p`. */
  ghost predicate SameBodiesAlong(a: Node, b: Node, p: Path) {
    a.kind == b.kind && SameNodes(a.children, b.children) &&
    (p != [] && p[0] < |a.children| ==> SameBodiesBelow(a.children[p[0]], b.children[p[0]], p[1..]))
  }

  ghost predicate SameBodiesBelow(a: Node, b: Node, p: Path)
    decreases p
  {
    if IsScope(a) then a.kind == b.kind && SameNodes(a.children, b.children) &&
      (p != [] && p[0] < |a.children| ==> SameBodiesBelow(a.children[p[0]], b.children[p[0]], p[1..]))
    else p != [] && p[0] < |a.children| && |a.children| == |b.children| ==>
      SameBodiesBelow(a.children[p[0]], b.children[p[0]], p[1..])
  }

  lemma SameVisibleIn(l: Located, m: Located, x: Bindings, y: Bindings)
    requires l.path == m.path && l.node.kind == m.node.kind && SameNodes(l.node.children, m.node.children)
    requires SameBindings(x, y)
    ensures SameBindings(VisibleIn(l, x), VisibleIn(m, y))
  {
    SamePopped(Kids(l), Kids(m));
    SameOwn(Region(l), Region(m));
    SameVisible(l.node.kind, OwnNodes(Region(l)), OwnNodes(Region(m)), x, y);
  }

  lemma {:induction false} SameBelow(l: Located, m: Located, x: Bindings, y: Bindings, r: Path)
    requires l.path == m.path && SameOutside(l.node, m.node) && SameBodiesBelow(l.node, m.node, r)
    requires SameBindings(x, y)
    requires ValidPath(l.node, r) && IsScope(At(l.node, r))
    ensures ValidPath(m.node, r) && IsScope(At(m.node, r))
    ensures SameBindings(Below(l, x, r), Below(m, y, r))
    decreases |r|, 1
  {
    hide VisibleIn;
    if IsScope(l.node) {
      SameVisibleIn(l, m, x, y);
      if r != [] {
        SameBelow(Kids(l)[r[0]], Kids(m)[r[0]], Handed(l, x), Handed(m, y), r[1..]);
      }
    } else {
      SameBelow(Kids(l)[r[0]], Kids(m)[r[0]], x, y, r[1..]);
    }
  }

  /** Editing the inside of scopes off the path to `p` never changes what is visible at `p`. */
  lemma SiblingsDoNotMatter(a: Node, b: Node, p: Path)
    requires SameBodiesAlong(a, b, p) && ScopeAt(a, p)
    ensures ScopeAt(b, p) && SameBindings(Lexical(a, p), Lexical(b, p))
  {
    hide VisibleIn;
    var l, m := Located([], a), Located([], b);
    assert SameBindings(SEED, SEED) by { assert SEED.commandLists == map[]; }
    SameVisibleIn(l, m, SEED, SEED);
    if p != [] {
      SameBelow(Kids(l)[p[0]], Kids(m)[p[0]], Handed(l, SEED), Handed(m, SEED), p[1..]);
    }
  }
}
