/** tools/generateMutationInventory.py: which bindings are visible in which scope. */
module ScopeModel {
  import opened PythonTree
  import opened Orders

  datatype Bindings = Bindings(
    commandLists: map<string, Node>,
    clientNames: set<string>,
    sdkBoundNames: set<string>,
    processModules: set<string>,
    launchers: set<string>,
    dockerModules: set<string>,
    moduleAliases: map<string, string>)

  const PROCESS_ROOTS := {"subprocess", "multiprocessing", "pty"}
  const DOCKER_ROOTS := {"docker"}
  const MEMBER_ROOTS := {"os", "asyncio", "concurrent", "sys", "builtins", "socket"}
  const LAUNCHERS := {"run", "Popen", "call", "check_call", "check_output"}
  const CLIENT_CONSTRUCTORS := {"from_env", "DockerClient", "APIClient"}
  const SDK_COLLECTIONS := {"containers", "images", "volumes", "networks", "api"}

  const SEED := Bindings(map[], {"_clientDocker", "docker"}, {}, {"subprocess"}, {}, {"docker"},
                         map s | s in MEMBER_ROOTS :: s)

  // ----- The nodes of one scope -----

  /** The stack after its last node is popped: a nested scope is not entered. */
  function NextStack(stack: seq<Located>): (next: seq<Located>)
    requires stack != []
    ensures StackSize(next) < StackSize(stack)
  {
    var l, rest := stack[|stack| - 1], stack[..|stack| - 1];
    StackSizeLast(stack);
    StackSizeAppend(rest, Kids(l));
    KidsSize(l);
    if IsScope(l.node) then rest else rest + Kids(l)
  }

  /** The nodes of the scope's own body in the order the stack pops them: nested
      scopes appear, but nothing inside them does. */
  function Popped(stack: seq<Located>): seq<Located>
    decreases StackSize(stack)
  {
    if stack == [] then [] else [stack[|stack| - 1]] + Popped(NextStack(stack))
  }

  function StackSize(stack: seq<Located>): nat {
    if stack == [] then 0 else Size(stack[0].node) + StackSize(stack[1..])
  }

  lemma {:induction false} StackSizeAppend(a: seq<Located>, b: seq<Located>)
    ensures StackSize(a + b) == StackSize(a) + StackSize(b)
  {
    if a == [] {
      assert a + b == b;
    } else {
      assert (a + b)[1..] == a[1..] + b;
      StackSizeAppend(a[1..], b);
    }
  }

  lemma StackSizeLast(stack: seq<Located>)
    requires stack != []
    ensures StackSize(stack) == StackSize(stack[..|stack| - 1]) + Size(stack[|stack| - 1].node)
  {
    var rest, last := stack[..|stack| - 1], stack[|stack| - 1];
    assert stack == rest + [last];
    StackSizeAppend(rest, [last]);
    assert [last][1..] == [];
  }

  lemma KidsSize(l: Located)
    ensures StackSize(Kids(l)) == Size(l.node) - 1
  {
    KidsPrefixSize(l, |l.node.children|);
    assert Kids(l)[..|l.node.children|] == Kids(l);
  }

  lemma {:induction false} KidsPrefixSize(l: Located, k: nat)
    requires k <= |l.node.children|
    ensures StackSize(Kids(l)[..k]) == SizeOfChildren(l.node, k)
  {
    if k > 0 {
      KidsPrefixSize(l, k - 1);
      var s := Kids(l)[..k];
      assert s[..k - 1] == Kids(l)[..k - 1];
      StackSizeLast(s);
    }
  }

  lemma NextStackAppend(a: seq<Located>, b: seq<Located>)
    requires b != []
    ensures a + b != [] && NextStack(a + b) == a + NextStack(b)
  {
    var l, rest := b[|b| - 1], b[..|b| - 1];
    assert (a + b)[|a + b| - 1] == l;
    assert (a + b)[..|a + b| - 1] == a + rest;
    assert (a + rest) + Kids(l) == a + (rest + Kids(l));
  }

  lemma {:induction false} PoppedAppend(a: seq<Located>, b: seq<Located>)
    ensures Popped(a + b) == Popped(b) + Popped(a)
    decreases StackSize(b)
  {
    hide StackSize;
    if b == [] {
      assert a + b == a;
    } else {
      hide NextStack;
      var last := b[|b| - 1];
      NextStackAppend(a, b);
      PoppedAppend(a, NextStack(b));
      assert (a + b)[|a + b| - 1] == last;
      Associative([last], Popped(NextStack(b)), Popped(a));
    }
  }

  lemma PoppedNode(l: Located)
    ensures Popped([l]) == [l] + if IsScope(l.node) then [] else Popped(Kids(l))
  {
    assert [l][..0] + Kids(l) == Kids(l);
    assert NextStack([l]) == if IsScope(l.node) then [] else Kids(l);
  }

  function Region(l: Located): seq<Located> { Popped(Kids(l)) }

  function OwnNodes(ls: seq<Located>): seq<Located> {
    if ls == [] then [] else (if IsScope(ls[0].node) then [] else [ls[0]]) + OwnNodes(ls[1..])
  }

  function NestedScopes(ls: seq<Located>): seq<Located> {
    if ls == [] then [] else (if IsScope(ls[0].node) then [ls[0]] else []) + NestedScopes(ls[1..])
  }

  lemma {:induction false} OwnAppend(a: seq<Located>, b: seq<Located>)
    ensures OwnNodes(a + b) == OwnNodes(a) + OwnNodes(b)
  {
    hide IsScope;
    if a == [] {
      assert a + b == b && OwnNodes(a) + OwnNodes(b) == OwnNodes(b);
    } else {
      var s := a + b;
      assert s[0] == a[0] && s[1..] == a[1..] + b;
      OwnAppend(a[1..], b);
      Associative(if IsScope(a[0].node) then [] else [a[0]], OwnNodes(a[1..]), OwnNodes(b));
    }
  }

  lemma {:induction false} NestedAppend(a: seq<Located>, b: seq<Located>)
    ensures NestedScopes(a + b) == NestedScopes(a) + NestedScopes(b)
  {
    hide IsScope;
    if a == [] {
      assert a + b == b && NestedScopes(a) + NestedScopes(b) == NestedScopes(b);
    } else {
      var s := a + b;
      assert s[0] == a[0] && s[1..] == a[1..] + b;
      NestedAppend(a[1..], b);
      Associative(if IsScope(a[0].node) then [a[0]] else [], NestedScopes(a[1..]), NestedScopes(b));
    }
  }

  lemma FilterAppend(a: seq<Located>, b: seq<Located>)
    ensures OwnNodes(a + b) == OwnNodes(a) + OwnNodes(b)
    ensures NestedScopes(a + b) == NestedScopes(a) + NestedScopes(b)
  {
    OwnAppend(a, b);
    NestedAppend(a, b);
  }

  lemma {:induction false} FilterMembers(ls: seq<Located>)
    ensures forall x :: x in OwnNodes(ls) <==> x in ls && !IsScope(x.node)
    ensures forall x :: x in NestedScopes(ls) <==> x in ls && IsScope(x.node)
  {
    if ls != [] {
      FilterMembers(ls[1..]);
      assert ls == [ls[0]] + ls[1..];
    }
  }

  /** The split of one scope into its own nodes and the scopes directly inside it. */
  method SplitScopeNodes(scope: Located) returns (own: seq<Located>, nested: seq<Located>)
    ensures own == OwnNodes(Region(scope)) && nested == NestedScopes(Region(scope))
  {
    own, nested := [], [];
    var pending := Kids(scope);
    while pending != []
      invariant own + OwnNodes(Popped(pending)) == OwnNodes(Region(scope))
      invariant nested + NestedScopes(Popped(pending)) == NestedScopes(Region(scope))
      decreases StackSize(pending)
    {
      var child := pending[|pending| - 1];
      ghost var next := NextStack(pending);
      FilterStep(child, Popped(next), own, nested);
      pending := pending[..|pending| - 1];
      if IsScope(child.node) {
        nested := nested + [child];
      } else {
        own := own + [child];
        pending := pending + Kids(child);
      }
    }
  }

  lemma FilterStep(x: Located, ls: seq<Located>, own: seq<Located>, nested: seq<Located>)
    ensures own + OwnNodes([x] + ls) == (if IsScope(x.node) then own else own + [x]) + OwnNodes(ls)
    ensures nested + NestedScopes([x] + ls) == (if IsScope(x.node) then nested + [x] else nested) + NestedScopes(ls)
  {
    assert ([x] + ls)[1..] == ls;
    Associative(own, [x], OwnNodes(ls));
    Associative(nested, [x], NestedScopes(ls));
    assert [] + OwnNodes(ls) == OwnNodes(ls) && [] + NestedScopes(ls) == NestedScopes(ls);
  }

  // ----- Which nodes belong to which scope -----

  /** The node at relative path `r` is in the body of scope `n`, outside any scope nested in it. */
  predicate InRegion(n: Node, r: Path) {
    r != [] && r[0] < |n.children| &&
    (|r| == 1 || (!IsScope(n.children[r[0]]) && InRegion(n.children[r[0]], r[1..])))
  }

  lemma {:induction false} InRegionIsValid(n: Node, r: Path)
    requires InRegion(n, r)
    ensures ValidPath(n, r)
  {
    if |r| > 1 { InRegionIsValid(n.children[r[0]], r[1..]); }
  }

  predicate StartsWithPath(q: Path, p: Path) { |p| <= |q| && q[..|p|] == p }

  /** `x` is `l` itself, or lies in `l`'s region when `l` is not a scope. */
  ghost predicate ReachedFrom(l: Located, x: Located) {
    StartsWithPath(x.path, l.path) &&
    var r := x.path[|l.path|..];
    ValidPath(l.node, r) && x.node == At(l.node, r) &&
    (r == [] || (!IsScope(l.node) && InRegion(l.node, r)))
  }

  ghost predicate SomeReaches(stack: seq<Located>, x: Located) {
    exists i :: 0 <= i < |stack| && ReachedFrom(stack[i], x)
  }

  lemma SomeReachesAppend(a: seq<Located>, b: seq<Located>, x: Located)
    ensures SomeReaches(a + b, x) <==> SomeReaches(a, x) || SomeReaches(b, x)
  {
    if SomeReaches(a + b, x) {
      var i :| 0 <= i < |a + b| && ReachedFrom((a + b)[i], x);
      assert if i < |a| then ReachedFrom(a[i], x) else ReachedFrom(b[i - |a|], x);
    }
    if SomeReaches(a, x) {
      var i :| 0 <= i < |a| && ReachedFrom(a[i], x);
      assert ReachedFrom((a + b)[i], x);
    }
    if SomeReaches(b, x) {
      var i :| 0 <= i < |b| && ReachedFrom(b[i], x);
      assert ReachedFrom((a + b)[|a| + i], x);
    }
  }

  lemma {:induction false} PoppedMembers(stack: seq<Located>, x: Located)
    ensures x in Popped(stack) <==> SomeReaches(stack, x)
    decreases StackSize(stack)
  {
    if stack != [] {
      PoppedMembers(NextStack(stack), x);
      ReachedStep(stack, x);
    }
  }

  lemma ReachedStep(stack: seq<Located>, x: Located)
    requires stack != []
    ensures SomeReaches(stack, x) <==> x == stack[|stack| - 1] || SomeReaches(NextStack(stack), x)
  {
    hide ReachedFrom, StackSize, Size, Kids, IsScope;
    var l, rest := stack[|stack| - 1], stack[..|stack| - 1];
    ReachedSelfOrKids(l, x);
    assert stack == rest + [l];
    SomeReachesAppend(rest, [l], x);
    SomeReachesAppend(rest, Kids(l), x);
    assert SomeReaches([l], x) <==> ReachedFrom([l][0], x);
  }

  lemma ReachedSelfOrKids(l: Located, x: Located)
    ensures ReachedFrom(l, x) <==>
      x == l || (!IsScope(l.node) && SomeReaches(Kids(l), x))
  {
    if ReachedFrom(l, x) {
      var r := x.path[|l.path|..];
      if r == [] {
        assert x.path == l.path;
      } else {
        var k := Kids(l)[r[0]];
        assert x.path[|k.path|..] == r[1..];
        assert x.path[..|k.path|] == k.path;
        InRegionIsValid(l.node, r);
        assert ReachedFrom(k, x);
      }
    }
    if x == l {
      assert x.path[|l.path|..] == [];
    }
    if !IsScope(l.node) {
      forall i | 0 <= i < |Kids(l)| && ReachedFrom(Kids(l)[i], x) ensures ReachedFrom(l, x) {
        var k := Kids(l)[i];
        var r := x.path[|l.path|..];
        assert x.path[|k.path|..] == r[1..];
        assert x.path[..|l.path|] == k.path[..|l.path|] == l.path;
        assert r[0] == k.path[|l.path|] == i;
      }
    }
  }

  /** `x` names a node of the region of `l`. */
  ghost predicate InRegionOf(l: Located, x: Located) {
    StartsWithPath(x.path, l.path) && ValidPath(l.node, x.path[|l.path|..]) &&
    x.node == At(l.node, x.path[|l.path|..]) && InRegion(l.node, x.path[|l.path|..])
  }

  lemma KidReaches(l: Located, x: Located, i: nat)
    requires i < |Kids(l)| && ReachedFrom(Kids(l)[i], x)
    ensures InRegionOf(l, x)
  {
    var k, r := Kids(l)[i], x.path[|l.path|..];
    assert x.path[..|l.path|] == k.path[..|l.path|] == l.path;
    assert r[0] == k.path[|l.path|] == i;
    assert x.path[|k.path|..] == r[1..];
  }

  lemma ReachedByKid(l: Located, x: Located)
    requires InRegionOf(l, x)
    ensures SomeReaches(Kids(l), x)
  {
    var r := x.path[|l.path|..];
    var k := Kids(l)[r[0]];
    assert x.path[..|k.path|] == k.path;
    assert x.path[|k.path|..] == r[1..];
    assert ReachedFrom(k, x);
  }

  /** A scope's list of nodes holds exactly the nodes of its region. */
  lemma RegionMembers(l: Located, x: Located)
    ensures x in Region(l) <==> InRegionOf(l, x)
  {
    PoppedMembers(Kids(l), x);
    if SomeReaches(Kids(l), x) {
      var i :| 0 <= i < |Kids(l)| && ReachedFrom(Kids(l)[i], x);
      KidReaches(l, x, i);
    }
    if InRegionOf(l, x) { ReachedByKid(l, x); }
  }

  // ----- What one scope binds -----

  function Names(names: seq<string>): set<string> { set s | s in names }

  /** Every name the scope binds: parameters, stores, deletions and imports. */
  function NamesBound(scope: Kind, own: seq<Located>): set<string> {
    (if scope.FunctionDef? || scope.Lambda? then Names(scope.parameters) else {}) + NamesStored(own)
  }

  function NamesStored(own: seq<Located>): set<string> {
    if own == [] then {}
    else
      var k := own[0].node.kind;
      (if k.Name? && !k.ctx.Load? then {k.id} else if k.Alias? then {Root(BoundAs(k))} else {})
      + NamesStored(own[1..])
  }

  /** The local names a plain import gives to the modules whose root is listed. */
  function ImportedNames(aliases: seq<Node>, roots: set<string>): set<string> {
    if aliases == [] then {}
    else
      var k := aliases[0].kind;
      (if k.Alias? && Root(k.name) in roots then {if k.asName != "" then k.asName else Root(k.name)} else {})
      + ImportedNames(aliases[1..], roots)
  }

  function ModuleNames(own: seq<Located>, roots: set<string>): set<string> {
    if own == [] then {}
    else (if own[0].node.kind.Import? then ImportedNames(own[0].node.children, roots) else {})
         + ModuleNames(own[1..], roots)
  }

  predicate IsClientConstructor(value: Node, dockerModules: set<string>) {
    var chain := AttributeChain(value);
    |chain| >= 2 && chain[|chain| - 1] in CLIENT_CONSTRUCTORS && chain[0] in dockerModules
  }

  function ClientNames(own: seq<Located>, dockerModules: set<string>): set<string> {
    if own == [] then {}
    else
      var n := own[0].node;
      (if n.kind.Assign? && AssignedValue(n).kind.Call? && IsClientConstructor(AssignedValue(n), dockerModules)
       then Names(TargetNames(n)) else {})
      + ClientNames(own[1..], dockerModules)
  }

  predicate FetchesFromSdk(value: Node, clients: set<string>) {
    var chain := AttributeChain(value);
    chain != [] && chain[0] in clients && exists s :: s in chain && s in SDK_COLLECTIONS
  }

  function SdkBoundNames(own: seq<Located>, clients: set<string>): set<string> {
    if own == [] then {}
    else
      var n := own[0].node;
      (if n.kind.Assign? && AssignedValue(n).kind.Call? && FetchesFromSdk(AssignedValue(n), clients)
       then Names(TargetNames(n)) else {})
      + SdkBoundNames(own[1..], clients)
  }

  function ImportedLaunchers(aliases: seq<Node>): set<string> {
    if aliases == [] then {}
    else
      (if aliases[0].kind.Alias? && aliases[0].kind.name in LAUNCHERS then {BoundAs(aliases[0].kind)} else {})
      + ImportedLaunchers(aliases[1..])
  }

  predicate IsLauncherReference(value: Node, processModules: set<string>) {
    var chain := AttributeChain(value);
    value.kind.Attribute? && |chain| >= 2 && chain[0] in processModules && chain[|chain| - 1] in LAUNCHERS
  }

  function LauncherNames(own: seq<Located>, processModules: set<string>): set<string> {
    if own == [] then {}
    else
      var n := own[0].node;
      (if n.kind.ImportFrom? && n.kind.level == 0 then
         if n.kind.source == "subprocess" then ImportedLaunchers(n.children) else {}
       else if n.kind.Assign? && IsLauncherReference(AssignedValue(n), processModules) then Names(TargetNames(n))
       else {})
      + LauncherNames(own[1..], processModules)
  }

  function AliasUpdates(aliases: seq<Node>, m: map<string, string>): map<string, string> {
    if aliases == [] then m
    else
      var k := aliases[0].kind;
      AliasUpdates(aliases[1..],
        if k.Alias? && Root(k.name) in MEMBER_ROOTS
        then if k.asName != "" then m[k.asName := k.name] else m[Root(k.name) := Root(k.name)]
        else m)
  }

  /** Later nodes of the list win. The list is in the order of the stack, so this
      is the import written first in the source. */
  function ModuleAliases(own: seq<Located>, m: map<string, string>): map<string, string> {
    if own == [] then m
    else ModuleAliases(own[1..], if own[0].node.kind.Import? then AliasUpdates(own[0].node.children, m) else m)
  }

  datatype Event = Event(name: string, value: Node)

  function EventsFor(names: seq<string>, value: Node): seq<Event> {
    if names == [] then [] else [Event(names[0], value)] + EventsFor(names[1..], value)
  }

  /** The assignments of a list or tuple display to a plain name. */
  function ListEvents(own: seq<Located>): seq<Event> {
    if own == [] then []
    else
      var n := own[0].node;
      (if n.kind.Assign? && AssignedValue(n).kind.Sequence? then EventsFor(TargetNames(n), AssignedValue(n)) else [])
      + ListEvents(own[1..])
  }

  function Assigned(es: seq<Event>): map<string, Node> {
    if es == [] then map[] else Assigned(es[..|es| - 1])[es[|es| - 1].name := es[|es| - 1].value]
  }

  function Reassigned(es: seq<Event>): set<string> {
    if es == [] then {}
    else
      Reassigned(es[..|es| - 1])
      + if es[|es| - 1].name in Assigned(es[..|es| - 1]) then {es[|es| - 1].name} else {}
  }

  function ListLiterals(own: seq<Located>): map<string, Node> {
    Assigned(ListEvents(own)) - Reassigned(ListEvents(own))
  }

  lemma {:induction false} AssignedKeys(es: seq<Event>)
    ensures forall x :: x in Assigned(es) <==> exists i :: 0 <= i < |es| && es[i].name == x
    ensures forall x | x in Assigned(es) :: exists i :: 0 <= i < |es| && es[i] == Event(x, Assigned(es)[x])
  {
    if es != [] {
      var init, e := es[..|es| - 1], es[|es| - 1];
      AssignedKeys(init);
      forall x | x in Assigned(es) ensures exists i :: 0 <= i < |es| && es[i] == Event(x, Assigned(es)[x]) {
        if x == e.name {
          assert es[|es| - 1] == Event(x, Assigned(es)[x]);
        } else {
          assert x in Assigned(init);
          var i :| 0 <= i < |init| && init[i] == Event(x, Assigned(init)[x]);
          assert es[i] == init[i];
        }
      }
      forall x, i | 0 <= i < |es| && es[i].name == x ensures x in Assigned(es) {
        if i < |init| { assert init[i].name == x; }
      }
    }
  }

  lemma {:induction false} ReassignedMeaning(es: seq<Event>)
    ensures forall x :: x in Reassigned(es) <==> exists i, j :: 0 <= i < j < |es| && es[i].name == x == es[j].name
  {
    if es != [] {
      var init, e := es[..|es| - 1], es[|es| - 1];
      ReassignedMeaning(init);
      AssignedKeys(init);
      forall x | x in Reassigned(es) ensures exists i, j :: 0 <= i < j < |es| && es[i].name == x == es[j].name {
        if x in Reassigned(init) {
          var i, j :| 0 <= i < j < |init| && init[i].name == x == init[j].name;
          assert es[i] == init[i] && es[j] == init[j];
        } else {
          var i :| 0 <= i < |init| && init[i].name == x;
          assert es[i] == init[i] && es[|es| - 1].name == x;
        }
      }
      forall x, i, j | 0 <= i < j < |es| && es[i].name == x == es[j].name ensures x in Reassigned(es) {
        assert init[i].name == x;
        if j < |init| { assert init[j].name == x; }
      }
    }
  }

  ghost predicate OnlyEvent(es: seq<Event>, name: string, value: Node) {
    exists i :: 0 <= i < |es| && es[i] == Event(name, value) &&
                (forall j | 0 <= j < |es| && es[j].name == name :: j == i)
  }

  /** A name is readable exactly when one assignment of the scope gives it a display. */
  lemma ListLiteralsMeaning(own: seq<Located>, name: string, value: Node)
    ensures (name in ListLiterals(own) && ListLiterals(own)[name] == value) <==> OnlyEvent(ListEvents(own), name, value)
  {
    var es := ListEvents(own);
    AssignedKeys(es);
    ReassignedMeaning(es);
    if name in ListLiterals(own) && ListLiterals(own)[name] == value {
      var i :| 0 <= i < |es| && es[i] == Event(name, value);
      assert forall j | 0 <= j < |es| && es[j].name == name :: j == i;
    }
    if OnlyEvent(es, name, value) {
      var i :| 0 <= i < |es| && es[i] == Event(name, value) &&
               (forall j | 0 <= j < |es| && es[j].name == name :: j == i);
      assert es[i].name == name;
      var k :| 0 <= k < |es| && es[k] == Event(name, Assigned(es)[name]);
      assert es[k].name == name;
    }
  }

  lemma {:induction false} ListEventsAppend(a: seq<Located>, b: seq<Located>)
    ensures ListEvents(a + b) == ListEvents(a) + ListEvents(b)
  {
    if a == [] {
      assert a + b == b;
    } else {
      assert (a + b)[1..] == a[1..] + b;
      ListEventsAppend(a[1..], b);
    }
  }

  lemma TakeTail<T>(s: seq<T>, k: nat)
    requires 1 <= k <= |s|
    ensures s[..k][1..] == s[1..][..k - 1]
  {
  }

  lemma {:induction false} EventsForPrefix(names: seq<string>, value: Node, k: nat)
    requires k < |names|
    ensures EventsFor(names[..k + 1], value) == EventsFor(names[..k], value) + [Event(names[k], value)]
  {
    if k > 0 {
      TakeTail(names, k + 1);
      TakeTail(names, k);
      EventsForPrefix(names[1..], value, k - 1);
    }
  }

  lemma EventStep(es: seq<Event>, e: Event)
    ensures Assigned(es + [e]) == Assigned(es)[e.name := e.value]
    ensures Reassigned(es + [e]) == Reassigned(es) + if e.name in Assigned(es) then {e.name} else {}
  {
    assert (es + [e])[..|es + [e]| - 1] == es;
  }

  lemma ListEventsStep(own: seq<Located>, i: nat)
    requires i < |own|
    ensures ListEvents(own[..i + 1]) == ListEvents(own[..i]) +
      var n := own[i].node;
      if n.kind.Assign? && AssignedValue(n).kind.Sequence? then EventsFor(TargetNames(n), AssignedValue(n)) else []
  {
    assert own[..i + 1] == own[..i] + [own[i]] && [own[i]][1..] == [];
    ListEventsAppend(own[..i], [own[i]]);
  }

  /** The source's inner loop over one assignment's targets. */
  method RecordTargets(names: seq<string>, value: Node, values: map<string, Node>, repeated: set<string>,
                       ghost es: seq<Event>) returns (values': map<string, Node>, repeated': set<string>)
    requires values == Assigned(es) && repeated == Reassigned(es)
    ensures values' == Assigned(es + EventsFor(names, value))
    ensures repeated' == Reassigned(es + EventsFor(names, value))
  {
    values', repeated' := values, repeated;
    assert names[..0] == [] && es + [] == es;
    for k := 0 to |names|
      invariant values' == Assigned(es + EventsFor(names[..k], value))
      invariant repeated' == Reassigned(es + EventsFor(names[..k], value))
    {
      hide Assigned, Reassigned;
      EventsForPrefix(names, value, k);
      EventStep(es + EventsFor(names[..k], value), Event(names[k], value));
      Associative(es, EventsFor(names[..k], value), [Event(names[k], value)]);
      if names[k] in values' { repeated' := repeated' + {names[k]}; }
      values' := values'[names[k] := value];
    }
    assert names[..|names|] == names;
  }

  /** The source's outer loop over the scope's nodes, with its two accumulators. */
  method CollectListLiterals(own: seq<Located>) returns (literals: map<string, Node>)
    ensures literals == ListLiterals(own)
  {
    var values: map<string, Node>, repeated: set<string> := map[], {};
    for i := 0 to |own|
      invariant values == Assigned(ListEvents(own[..i])) && repeated == Reassigned(ListEvents(own[..i]))
    {
      hide Assigned, Reassigned, ListEvents;
      ListEventsStep(own, i);
      assert ListEvents(own[..i]) + [] == ListEvents(own[..i]);
      var n := own[i].node;
      if n.kind.Assign? && AssignedValue(n).kind.Sequence? {
        values, repeated := RecordTargets(TargetNames(n), AssignedValue(n), values, repeated, ListEvents(own[..i]));
      }
    }
    assert own[..|own|] == own;
    literals := values - repeated;
  }

  /** The inherited bindings, shadowed and extended by one scope. */
  function Visible(scope: Kind, own: seq<Located>, inherited: Bindings): Bindings {
    var rebound := NamesBound(scope, own);
    var processModules := (inherited.processModules - rebound) + ModuleNames(own, PROCESS_ROOTS);
    var dockerModules := (inherited.dockerModules - rebound) + ModuleNames(own, DOCKER_ROOTS);
    var clients := (inherited.clientNames - rebound) + ClientNames(own, dockerModules);
    Bindings(
      (inherited.commandLists - rebound) + ListLiterals(own),
      clients,
      (inherited.sdkBoundNames - rebound) + SdkBoundNames(own, clients),
      processModules,
      (inherited.launchers - rebound) + LauncherNames(own, processModules),
      dockerModules,
      (inherited.moduleAliases - rebound) + ModuleAliases(own, map[]))
  }

  function VisibleIn(l: Located, inherited: Bindings): Bindings {
    Visible(l.node.kind, OwnNodes(Region(l)), inherited)
  }

  /** A class body's names are invisible to its methods. */
  function PassedOn(n: Node, inherited: Bindings, visible: Bindings): Bindings {
    if n.kind.ClassDef? then inherited else visible
  }
}
