/** The visitor enters definitions and classes but no lambdas, while the scope model
    gives every lambda an entry: when a call is still judged with its own bindings. */
module LambdaScopes {
  import opened Numerals
  import opened Orders
  import opened PythonTree
  import opened ScopeModel
  import opened LexicalScopes
  import opened ScopeTheorems
  import opened CallSites

  const TOP := Position([], "<module>")

  /** The scope whose bindings the visitor consults at the node `r`. */
  function Standing(tree: Node, r: Path): Path
    requires ValidPath(tree, r)
  {
    StandingAt(Located([], tree), TOP, r).scope
  }

  predicate IsLambdaAt(n: Node, o: Path)
    requires ValidPath(n, o)
  {
    o != [] && At(n, o).kind.Lambda?
  }

  /** Where the visitor stands, told from the innermost scope. */
  ghost predicate StandsByOwner(l: Located, at: Position, r: Path)
    requires r != [] && ValidPath(l.node, r)
  {
    var o := Owner(l.node, r);
    StandingAt(l, at, r).scope ==
      if o == [] then Inside(l, at).scope
      else if IsLambdaAt(l.node, o) then StandingAt(l, at, o).scope
      else l.path + o
  }

  lemma {:induction false} StandsBelowOwner(l: Located, at: Position, r: Path)
    requires r != [] && ValidPath(l.node, r)
    ensures StandsByOwner(l, at, r)
    decreases |r|
  {
    if |r| > 1 {
      var kid := Kids(l)[r[0]];
      StandsBelowOwner(kid, Inside(l, at), r[1..]);
      if Owner(kid.node, r[1..]) == [] { OwnedByKid(l, at, r); } else { OwnedDeeper(l, at, r); }
    }
  }

  lemma OwnedByKid(l: Located, at: Position, r: Path)
    requires |r| > 1 && ValidPath(l.node, r) && Owner(Kids(l)[r[0]].node, r[1..]) == []
    requires StandsByOwner(Kids(l)[r[0]], Inside(l, at), r[1..])
    ensures StandsByOwner(l, at, r)
  {
    var kid := Kids(l)[r[0]];
    var up := [r[0]] + [];
    assert up == [r[0]] && up[1..] == [];
    assert IsScope(kid.node) ==> Owner(l.node, r) == up && At(l.node, up) == kid.node;
    assert StandingAt(l, at, r) == StandingAt(kid, Inside(l, at), r[1..]);
    assert StandingAt(l, at, up) == StandingAt(kid, Inside(l, at), []);
  }

  lemma StandingStep(l: Located, at: Position, i: nat, q: Path)
    requires ValidPath(l.node, [i] + q)
    ensures i < |l.node.children| && ValidPath(Kids(l)[i].node, q)
    ensures StandingAt(l, at, [i] + q) == StandingAt(Kids(l)[i], Inside(l, at), q)
    ensures At(l.node, [i] + q) == At(Kids(l)[i].node, q)
  {
    hide Inside;
    assert ([i] + q)[0] == i && ([i] + q)[1..] == q;
  }

  lemma OwnerStep(n: Node, r: Path)
    requires |r| > 1 && ValidPath(n, r) && Owner(n.children[r[0]], r[1..]) != []
    ensures Owner(n, r) == [r[0]] + Owner(n.children[r[0]], r[1..])
  {
  }

  lemma OwnedDeeper(l: Located, at: Position, r: Path)
    requires |r| > 1 && ValidPath(l.node, r) && Owner(Kids(l)[r[0]].node, r[1..]) != []
    requires StandsByOwner(Kids(l)[r[0]], Inside(l, at), r[1..])
    ensures StandsByOwner(l, at, r)
  {
    hide IsScope, Inside, Owner, StandingAt, At, ValidPath, InRegion;
    var i, q := r[0], r[1..];
    assert r == [i] + q;
    StandingStep(l, at, i, q);
    OwnerStep(l.node, r);
    var kid := Kids(l)[i];
    var o := Owner(kid.node, q);
    StandingStep(l, at, i, o);
    assert IsLambdaAt(l.node, [i] + o) <==> IsLambdaAt(kid.node, o);
    Associative(l.path, [i], o);
    assert kid.path == l.path + [i];
  }

  lemma {:induction false} StandsAbove(tree: Node, r: Path)
    requires r != [] && ValidPath(tree, r)
    ensures |Standing(tree, r)| < |r|
    decreases |r|
  {
    StandsBelowOwner(Located([], tree), TOP, r);
    var o := Owner(tree, r);
    if IsLambdaAt(tree, o) { StandsAbove(tree, o); }
  }

  /** The visitor stands in the innermost scope exactly when that scope is no lambda;
      in a lambda it stands where the lambda itself stands. */
  lemma StandsInOwner(tree: Node, r: Path)
    requires r != [] && ValidPath(tree, r)
    ensures Standing(tree, r) == Owner(tree, r) <==> !IsLambdaAt(tree, Owner(tree, r))
    ensures IsLambdaAt(tree, Owner(tree, r)) ==> Standing(tree, r) == Standing(tree, Owner(tree, r))
  {
    var o := Owner(tree, r);
    StandsBelowOwner(Located([], tree), TOP, r);
    assert [] + o == o;
    if IsLambdaAt(tree, o) { StandsAbove(tree, o); }
  }

  // ----- Lexical scoping, from a scope to its owner -----

  function ScopeOf(tree: Node, p: Path): Located
    requires ValidPath(tree, p)
  {
    Located(p, At(tree, p))
  }

  /** What a scope inherits: what its owner hands on. */
  function Outside(tree: Node, p: Path): Bindings
    requires ScopeAt(tree, p)
    decreases |p|, 0
  {
    if p == [] then SEED else HandedBy(tree, Owner(tree, p))
  }

  function HandedBy(tree: Node, p: Path): Bindings
    requires ScopeAt(tree, p)
    decreases |p|, 1
  {
    Handed(ScopeOf(tree, p), Outside(tree, p))
  }

  lemma {:induction false} EntersAt(tree: Node, o: Path, q: Path)
    requires ScopeAt(tree, o) && ScopeAt(At(tree, o), q) && ScopeAt(tree, o + q)
    ensures Lexical(tree, o + q) == Enter(ScopeOf(tree, o), Outside(tree, o), q)
    decreases |o|
  {
    hide VisibleIn, Handed, Enter, Owner;
    if o == [] {
      assert o + q == q;
    } else {
      var up := Owner(tree, o);
      var step := o[|up|..];
      OwnedByOwner(tree, o);
      OwnerIsPrefix(tree, o);
      AtSuffix(tree, up, step);
      var l := ScopeOf(tree, up);
      EnterThrough(l, Outside(tree, up), step, q);
      assert up + (step + q) == o + q;
      assert Child(l, step) == ScopeOf(tree, o);
      EntersAt(tree, up, step + q);
    }
  }

  /** Every scope sees what its owner hands on, shadowed and extended by itself. */
  lemma LexicalFromOwner(tree: Node, p: Path)
    requires ScopeAt(tree, p)
    ensures Lexical(tree, p) == VisibleIn(ScopeOf(tree, p), Outside(tree, p))
  {
    hide VisibleIn;
    assert p + [] == p;
    EntersAt(tree, p, []);
  }

  // ----- What a lambda changes -----

  /** The bindings less some names. */
  function Without(b: Bindings, names: set<string>): Bindings {
    Bindings(b.commandLists - names, b.clientNames - names, b.sdkBoundNames - names, b.processModules - names,
             b.launchers - names, b.dockerModules - names, b.moduleAliases - names)
  }

  /** Every name the bindings say something about. */
  function Tracked(b: Bindings): set<string> {
    b.commandLists.Keys + b.clientNames + b.sdkBoundNames + b.processModules + b.launchers + b.dockerModules +
    b.moduleAliases.Keys
  }

  lemma WithoutTwice(b: Bindings, s: set<string>, t: set<string>)
    ensures Without(Without(b, s), t) == Without(b, s + t)
  {
    assert b.commandLists - s - t == b.commandLists - (s + t);
    assert b.moduleAliases - s - t == b.moduleAliases - (s + t);
    assert b.clientNames - s - t == b.clientNames - (s + t);
    assert b.sdkBoundNames - s - t == b.sdkBoundNames - (s + t);
    assert b.processModules - s - t == b.processModules - (s + t);
    assert b.launchers - s - t == b.launchers - (s + t);
    assert b.dockerModules - s - t == b.dockerModules - (s + t);
  }

  lemma WithoutNothingTracked(b: Bindings, names: set<string>)
    ensures Without(b, names) == b <==> names !! Tracked(b)
  {
    if names !! Tracked(b) {
      assert b.commandLists - names == b.commandLists && b.moduleAliases - names == b.moduleAliases;
      assert b.clientNames - names == b.clientNames && b.sdkBoundNames - names == b.sdkBoundNames;
      assert b.processModules - names == b.processModules && b.launchers - names == b.launchers;
      assert b.dockerModules - names == b.dockerModules;
    }
    if Without(b, names) == b {
      forall x | x in names ensures x !in Tracked(b) {
        assert x !in (b.commandLists - names).Keys && x !in (b.moduleAliases - names).Keys;
      }
    }
  }

  /** A lambda's body is an expression: no assignment and no import stands in it. */
  ghost predicate OnlyExpressions(own: seq<Located>) {
    forall x | x in own :: !x.node.kind.Assign? && !x.node.kind.Import? && !x.node.kind.ImportFrom?
  }

  lemma {:induction false} ExpressionsGiveNothing(own: seq<Located>, s: set<string>, m: map<string, string>)
    requires OnlyExpressions(own)
    ensures ModuleNames(own, s) == {} && ClientNames(own, s) == {} && SdkBoundNames(own, s) == {}
    ensures LauncherNames(own, s) == {} && ModuleAliases(own, m) == m && ListEvents(own) == []
  {
    if own != [] {
      assert own[0] in own;
      assert forall x | x in own[1..] :: x in own;
      ExpressionsGiveNothing(own[1..], s, m);
    }
  }

  lemma ExpressionsOnlyShadow(scope: Kind, own: seq<Located>, inherited: Bindings)
    requires OnlyExpressions(own)
    ensures Visible(scope, own, inherited) == Without(inherited, NamesBound(scope, own))
  {
    var names := NamesBound(scope, own);
    var v := Visible(scope, own, inherited);
    ExpressionsGiveNothing(own, PROCESS_ROOTS, map[]);
    ExpressionsGiveNothing(own, DOCKER_ROOTS, map[]);
    ExpressionsGiveNothing(own, v.dockerModules, map[]);
    ExpressionsGiveNothing(own, v.clientNames, map[]);
    ExpressionsGiveNothing(own, v.processModules, map[]);
    assert ListLiterals(own) == map[];
    assert (inherited.commandLists - names) + map[] == inherited.commandLists - names;
    assert (inherited.moduleAliases - names) + map[] == inherited.moduleAliases - names;
  }

  // ----- The bindings a call in a lambda is judged with -----

  /** The names bound by the lambdas between a node and the definition it stands in. */
  function LambdaNames(tree: Node, r: Path): set<string>
    requires ValidPath(tree, r)
    decreases |r|
  {
    if r == [] || !IsLambdaAt(tree, Owner(tree, r)) then {}
    else
      var o := Owner(tree, r);
      LambdaNames(tree, o) + NamesBound(At(tree, o).kind, OwnNodes(Region(ScopeOf(tree, o))))
  }

  /** Every lambda around the node holds expressions only. */
  ghost predicate LambdasAreExpressions(tree: Node, r: Path)
    requires ValidPath(tree, r)
    decreases |r|
  {
    r != [] && IsLambdaAt(tree, Owner(tree, r)) ==>
      OnlyExpressions(OwnNodes(Region(ScopeOf(tree, Owner(tree, r))))) && LambdasAreExpressions(tree, Owner(tree, r))
  }

  lemma {:induction false} StandingScope(tree: Node, r: Path)
    requires ValidPath(tree, r)
    ensures ScopeAt(tree, Standing(tree, r))
  {
    RootIsScope(tree);
    AtRoot(tree);
    StandingIsScope(tree, Located([], tree), TOP, r);
  }

  lemma AtRoot(tree: Node)
    ensures BelongsTo(tree, Located([], tree))
  {
  }

  lemma {:induction false} InsideLambdas(tree: Node, r: Path)
    requires r != [] && ValidPath(tree, r) && IsLambdaAt(tree, Owner(tree, r)) && LambdasAreExpressions(tree, r)
    ensures ScopeAt(tree, Standing(tree, r))
    ensures Lexical(tree, Owner(tree, r)) == Without(HandedBy(tree, Standing(tree, r)), LambdaNames(tree, r))
    decreases |r|
  {
    hide VisibleIn, Handed, Owner, NamesBound, Enter, StandingAt;
    var o := Owner(tree, r);
    var names := NamesBound(At(tree, o).kind, OwnNodes(Region(ScopeOf(tree, o))));
    StandingScope(tree, r);
    StandsInOwner(tree, r);
    StandsInOwner(tree, o);
    LambdaShadows(tree, o);
    if IsLambdaAt(tree, Owner(tree, o)) {
      InsideLambdas(tree, o);
      LambdaHandsAll(tree, Owner(tree, o));
      WithoutTwice(HandedBy(tree, Standing(tree, r)), LambdaNames(tree, o), names);
    } else {
      assert LambdaNames(tree, o) == {};
      assert LambdaNames(tree, r) == {} + names == names;
    }
  }

  lemma LambdaShadows(tree: Node, o: Path)
    requires ScopeAt(tree, o) && IsLambdaAt(tree, o) && OnlyExpressions(OwnNodes(Region(ScopeOf(tree, o))))
    ensures Lexical(tree, o) ==
      Without(HandedBy(tree, Owner(tree, o)), NamesBound(At(tree, o).kind, OwnNodes(Region(ScopeOf(tree, o)))))
  {
    LexicalFromOwner(tree, o);
    ExpressionsOnlyShadow(At(tree, o).kind, OwnNodes(Region(ScopeOf(tree, o))), Outside(tree, o));
  }

  lemma LambdaHandsAll(tree: Node, o: Path)
    requires ScopeAt(tree, o) && !At(tree, o).kind.ClassDef?
    ensures HandedBy(tree, o) == Lexical(tree, o)
  {
    LexicalFromOwner(tree, o);
  }

  /** The node is judged with the bindings of its own scope. */
  predicate JudgedInScope(tree: Node, r: Path)
    requires r != [] && ValidPath(tree, r) && ScopeAt(tree, Standing(tree, r))
  {
    Lexical(tree, Standing(tree, r)) == Lexical(tree, Owner(tree, r))
  }

  /** Outside lambdas always; inside lambdas exactly when the lambdas, and a class body
      they stand in, leave every tracked name as it was. */
  lemma JudgedInScopeExactly(tree: Node, r: Path)
    requires r != [] && ValidPath(tree, r) && LambdasAreExpressions(tree, r)
    ensures ScopeAt(tree, Standing(tree, r))
    ensures !IsLambdaAt(tree, Owner(tree, r)) ==> JudgedInScope(tree, r)
    ensures IsLambdaAt(tree, Owner(tree, r)) ==>
      var s := Standing(tree, r);
      (JudgedInScope(tree, r) <==> Without(HandedBy(tree, s), LambdaNames(tree, r)) == Lexical(tree, s)) &&
      (!At(tree, s).kind.ClassDef? ==> (JudgedInScope(tree, r) <==> LambdaNames(tree, r) !! Tracked(Lexical(tree, s))))
  {
    hide Owner, StandingAt, Handed, Enter, LambdaNames, Tracked, Without;
    var s := Standing(tree, r);
    StandingScope(tree, r);
    StandsInOwner(tree, r);
    if IsLambdaAt(tree, Owner(tree, r)) {
      InsideLambdas(tree, r);
      if !At(tree, s).kind.ClassDef? {
        LambdaHandsAll(tree, s);
        WithoutNothingTracked(Lexical(tree, s), LambdaNames(tree, r));
      }
    }
  }

  // ----- Scopes that say nothing -----

  /** The node and all nodes inside it are of the kind asked for. */
  predicate Throughout(n: Node, keeps: Node -> bool) {
    keeps(n) && forall i | 0 <= i < |n.children| :: Throughout(n.children[i], keeps)
  }

  lemma {:induction false} ThroughoutPopped(stack: seq<Located>, keeps: Node -> bool)
    requires forall i | 0 <= i < |stack| :: Throughout(stack[i].node, keeps)
    ensures forall x | x in Popped(stack) :: keeps(x.node)
    decreases StackSize(stack)
  {
    if stack != [] {
      ThroughoutNext(stack, keeps);
      ThroughoutPopped(NextStack(stack), keeps);
    }
  }

  lemma ThroughoutNext(stack: seq<Located>, keeps: Node -> bool)
    requires stack != [] && forall i | 0 <= i < |stack| :: Throughout(stack[i].node, keeps)
    ensures forall i | 0 <= i < |NextStack(stack)| :: Throughout(NextStack(stack)[i].node, keeps)
  {
    hide StackSize, Size;
    assert Throughout(stack[|stack| - 1].node, keeps);
  }

  /** A node that binds no name. */
  predicate BindsNothing(n: Node) { if n.kind.Name? then n.kind.ctx.Load? else !n.kind.Alias? }

  lemma {:induction false} NothingStored(ls: seq<Located>)
    requires forall i | 0 <= i < |ls| :: BindsNothing(ls[i].node)
    ensures NamesStored(ls) == {}
  {
    if ls != [] {
      NothingStored(ls[1..]);
      assert BindsNothing(ls[0].node);
    }
  }

  /** A node that neither binds a name nor gives one a meaning. */
  predicate IsSilent(n: Node) { BindsNothing(n) && !n.kind.Assign? && !n.kind.Import? && !n.kind.ImportFrom? }

  lemma SilentScope(l: Located)
    requires forall i | 0 <= i < |l.node.children| :: Throughout(l.node.children[i], IsSilent)
    ensures OnlyExpressions(OwnNodes(Region(l))) && NamesStored(OwnNodes(Region(l))) == {}
  {
    hide Popped, NamesStored, Throughout;
    var own := OwnNodes(Region(l));
    ThroughoutPopped(Kids(l), IsSilent);
    FilterMembers(Region(l));
    forall i | 0 <= i < |own| ensures IsSilent(own[i].node) { assert own[i] in own; }
    NothingStored(own);
  }

  lemma SilentModule(tree: Node)
    requires tree.kind.Module? && Throughout(tree, IsSilent)
    ensures Lexical(tree, []) == SEED
  {
    hide Region, NamesStored, OwnNodes, Without;
    var l := Located([], tree);
    SilentScope(l);
    assert NamesBound(Module, OwnNodes(Region(l))) == {};
    ExpressionsOnlyShadow(Module, OwnNodes(Region(l)), SEED);
    WithoutNothingTracked(SEED, {});
    assert Lexical(tree, []) == VisibleIn(l, SEED);
  }

  // ----- A parameter taken for the module it is named after -----

  const CALLEE := Node(Attribute("run"), [Node(Name("subprocess", Load), [])])
  const CALL := Node(Call(1), [CALLEE, Node(Name("cmd", Load), [])])
  const LAMBDA := Node(Lambda(["subprocess"]), [CALL])

  /** `lambda subprocess: subprocess.run(cmd)` */
  const SHADOWING := Node(Module, [Node(Other, [LAMBDA])])
  const SITE := Located([0, 0, 0], CALL)

  lemma ExampleIsSilent()
    ensures Throughout(CALL, IsSilent)
  {
    assert Throughout(Node(Name("subprocess", Load), []), IsSilent) && Throughout(Node(Name("cmd", Load), []), IsSilent);
    assert Throughout(CALLEE, IsSilent);
  }

  lemma LambdaOwn()
    ensures OnlyExpressions(OwnNodes(Region(Located([0, 0], LAMBDA))))
    ensures NamesBound(LAMBDA.kind, OwnNodes(Region(Located([0, 0], LAMBDA)))) == {"subprocess"}
    ensures Lexical(SHADOWING, []) == SEED
  {
    hide Region, NamesStored, OwnNodes, Lexical;
    ExampleIsSilent();
    SilentScope(Located([0, 0], LAMBDA));
    assert Throughout(LAMBDA, IsSilent);
    assert Throughout(Node(Other, [LAMBDA]), IsSilent);
    SilentModule(SHADOWING);
    assert LAMBDA.kind.parameters == ["subprocess"];
    assert forall s :: s in Names(["subprocess"]) <==> s == "subprocess";
  }

  lemma FirstKid(n: Node, q: Path)
    requires n.children != [] && ValidPath(n.children[0], q)
    ensures ValidPath(n, [0] + q) && At(n, [0] + q) == At(n.children[0], q)
    ensures ([0] + q)[1..] == q
  {
    assert ([0] + q)[1..] == q;
  }

  lemma ExamplePlaces()
    ensures ValidPath(SHADOWING, [0, 0]) && At(SHADOWING, [0, 0]) == LAMBDA
    ensures ValidPath(SHADOWING, [0, 0, 0]) && At(SHADOWING, [0, 0, 0]) == CALL
    ensures Owner(SHADOWING, [0, 0, 0]) == [0, 0] && Owner(SHADOWING, [0, 0]) == []
  {
    var e := Node(Other, [LAMBDA]);
    assert [0] + [] == [0] && [0] + [0] == [0, 0] && [0] + [0, 0] == [0, 0, 0];
    FirstKid(LAMBDA, []);
    FirstKid(e, [0]);
    FirstKid(SHADOWING, [0, 0]);
    FirstKid(e, []);
    FirstKid(SHADOWING, [0]);
    assert Owner(LAMBDA, [0]) == [] && Owner(e, [0, 0]) == [0] + [];
    assert Owner(e, [0]) == [];
  }

  lemma ExampleBindings()
    ensures ValidPath(SHADOWING, [0, 0, 0]) && Owner(SHADOWING, [0, 0, 0]) == [0, 0]
    ensures Standing(SHADOWING, [0, 0, 0]) == []
    ensures Lexical(SHADOWING, []) == SEED && Lexical(SHADOWING, [0, 0]) == Without(SEED, {"subprocess"})
  {
    hide Lexical, StandingAt, Owner, Without, Handed, NamesBound;
    ExamplePlaces();
    StandsInOwner(SHADOWING, [0, 0, 0]);
    StandsInOwner(SHADOWING, [0, 0]);
    LambdaOwn();
    LambdaShadows(SHADOWING, [0, 0]);
    LambdaHandsAll(SHADOWING, []);
  }

  /** How `subprocess.run(cmd)` is judged with and without the name. */
  lemma CallIsJudged(site: Located, b: Bindings, names: set<string>, fn: string)
    requires site.node == CALL && b == Without(SEED, names)
    ensures forall primitives: map<string, string> | "run" !in primitives ::
      Here(site, b, fn, false, primitives) ==
        if "subprocess" in names then NOTHING
        else Sites([Row(site.path, fn, "process UNKNOWN", UnknownCommand, "unknown-command", true)],
                   [BlindSpot(site.path, fn)], [])
  {
    assert AttributeChain(CALLEE.children[0]) == ["subprocess"];
    assert AttributeChain(CALL) == AttributeChain(CALLEE) == ["subprocess", "run"];
    assert CALL.children[1..2] == [CALL.children[1]];
    assert "subprocess" in SEED.processModules;
    assert ["subprocess", "run"][..1] == ["subprocess"];
    assert SdkMethod(CALL, b) == None && !LooksLikeUnrootedSdkCall(CALL);
    assert IsOpaque(CALL, b.commandLists);
    assert IsProcessLaunch(CALL, b) <==> "subprocess" !in names;
  }

  /** The call on the lambda's own parameter is recorded as a launch nobody can read,
      and declared a blind spot, where its own bindings would record nothing. */
  lemma ParameterTakenForModule(primitives: map<string, string>)
    requires "run" !in primitives
    ensures ValidPath(SHADOWING, SITE.path) && !JudgedInScope(SHADOWING, SITE.path)
    ensures BelongsTo(SHADOWING, Located([], SHADOWING))
    ensures BlindSpot(SITE.path, "<module>") in SitesAt(SHADOWING, Located([], SHADOWING), TOP, false, primitives).opaqueCommands
    ensures Here(SITE, Lexical(SHADOWING, Owner(SHADOWING, SITE.path)), "<module>", false, primitives) == NOTHING
  {
    hide Here, Lexical, Owner, SitesAt, StandingAt;
    var root, p := Located([], SHADOWING), SITE.path;
    ExampleBindings();
    ExamplePlaces();
    AtRoot(SHADOWING);
    WithoutNothingTracked(SEED, {});
    CallIsJudged(SITE, SEED, {}, "<module>");
    assert "subprocess" in SEED.processModules && "subprocess" !in Without(SEED, {"subprocess"}).processModules;
    CallIsJudged(SITE, Without(SEED, {"subprocess"}), {"subprocess"}, "<module>");
    VisitCoversEveryNode(SHADOWING, root, TOP, false, p, primitives);
    ExampleStands();
    assert Child(root, p) == SITE by { assert [] + p == p; }
  }

  lemma ExampleStands()
    ensures ValidPath(SHADOWING, SITE.path)
    ensures StandingAt(Located([], SHADOWING), TOP, SITE.path) == TOP
    ensures !CalleeAt(Located([], SHADOWING), false, SITE.path)
  {
    var l := Located([], SHADOWING);
    var e := Kids(l)[0];
    var d := Kids(e)[0];
    ExamplePlaces();
    assert [0] + [] == [0] && [0] + [0] == [0, 0] && [0] + [0, 0] == [0, 0, 0];
    FirstKid(LAMBDA, []);
    FirstKid(e.node, [0]);
    FirstKid(SHADOWING, [0, 0]);
    StandingStep(d, TOP, 0, []);
    StandingStep(e, TOP, 0, [0]);
    StandingStep(l, TOP, 0, [0, 0]);
    assert !CalleeAt(d, false, [0]) && !CalleeAt(e, false, [0, 0]);
  }
}
