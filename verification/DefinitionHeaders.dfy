/** The decorators, defaults and annotations of a definition stand among its children, so
    the visitor judges them with the bindings of its body, while they are evaluated
    outside it: when that makes no difference. */
module DefinitionHeaders {
  import opened Numerals
  import opened PythonTree
  import opened ScopeModel
  import opened LexicalScopes
  import opened ScopeTheorems
  import opened LambdaScopes
  import opened CallSites

  // ----- When a scope leaves the bindings around it as they are -----

  /** What is said was so before, and what is rebound of it is said again. */
  predicate LeavesNames(names: set<string>, rebound: set<string>, says: set<string>) {
    says <= names && names * rebound <= says
  }

  predicate LeavesMeanings<V(==)>(m: map<string, V>, rebound: set<string>, says: map<string, V>) {
    LeavesNames(m.Keys, rebound, says.Keys) && forall x | x in says :: x in m && says[x] == m[x]
  }

  /** Everything the scope says about a name holds outside it already, and every name of the
      outer bindings that it rebinds it gives the same meaning again. */
  predicate LeavesAll(scope: Kind, own: seq<Located>, b: Bindings) {
    var rebound := NamesBound(scope, own);
    LeavesMeanings(b.commandLists, rebound, ListLiterals(own)) &&
    LeavesNames(b.clientNames, rebound, ClientNames(own, b.dockerModules)) &&
    LeavesNames(b.sdkBoundNames, rebound, SdkBoundNames(own, b.clientNames)) &&
    LeavesNames(b.processModules, rebound, ModuleNames(own, PROCESS_ROOTS)) &&
    LeavesNames(b.launchers, rebound, LauncherNames(own, b.processModules)) &&
    LeavesNames(b.dockerModules, rebound, ModuleNames(own, DOCKER_ROOTS)) &&
    LeavesMeanings(b.moduleAliases, rebound, ModuleAliases(own, map[]))
  }

  lemma NamesLeft(names: set<string>, rebound: set<string>, says: set<string>)
    ensures (names - rebound) + says == names <==> LeavesNames(names, rebound, says)
  {
    if (names - rebound) + says == names {
      forall x | x in names * rebound ensures x in says { assert x in (names - rebound) + says; }
    }
  }

  lemma MeaningsLeft<V>(m: map<string, V>, rebound: set<string>, says: map<string, V>)
    ensures (m - rebound) + says == m <==> LeavesMeanings(m, rebound, says)
  {
    var after := (m - rebound) + says;
    NamesLeft(m.Keys, rebound, says.Keys);
    assert after.Keys == (m.Keys - rebound) + says.Keys;
    if after == m {
      forall x | x in says ensures x in m && says[x] == m[x] { assert after[x] == says[x]; }
    }
    if LeavesMeanings(m, rebound, says) {
      forall x | x in m ensures after[x] == m[x] { assert x in after; }
    }
  }

  /** What is visible in a scope is what is visible around it exactly when it leaves everything. */
  lemma LeavesExactly(scope: Kind, own: seq<Located>, b: Bindings)
    ensures Visible(scope, own, b) == b <==> LeavesAll(scope, own, b)
  {
    hide NamesBound, ListLiterals, ModuleNames, ClientNames, SdkBoundNames, LauncherNames, ModuleAliases, LeavesNames, LeavesMeanings;
    var rebound := NamesBound(scope, own);
    MeaningsLeft(b.commandLists, rebound, ListLiterals(own));
    NamesLeft(b.clientNames, rebound, ClientNames(own, b.dockerModules));
    NamesLeft(b.sdkBoundNames, rebound, SdkBoundNames(own, b.clientNames));
    NamesLeft(b.processModules, rebound, ModuleNames(own, PROCESS_ROOTS));
    NamesLeft(b.launchers, rebound, LauncherNames(own, b.processModules));
    NamesLeft(b.dockerModules, rebound, ModuleNames(own, DOCKER_ROOTS));
    MeaningsLeft(b.moduleAliases, rebound, ModuleAliases(own, map[]));
  }

  // ----- A definition's header -----

  /** The node's own scope is a definition or a class. */
  predicate InDefinition(tree: Node, r: Path)
    requires ValidPath(tree, r)
  {
    r != [] && Owner(tree, r) != [] && IsEntered(At(tree, Owner(tree, r)))
  }

  /** The scope in which the definition around the node stands. */
  function AroundDefinition(tree: Node, r: Path): Path
    requires ValidPath(tree, r) && InDefinition(tree, r)
  {
    Owner(tree, Owner(tree, r))
  }

  /** The node is judged with the bindings of the scope in which its definition stands:
      what a decorator, a default or an annotation needs. */
  predicate JudgedOutside(tree: Node, r: Path)
    requires ValidPath(tree, r) && InDefinition(tree, r)
    requires ScopeAt(tree, Standing(tree, r)) && ScopeAt(tree, AroundDefinition(tree, r))
  {
    Lexical(tree, Standing(tree, r)) == Lexical(tree, AroundDefinition(tree, r))
  }

  lemma DefinitionStands(tree: Node, r: Path)
    requires ValidPath(tree, r) && InDefinition(tree, r)
    ensures Standing(tree, r) == Owner(tree, r) && ScopeAt(tree, Owner(tree, r)) && ScopeAt(tree, AroundDefinition(tree, r))
  {
    hide Owner, StandingAt;
    StandsInOwner(tree, r);
  }

  /** A header node is judged as it is evaluated exactly when the definition leaves the
      bindings around it as they are. */
  lemma JudgedOutsideExactly(tree: Node, r: Path)
    requires ValidPath(tree, r) && InDefinition(tree, r)
    ensures ScopeAt(tree, Standing(tree, r)) && ScopeAt(tree, AroundDefinition(tree, r))
    ensures var d, around := ScopeOf(tree, Owner(tree, r)), AroundDefinition(tree, r);
      (JudgedOutside(tree, r) <==> VisibleIn(d, HandedBy(tree, around)) == Lexical(tree, around)) &&
      (!At(tree, around).kind.ClassDef? ==>
        (JudgedOutside(tree, r) <==> LeavesAll(d.node.kind, OwnNodes(Region(d)), Lexical(tree, around))))
  {
    hide Owner, Handed, Enter, StandingAt, Region, OwnNodes, Visible, LeavesAll;
    DefinitionStands(tree, r);
    var d, around := ScopeOf(tree, Owner(tree, r)), AroundDefinition(tree, r);
    LexicalFromOwner(tree, Owner(tree, r));
    if !At(tree, around).kind.ClassDef? {
      LambdaHandsAll(tree, around);
      LeavesExactly(d.node.kind, OwnNodes(Region(d)), Lexical(tree, around));
    }
  }

  // ----- A default taken for a call on the parameter -----

  const DEFINITION := Node(FunctionDef("f", ["subprocess", "x"]), [Node(Other, [CALL])])

  /** `def f(subprocess, x=subprocess.run(cmd)): ...` */
  const DEFAULT := Node(Module, [DEFINITION])

  lemma DefaultPlaces()
    ensures ValidPath(DEFAULT, [0]) && At(DEFAULT, [0]) == DEFINITION && Owner(DEFAULT, [0]) == []
    ensures ValidPath(DEFAULT, [0, 0, 0]) && At(DEFAULT, [0, 0, 0]) == CALL && Owner(DEFAULT, [0, 0, 0]) == [0]
  {
    var e := Node(Other, [CALL]);
    assert [0] + [] == [0] && [0] + [0] == [0, 0] && [0] + [0, 0] == [0, 0, 0];
    FirstKid(e, []);
    FirstKid(DEFINITION, [0]);
    FirstKid(DEFAULT, [0, 0]);
    FirstKid(DEFAULT, []);
    assert Owner(e, [0]) == [] && Owner(DEFINITION, [0, 0]) == [];
  }

  lemma DefaultIsSilent()
    ensures var own := OwnNodes(Region(Located([0], DEFINITION))); OnlyExpressions(own) && NamesStored(own) == {}
    ensures Lexical(DEFAULT, []) == SEED
  {
    hide Lexical, OwnNodes, Region, NamesStored;
    ExampleIsSilent();
    assert Throughout(DEFINITION.children[0], IsSilent);
    SilentScope(Located([0], DEFINITION));
    assert Throughout(DEFINITION, IsSilent);
    SilentModule(DEFAULT);
  }

  lemma DefaultBindings()
    ensures ScopeAt(DEFAULT, [0])
    ensures Lexical(DEFAULT, []) == SEED && Lexical(DEFAULT, [0]) == Without(SEED, {"subprocess", "x"})
  {
    hide Lexical, Without, OwnNodes, Region, NamesStored, Owner, OnlyExpressions, Visible, Enter;
    var d := Located([0], DEFINITION);
    DefaultPlaces();
    DefaultIsSilent();
    LexicalFromOwner(DEFAULT, [0]);
    LambdaHandsAll(DEFAULT, []);
    ExpressionsOnlyShadow(DEFINITION.kind, OwnNodes(Region(d)), SEED);
    assert NamesBound(DEFINITION.kind, OwnNodes(Region(d))) == {"subprocess", "x"};
  }

  /** The call in the default is evaluated outside, where it is a launch nobody can read,
      and is judged with the parameter's bindings, by which nothing is recorded. */
  lemma DefaultTakenForParameter(primitives: map<string, string>)
    requires "run" !in primitives
    ensures ValidPath(DEFAULT, [0, 0, 0]) && InDefinition(DEFAULT, [0, 0, 0])
    ensures Standing(DEFAULT, [0, 0, 0]) == [0] && ScopeAt(DEFAULT, [0]) && AroundDefinition(DEFAULT, [0, 0, 0]) == []
    ensures !JudgedOutside(DEFAULT, [0, 0, 0])
    ensures var call := Located([0, 0, 0], CALL);
      Here(call, Lexical(DEFAULT, [0]), "f", false, primitives) == NOTHING &&
      BlindSpot(call.path, "<module>") in Here(call, Lexical(DEFAULT, []), "<module>", false, primitives).opaqueCommands
  {
    hide Here, Lexical, Owner, StandingAt;
    var call := Located([0, 0, 0], CALL);
    DefaultPlaces();
    DefaultBindings();
    DefinitionStands(DEFAULT, call.path);
    WithoutNothingTracked(SEED, {});
    CallIsJudged(call, SEED, {}, "<module>");
    CallIsJudged(call, Without(SEED, {"subprocess", "x"}), {"subprocess", "x"}, "f");
    assert "subprocess" in SEED.processModules && "subprocess" !in Without(SEED, {"subprocess", "x"}).processModules;
  }
}
