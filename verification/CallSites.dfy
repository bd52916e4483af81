/** The visitor of tools/generateMutationInventory.py: which call sites it records,
    judged with the bindings of the scope it stands in. */
module CallSites {
  import opened Numerals
  import opened PythonTree
  import opened ScopeModel
  import opened LexicalScopes

  const MUTATING_SUBCOMMANDS := {"run", "start", "stop", "rm", "kill", "restart", "exec", "cp", "pull", "push",
    "build", "buildx", "create", "commit", "rename", "update", "pause", "unpause", "prune", "load", "import", "tag"}
  const MUTATING_METHODS := {"remove", "prune", "create", "run", "start", "stop", "kill", "restart", "pause",
    "unpause", "pull", "push", "build", "commit", "tag", "put_archive", "exec_create", "exec_start",
    "exec_resize", "rename", "update"}
  const MUTATING_ACCESS := {"arbitrary-command", "arbitrary-root-shell", "archive-write", "exec-create",
    "exec-state", "signal", "container-lifecycle", "direct-docker-sdk", "unknown-command"}
  const SHELLS := {"sh", "bash", "zsh", "dash", "ksh"}

  const EMPTY := Bindings(map[], {}, {}, {}, {}, {}, map[])

  datatype RowKind = DirectCall | PassedCallable | DockerCli | DockerSdk | UnknownCommand

  datatype Row = Row(position: Path, function_: string, primitive: string, kind: RowKind, access: string,
                     mutationCapable: bool)

  datatype BlindSpot = BlindSpot(position: Path, function_: string)

  datatype Sites = Sites(rows: seq<Row>, opaqueCommands: seq<BlindSpot>, untraceableRoots: seq<BlindSpot>) {
    function Plus(that: Sites): Sites {
      Sites(rows + that.rows, opaqueCommands + that.opaqueCommands, untraceableRoots + that.untraceableRoots)
    }
  }

  const NOTHING := Sites([], [], [])

  // ----- Reading one call -----

  function ArgumentVector(call: Node, lists: map<string, Node>): Option<Node>
    requires call.kind.Call?
  {
    var args := CallArguments(call);
    if args == [] then None
    else if args[0].kind.Sequence? then Some(args[0])
    else if args[0].kind.Name? && args[0].kind.id in lists then Some(lists[args[0].kind.id])
    else None
  }

  /** `text.rsplit(c, 1)[-1]` */
  function AfterLast(s: string, c: char): string
    decreases |s|
  {
    if exists i :: 0 <= i < |s| && s[i] == c then
      if s[0] == c && forall i | 1 <= i < |s| :: s[i] != c then s[1..] else AfterLast(s[1..], c)
    else s
  }

  predicate AllConstant(elements: seq<Node>) { forall e | e in elements :: e.kind.Constant? }

  predicate IsOpaque(call: Node, lists: map<string, Node>)
    requires call.kind.Call?
  {
    var args := CallArguments(call);
    args != [] &&
    var vector := ArgumentVector(call, lists);
    if vector.None? then !args[0].kind.Constant?
    else
      var elements := vector.value.children;
      elements != [] &&
      (!elements[0].kind.Constant? ||
       (AfterLast(elements[0].kind.text, '/') in SHELLS && !AllConstant(elements)))
  }

  function Literals(elements: seq<Node>): seq<Kind> {
    if elements == [] then []
    else (if elements[0].kind.Constant? then [elements[0].kind] else []) + Literals(elements[1..])
  }

  function DockerSubcommand(call: Node, lists: map<string, Node>): Option<string>
    requires call.kind.Call?
  {
    var vector := ArgumentVector(call, lists);
    if vector.None? then None
    else
      var literals := Literals(vector.value.children);
      if literals == [] || literals[0] != Constant(true, "docker") then None
      else if |literals| > 1 && literals[1].Constant? then Some(literals[1].text)
      else Some("")
  }

  predicate IsProcessLaunch(call: Node, b: Bindings)
    requires call.kind.Call?
  {
    call.children != [] &&
    var callee := call.children[0].kind;
    if callee.Name? then callee.id in b.launchers
    else
      callee.Attribute? && callee.attr in LAUNCHERS &&
      AttributeChain(call) != [] && AttributeChain(call)[0] in b.processModules
  }

  function SdkMethod(call: Node, b: Bindings): Option<string>
    requires call.kind.Call?
  {
    var chain := AttributeChain(call);
    if |chain| < 2 then None
    else if !(chain[0] in b.sdkBoundNames + b.clientNames ||
              (chain[0] in b.dockerModules && exists s :: s in chain[1..] && s in CLIENT_CONSTRUCTORS)) then None
    else if (exists s :: s in chain && s in SDK_COLLECTIONS) ||
            (chain[0] in b.sdkBoundNames && chain[|chain| - 1] in MUTATING_METHODS)
    then Some(chain[|chain| - 2] + "." + chain[|chain| - 1])
    else None
  }

  predicate LooksLikeUnrootedSdkCall(call: Node)
    requires call.kind.Call?
  {
    var chain := AttributeChain(call);
    |chain| >= 2 && exists s :: s in chain[..|chain| - 1] && s in SDK_COLLECTIONS
  }

  function CalledName(call: Node): string
    requires call.kind.Call?
  {
    if call.children == [] then ""
    else
      var callee := call.children[0].kind;
      if callee.Name? then callee.id else if callee.Attribute? then callee.attr else ""
  }

  // ----- What one node contributes -----

  function DockerInvocation(l: Located, b: Bindings, fn: string): Sites
    requires l.node.kind.Call?
  {
    if !IsProcessLaunch(l.node, b) then NOTHING
    else if IsOpaque(l.node, b.commandLists) then
      Sites([Row(l.path, fn, "process UNKNOWN", UnknownCommand, "unknown-command", true)],
            [BlindSpot(l.path, fn)], [])
    else
      match DockerSubcommand(l.node, b.commandLists)
      case None => NOTHING
      case Some(sub) =>
        Sites([Row(l.path, fn, Strip("docker " + sub), DockerCli, "direct-docker-cli", sub in MUTATING_SUBCOMMANDS)],
              [], [])
  }

  function SdkCall(l: Located, b: Bindings, fn: string): Sites
    requires l.node.kind.Call?
  {
    match SdkMethod(l.node, b)
    case None => if LooksLikeUnrootedSdkCall(l.node) then Sites([], [], [BlindSpot(l.path, fn)]) else NOTHING
    case Some(m) =>
      Sites([Row(l.path, fn, "sdk " + m, DockerSdk, "direct-docker-sdk", AfterLast(m, '.') in MUTATING_METHODS)],
            [], [])
  }

  function Reference(l: Located, name: string, isCallee: bool, primitives: map<string, string>, fn: string): Sites {
    if name in primitives && !isCallee then
      Sites([Row(l.path, fn, name, PassedCallable, primitives[name], primitives[name] in MUTATING_ACCESS)], [], [])
    else NOTHING
  }

  function Here(l: Located, b: Bindings, fn: string, isCallee: bool, primitives: map<string, string>): Sites {
    match l.node.kind
    case Call(_) =>
      var name := CalledName(l.node);
      if name in primitives then
        Sites([Row(l.path, fn, name, DirectCall, primitives[name], primitives[name] in MUTATING_ACCESS)], [], [])
      else DockerInvocation(l, b, fn).Plus(SdkCall(l, b, fn))
    case Attribute(attr) => Reference(l, attr, isCallee, primitives, fn)
    case Name(id, Load) => Reference(l, id, isCallee, primitives, fn)
    case _ => NOTHING
  }

  // ----- What a whole visit records -----

  datatype Position = Position(scope: Path, fn: string)

  /** Definitions and classes are entered as scopes. A lambda is not. */
  predicate IsEntered(n: Node) { n.kind.FunctionDef? || n.kind.ClassDef? }

  function Inside(l: Located, at: Position): Position {
    if IsEntered(l.node) then Position(l.path, l.node.kind.name) else at
  }

  function SitesAt(tree: Node, l: Located, at: Position, isCallee: bool, primitives: map<string, string>): Sites
    requires ScopeAt(tree, at.scope) && (IsEntered(l.node) ==> ScopeAt(tree, l.path))
    requires BelongsTo(tree, l)
    decreases l.node, |l.node.children| + 1
  {
    (if IsEntered(l.node) then NOTHING else Here(l, Lexical(tree, at.scope), at.fn, isCallee, primitives))
    .Plus(SitesOfKids(tree, l, Inside(l, at), |l.node.children|, primitives))
  }

  function SitesOfKids(tree: Node, l: Located, at: Position, k: nat, primitives: map<string, string>): Sites
    requires ScopeAt(tree, at.scope) && BelongsTo(tree, l) && k <= |l.node.children|
    decreases l.node, k
  {
    if k == 0 then NOTHING
    else
      KidBelongs(tree, l, k - 1);
      SitesOfKids(tree, l, at, k - 1, primitives)
      .Plus(SitesAt(tree, Located(l.path + [k - 1], l.node.children[k - 1]), at, l.node.kind.Call? && k == 1, primitives))
  }

  /** `l` is a node of the tree. */
  predicate BelongsTo(tree: Node, l: Located) { ValidPath(tree, l.path) && At(tree, l.path) == l.node }

  lemma {:induction false} KidBelongs(tree: Node, l: Located, i: nat)
    requires BelongsTo(tree, l) && i < |l.node.children|
    ensures BelongsTo(tree, Located(l.path + [i], l.node.children[i]))
    decreases |l.path|
  {
    var p := l.path;
    if p == [] {
      assert p + [i] == [i] && [i][1..] == [];
    } else {
      assert (p + [i])[1..] == p[1..] + [i];
      KidBelongs(tree.children[p[0]], Located(p[1..], l.node), i);
    }
  }

  /** At an entered node nothing is recorded but what its children record under the new scope. */
  lemma SitesOfEntered(tree: Node, l: Located, at: Position, primitives: map<string, string>)
    requires ScopeAt(tree, at.scope) && IsEntered(l.node) && ScopeAt(tree, l.path) && BelongsTo(tree, l)
    ensures forall c :: SitesAt(tree, l, at, c, primitives) == NOTHING.Plus(SitesOfKids(tree, l, Inside(l, at), |l.node.children|, primitives))
  {
    hide Here, SitesOfKids;
  }

  lemma PlusNothing(s: Sites)
    ensures NOTHING.Plus(s) == s
  {
  }

  // ----- Unknown commands and blind spots correspond -----

  function UnknownPositions(rows: seq<Row>): seq<BlindSpot> {
    if rows == [] then []
    else (if rows[0].kind.UnknownCommand? then [BlindSpot(rows[0].position, rows[0].function_)] else [])
         + UnknownPositions(rows[1..])
  }

  lemma {:induction false} UnknownAppend(a: seq<Row>, b: seq<Row>)
    ensures UnknownPositions(a + b) == UnknownPositions(a) + UnknownPositions(b)
  {
    if a == [] {
      assert a + b == b;
    } else {
      assert (a + b)[1..] == a[1..] + b;
      UnknownAppend(a[1..], b);
    }
  }

  lemma OneRow(r: Row)
    ensures UnknownPositions([r]) == if r.kind.UnknownCommand? then [BlindSpot(r.position, r.function_)] else []
  {
    assert [r][1..] == [];
  }

  /** The unknown-command rows are the opaque-command blind spots, in the same order. */
  predicate Corresponds(s: Sites) { UnknownPositions(s.rows) == s.opaqueCommands }

  predicate SaysNothing(s: Sites) { UnknownPositions(s.rows) == [] && s.opaqueCommands == [] }

  lemma HereCorresponds(l: Located, b: Bindings, fn: string, isCallee: bool, primitives: map<string, string>)
    ensures Corresponds(Here(l, b, fn, isCallee, primitives))
  {
    hide CalledName, DockerInvocation, SdkCall, Reference, UnknownPositions;
    if l.node.kind.Call? && CalledName(l.node) !in primitives {
      LaunchCorresponds(l, b, fn);
      var d, k := DockerInvocation(l, b, fn), SdkCall(l, b, fn);
      UnknownAppend(d.rows, k.rows);
      assert d.opaqueCommands + [] == d.opaqueCommands;
    } else if l.node.kind.Call? {
      OneRow(Row(l.path, fn, CalledName(l.node), DirectCall, primitives[CalledName(l.node)], primitives[CalledName(l.node)] in MUTATING_ACCESS));
    } else {
      NoRows();
      forall name { ReferenceCorresponds(l, name, isCallee, primitives, fn); }
    }
  }

  lemma NoRows()
    ensures UnknownPositions([]) == []
  {
  }

  lemma LaunchCorresponds(l: Located, b: Bindings, fn: string)
    requires l.node.kind.Call?
    ensures Corresponds(DockerInvocation(l, b, fn)) && SaysNothing(SdkCall(l, b, fn))
  {
    hide IsProcessLaunch, IsOpaque, DockerSubcommand, SdkMethod, LooksLikeUnrootedSdkCall, UnknownPositions;
    var d, k := DockerInvocation(l, b, fn), SdkCall(l, b, fn);
    NoRows();
    if d.rows != [] { OneRow(d.rows[0]); }
    if k.rows != [] { OneRow(k.rows[0]); }
  }

  lemma ReferenceCorresponds(l: Located, name: string, isCallee: bool, primitives: map<string, string>, fn: string)
    ensures SaysNothing(Reference(l, name, isCallee, primitives, fn))
  {
    hide UnknownPositions;
    NoRows();
    var s := Reference(l, name, isCallee, primitives, fn);
    if s.rows != [] { OneRow(s.rows[0]); }
  }

  /** The unknown-command rows and the opaque-command blind spots of a visit are the
      same nodes, in the same functions, in the same order. */
  lemma {:induction false} UnknownRowsAreBlindSpots(tree: Node, l: Located, at: Position, isCallee: bool,
                                                    primitives: map<string, string>)
    requires ScopeAt(tree, at.scope) && (IsEntered(l.node) ==> ScopeAt(tree, l.path)) && BelongsTo(tree, l)
    ensures Corresponds(SitesAt(tree, l, at, isCallee, primitives))
    decreases l.node, |l.node.children| + 1
  {
    hide Here;
    var kids := SitesOfKids(tree, l, Inside(l, at), |l.node.children|, primitives);
    UnknownRowsOfKids(tree, l, Inside(l, at), |l.node.children|, primitives);
    if IsEntered(l.node) {
      UnknownAppend([], kids.rows);
    } else {
      var here := Here(l, Lexical(tree, at.scope), at.fn, isCallee, primitives);
      HereCorresponds(l, Lexical(tree, at.scope), at.fn, isCallee, primitives);
      UnknownAppend(here.rows, kids.rows);
    }
  }

  lemma {:induction false} UnknownRowsOfKids(tree: Node, l: Located, at: Position, k: nat, primitives: map<string, string>)
    requires ScopeAt(tree, at.scope) && BelongsTo(tree, l) && k <= |l.node.children|
    ensures Corresponds(SitesOfKids(tree, l, at, k, primitives))
    decreases l.node, k
  {
    hide SitesAt, Lexical, Corresponds;
    if k > 0 {
      KidBelongs(tree, l, k - 1);
      var kid := Located(l.path + [k - 1], l.node.children[k - 1]);
      UnknownRowsOfKids(tree, l, at, k - 1, primitives);
      UnknownRowsAreBlindSpots(tree, kid, at, l.node.kind.Call? && k == 1, primitives);
      CorrespondsPlus(SitesOfKids(tree, l, at, k - 1, primitives),
                      SitesAt(tree, kid, at, l.node.kind.Call? && k == 1, primitives));
    } else {
      NothingCorresponds();
    }
  }

  lemma NothingCorresponds()
    ensures Corresponds(NOTHING)
  {
  }

  lemma CorrespondsPlus(a: Sites, b: Sites)
    requires Corresponds(a) && Corresponds(b)
    ensures Corresponds(a.Plus(b))
  {
    UnknownAppend(a.rows, b.rows);
  }

  // ----- The visitor -----

  class Visitor {
    const tree: Node
    const primitives: map<string, string>
    var model: map<Path, Bindings>
    var rows: seq<Row>
    var opaqueCommands: seq<BlindSpot>
    var untraceableRoots: seq<BlindSpot>
    var functionStack: seq<string>
    var scopeStack: seq<Path>

    constructor (tree: Node, primitives: map<string, string>)
      ensures this.tree == tree && this.primitives == primitives
      ensures model == map[] && rows == [] && opaqueCommands == [] && untraceableRoots == []
      ensures functionStack == [] && scopeStack == []
    {
      this.tree := tree;
      this.primitives := primitives;
      model, rows, opaqueCommands, untraceableRoots, functionStack, scopeStack := map[], [], [], [], [], [];
    }

    /** The model is complete, and every scope on the stack has an entry in it. */
    ghost predicate Valid()
      reads this
    {
      (forall p :: p in model <==> ScopeAt(tree, p)) &&
      (forall p | p in model :: model[p] == Lexical(tree, p)) &&
      (forall i | 0 <= i < |scopeStack| :: scopeStack[i] in model) &&
      |functionStack| == |scopeStack|
    }

    function Recorded(): Sites
      reads this
    {
      Sites(rows, opaqueCommands, untraceableRoots)
    }

    function Key(): Path
      reads this
    {
      if scopeStack == [] then [] else scopeStack[|scopeStack| - 1]
    }

    function Standing(): Position
      reads this
    {
      Position(Key(), if functionStack == [] then "<module>" else functionStack[|functionStack| - 1])
    }

    /** `_fdictBindingsHere`: the lookup with its fallback, which is never taken. */
    method BindingsHere() returns (b: Bindings)
      requires Valid()
      ensures Key() in model && b == Lexical(tree, Key())
    {
      assert ScopeAt(tree, []);
      b := if Key() in model then model[Key()] else EMPTY;
    }

    method Collect()
      requires model == map[] && scopeStack == [] && functionStack == []
      requires rows == [] && opaqueCommands == [] && untraceableRoots == []
      modifies this
      ensures Valid() && scopeStack == []
      ensures Recorded() == SitesAt(tree, Located([], tree), Position([], "<module>"), false, primitives)
    {
      hide Lexical, SitesAt, ScopeAt;
      ghost var order;
      model, order := BuildScopeModel(tree);
      Visit(Located([], tree), false);
      PlusNothing(SitesAt(tree, Located([], tree), Position([], "<module>"), false, primitives));
    }

    method Visit(l: Located, isCallee: bool)
      requires Valid() && BelongsTo(tree, l)
      modifies this
      ensures Valid() && model == old(model) && scopeStack == old(scopeStack) && functionStack == old(functionStack)
      ensures ScopeAt(tree, old(Standing()).scope)
      ensures Recorded() == old(Recorded()).Plus(SitesAt(tree, l, old(Standing()), isCallee, primitives))
      decreases l.node, 2
    {
      if IsEntered(l.node) { VisitDefinition(l); } else { VisitOther(l, isCallee); }
    }

    /** `visit_FunctionDef`, which also serves async functions and classes. */
    method VisitDefinition(l: Located)
      requires Valid() && BelongsTo(tree, l) && IsEntered(l.node)
      modifies this
      ensures Valid() && model == old(model) && scopeStack == old(scopeStack) && functionStack == old(functionStack)
      ensures ScopeAt(tree, old(Standing()).scope)
      ensures Recorded() == old(Recorded()).Plus(SitesAt(tree, l, old(Standing()), false, primitives))
      ensures forall c :: SitesAt(tree, l, old(Standing()), c, primitives) == SitesAt(tree, l, old(Standing()), false, primitives)
      decreases l.node, 1
    {
      hide Here, Lexical, SitesOfKids, SitesAt;
      assert ScopeAt(tree, []);
      ghost var before := Recorded();
      SitesOfEntered(tree, l, Standing(), primitives);
      functionStack := functionStack + [l.node.kind.name];
      scopeStack := scopeStack + [l.path];
      VisitKids(l);
      scopeStack := scopeStack[..|scopeStack| - 1];
      functionStack := functionStack[..|functionStack| - 1];
      PlusNothing(SitesOfKids(tree, l, Position(l.path, l.node.kind.name), |l.node.children|, primitives));
    }

    /** The other visit methods: record what stands here, then go on to the children. */
    method VisitOther(l: Located, isCallee: bool)
      requires Valid() && BelongsTo(tree, l) && !IsEntered(l.node)
      modifies this
      ensures Valid() && model == old(model) && scopeStack == old(scopeStack) && functionStack == old(functionStack)
      ensures ScopeAt(tree, old(Standing()).scope)
      ensures Recorded() == old(Recorded()).Plus(SitesAt(tree, l, old(Standing()), isCallee, primitives))
      decreases l.node, 1
    {
      hide Here, Lexical, SitesOfKids;
      ghost var before := Recorded();
      var b := BindingsHere();
      var here := Here(l, b, Standing().fn, isCallee, primitives);
      rows := rows + here.rows;
      opaqueCommands := opaqueCommands + here.opaqueCommands;
      untraceableRoots := untraceableRoots + here.untraceableRoots;
      VisitKids(l);
      PlusAssociates(before, here, SitesOfKids(tree, l, old(Standing()), |l.node.children|, primitives));
    }

    method VisitKids(l: Located)
      requires Valid() && BelongsTo(tree, l)
      modifies this
      ensures Valid() && model == old(model) && scopeStack == old(scopeStack) && functionStack == old(functionStack)
      ensures ScopeAt(tree, old(Standing()).scope)
      ensures Recorded() == old(Recorded()).Plus(SitesOfKids(tree, l, old(Standing()), |l.node.children|, primitives))
      decreases l.node, 0
    {
      hide SitesAt, Lexical, At, ValidPath;
      ghost var before, at := Recorded(), Standing();
      RootIsScope(tree);
      for i := 0 to |l.node.children|
        invariant Valid() && model == old(model) && scopeStack == old(scopeStack) && functionStack == old(functionStack)
        invariant Recorded() == before.Plus(SitesOfKids(tree, l, at, i, primitives))
      {
        KidBelongs(tree, l, i);
        var kid := Located(l.path + [i], l.node.children[i]);
        Visit(kid, l.node.kind.Call? && i == 0);
        PlusAssociates(before, SitesOfKids(tree, l, at, i, primitives),
                       SitesAt(tree, kid, at, l.node.kind.Call? && i == 0, primitives));
      }
    }
  }

  lemma RootIsScope(tree: Node)
    ensures ScopeAt(tree, [])
  {
  }

  // ----- No node is skipped -----

  /** Where the visitor stands when it reaches the node `r` below `l`. */
  function StandingAt(l: Located, at: Position, r: Path): Position
    requires ValidPath(l.node, r)
    decreases |r|
  {
    if r == [] then at else StandingAt(Kids(l)[r[0]], Inside(l, at), r[1..])
  }

  /** Whether that node is the callee of a call. */
  predicate CalleeAt(l: Located, isCallee: bool, r: Path)
    requires ValidPath(l.node, r)
    decreases |r|
  {
    if r == [] then isCallee else CalleeAt(Kids(l)[r[0]], l.node.kind.Call? && r[0] == 0, r[1..])
  }

  /** What the node `r` below `l` is judged to contribute. */
  function Contribution(tree: Node, l: Located, at: Position, isCallee: bool, r: Path, primitives: map<string, string>): Sites
    requires ValidPath(l.node, r) && ScopeAt(tree, StandingAt(l, at, r).scope)
  {
    var s := StandingAt(l, at, r);
    Here(Child(l, r), Lexical(tree, s.scope), s.fn, CalleeAt(l, isCallee, r), primitives)
  }

  ghost predicate Covers(s: Sites, part: Sites) {
    (forall x | x in part.rows :: x in s.rows) &&
    (forall x | x in part.opaqueCommands :: x in s.opaqueCommands) &&
    (forall x | x in part.untraceableRoots :: x in s.untraceableRoots)
  }

  lemma CoversPlus(a: Sites, b: Sites, part: Sites)
    requires Covers(a, part) || Covers(b, part)
    ensures Covers(a.Plus(b), part)
  {
  }

  lemma {:induction false} KidsCoverKid(tree: Node, l: Located, at: Position, k: nat, i: nat, primitives: map<string, string>)
    requires ScopeAt(tree, at.scope) && BelongsTo(tree, l) && i < k <= |l.node.children|
    requires BelongsTo(tree, Kids(l)[i])
    ensures Covers(SitesOfKids(tree, l, at, k, primitives),
                   SitesAt(tree, Kids(l)[i], at, l.node.kind.Call? && i == 0, primitives))
  {
    hide SitesAt, Lexical;
    KidBelongs(tree, l, k - 1);
    var last := SitesAt(tree, Kids(l)[k - 1], at, l.node.kind.Call? && k == 1, primitives);
    if i < k - 1 { KidsCoverKid(tree, l, at, k - 1, i, primitives); }
    CoversPlus(SitesOfKids(tree, l, at, k - 1, primitives), last,
               SitesAt(tree, Kids(l)[i], at, l.node.kind.Call? && i == 0, primitives));
  }

  lemma {:induction false} StandingIsScope(tree: Node, l: Located, at: Position, r: Path)
    requires ScopeAt(tree, at.scope) && BelongsTo(tree, l) && ValidPath(l.node, r)
    ensures ScopeAt(tree, StandingAt(l, at, r).scope)
    decreases |r|
  {
    if r != [] {
      KidBelongs(tree, l, r[0]);
      StandingIsScope(tree, Kids(l)[r[0]], Inside(l, at), r[1..]);
    }
  }

  lemma ContributionBelow(tree: Node, l: Located, at: Position, isCallee: bool, r: Path, primitives: map<string, string>)
    requires r != [] && ValidPath(l.node, r) && ScopeAt(tree, StandingAt(l, at, r).scope)
    ensures Contribution(tree, l, at, isCallee, r, primitives) ==
            Contribution(tree, Kids(l)[r[0]], Inside(l, at), l.node.kind.Call? && r[0] == 0, r[1..], primitives)
  {
    hide Here, Lexical, ScopeAt;
    var kid := Kids(l)[r[0]];
    assert Child(l, r) == Child(kid, r[1..]) by { assert l.path + r == kid.path + r[1..]; }
  }

  /** Whatever a node is judged to contribute, with the bindings of the definition it
      stands in, is in the record of the whole visit. */
  lemma {:induction false} VisitCoversEveryNode(tree: Node, l: Located, at: Position, isCallee: bool, r: Path,
                                                primitives: map<string, string>)
    requires ScopeAt(tree, at.scope) && BelongsTo(tree, l)
    requires ValidPath(l.node, r) && !IsEntered(At(l.node, r))
    ensures ScopeAt(tree, StandingAt(l, at, r).scope)
    ensures Covers(SitesAt(tree, l, at, isCallee, primitives), Contribution(tree, l, at, isCallee, r, primitives))
    decreases |r|
  {
    hide Here, Lexical, SitesOfKids;
    StandingIsScope(tree, l, at, r);
    var part := Contribution(tree, l, at, isCallee, r, primitives);
    if r == [] {
      assert Child(l, r) == l by { assert l.path + [] == l.path; }
    } else {
      KidBelongs(tree, l, r[0]);
      ContributionBelow(tree, l, at, isCallee, r, primitives);
      VisitCoversEveryNode(tree, Kids(l)[r[0]], Inside(l, at), l.node.kind.Call? && r[0] == 0, r[1..], primitives);
      KidsCoverKid(tree, l, Inside(l, at), |l.node.children|, r[0], primitives);
    }
  }

  lemma PlusAssociates(a: Sites, b: Sites, c: Sites)
    ensures a.Plus(b).Plus(c) == a.Plus(b.Plus(c))
  {
    assert (a.rows + b.rows) + c.rows == a.rows + (b.rows + c.rows);
    assert (a.opaqueCommands + b.opaqueCommands) + c.opaqueCommands == a.opaqueCommands + (b.opaqueCommands + c.opaqueCommands);
    assert (a.untraceableRoots + b.untraceableRoots) + c.untraceableRoots ==
           a.untraceableRoots + (b.untraceableRoots + c.untraceableRoots);
  }
}
