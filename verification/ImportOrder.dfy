/** Of several statements that bind one alias, which one the scope model reads. */
module ImportOrder {
  import opened PythonTree
  import opened Orders
  import opened ScopeModel
  import opened LexicalScopes
  import opened LambdaScopes
  import opened NameBinders

  // ----- The stack pops a scope's nodes from the end of the source backwards -----

  /** `p` is written after `q`, and neither lies inside the other. */
  ghost predicate Later(p: Path, q: Path) {
    exists i :: 0 <= i < |p| && i < |q| && p[..i] == q[..i] && p[i] > q[i]
  }

  lemma LaterBelow(p: Path, q: Path, p': Path, q': Path)
    requires Later(p, q) && StartsWithPath(p', p) && StartsWithPath(q', q)
    ensures Later(p', q')
  {
    var i :| 0 <= i < |p| && i < |q| && p[..i] == q[..i] && p[i] > q[i];
    assert p'[..i] == p'[..|p|][..i] && q'[..i] == q'[..|q|][..i];
    assert p'[i] == p'[..|p|][i] && q'[i] == q'[..|q|][i];
  }

  ghost predicate Ascending(stack: seq<Located>) {
    forall i, j | 0 <= i < j < |stack| :: Later(stack[j].path, stack[i].path)
  }

  lemma KidsAscend(l: Located)
    ensures Ascending(Kids(l))
  {
    forall i, j | 0 <= i < j < |Kids(l)| ensures Later(Kids(l)[j].path, Kids(l)[i].path) {
      var p, q := Kids(l)[j].path, Kids(l)[i].path;
      assert p[..|l.path|] == q[..|l.path|] && p[|l.path|] > q[|l.path|];
    }
  }

  lemma SamePathBelow(p: Path)
    ensures StartsWithPath(p, p)
  {
    assert p[..|p|] == p;
  }

  lemma NextAscends(stack: seq<Located>)
    requires stack != [] && Ascending(stack)
    ensures Ascending(NextStack(stack))
  {
    hide StackSize, Size, Later;
    var l, rest := stack[|stack| - 1], stack[..|stack| - 1];
    var next := NextStack(stack);
    KidsAscend(l);
    forall i, j | 0 <= i < j < |next| ensures Later(next[j].path, next[i].path) {
      if j < |rest| {
        assert next[i] == stack[i] && next[j] == stack[j];
      } else if i < |rest| {
        assert next[j] == Kids(l)[j - |rest|] && next[i] == stack[i];
        SamePathBelow(stack[i].path);
        LaterBelow(l.path, stack[i].path, next[j].path, next[i].path);
      } else {
        assert next[j] == Kids(l)[j - |rest|] && next[i] == Kids(l)[i - |rest|];
      }
    }
  }

  /** What is popped later lies inside what is popped now, or was written before it. */
  lemma PoppedBefore(stack: seq<Located>, x: Located)
    requires stack != [] && Ascending(stack) && x in Popped(NextStack(stack))
    ensures var p := stack[|stack| - 1].path; Later(p, x.path) || StartsWithPath(x.path, p)
  {
    hide Popped, StackSize, Size, NextStack, Later, ReachedFrom;
    var l, rest := stack[|stack| - 1], stack[..|stack| - 1];
    var next := NextStack(stack);
    PoppedMembers(next, x);
    var i :| 0 <= i < |next| && ReachedFrom(next[i], x);
    NextAt(stack, i);
    StartsFrom(next[i], x);
    if i < |rest| {
      SamePathBelow(l.path);
      LaterBelow(l.path, stack[i].path, l.path, x.path);
    } else {
      assert StartsWithPath(next[i].path, l.path);
      PrefixTransitive(l.path, next[i].path, x.path);
    }
  }

  lemma StartsFrom(l: Located, x: Located)
    requires ReachedFrom(l, x)
    ensures StartsWithPath(x.path, l.path)
  {
  }

  /** Earlier in the list means later in the source, or around it. */
  ghost predicate Backwards(ls: seq<Located>) {
    forall i, j | 0 <= i < j < |ls| :: Later(ls[i].path, ls[j].path) || StartsWithPath(ls[j].path, ls[i].path)
  }

  lemma {:induction false} PoppedBackwards(stack: seq<Located>)
    requires Ascending(stack)
    ensures Backwards(Popped(stack))
    decreases StackSize(stack)
  {
    if stack != [] {
      hide Later, NextStack, Size;
      var later := Popped(NextStack(stack));
      NextAscends(stack);
      PoppedBackwards(NextStack(stack));
      forall j | 0 <= j < |later|
        ensures Later(stack[|stack| - 1].path, later[j].path) || StartsWithPath(later[j].path, stack[|stack| - 1].path)
      {
        assert later[j] in later;
        PoppedBefore(stack, later[j]);
      }
    }
  }

  lemma {:induction false} OwnBackwards(ls: seq<Located>)
    requires Backwards(ls)
    ensures Backwards(OwnNodes(ls))
  {
    hide Later, StartsWithPath, IsScope;
    if ls != [] {
      OwnBackwards(ls[1..]);
      FilterMembers(ls[1..]);
      var rest := OwnNodes(ls[1..]);
      forall j | 0 <= j < |rest| ensures Later(ls[0].path, rest[j].path) || StartsWithPath(rest[j].path, ls[0].path) {
        assert rest[j] in ls[1..];
      }
    }
  }

  /** A scope's own nodes are listed from the end of its source backwards. */
  lemma RegionBackwards(l: Located)
    ensures Backwards(OwnNodes(Region(l)))
  {
    KidsAscend(l);
    PoppedBackwards(Kids(l));
    OwnBackwards(Region(l));
  }

  // ----- The import that is read -----

  /** What one import statement alone says about aliases. */
  function Says(x: Located): map<string, string> {
    if x.node.kind.Import? then AliasUpdates(x.node.children, map[]) else map[]
  }

  lemma {:induction false} UpdatesAdd(aliases: seq<Node>, m: map<string, string>)
    ensures AliasUpdates(aliases, m) == m + AliasUpdates(aliases, map[])
  {
    if aliases != [] {
      var k := aliases[0].kind;
      var step: map<string, string> :=
        if k.Alias? && Root(k.name) in MEMBER_ROOTS
        then if k.asName != "" then map[k.asName := k.name] else map[Root(k.name) := Root(k.name)]
        else map[];
      var rest := AliasUpdates(aliases[1..], map[]);
      UpdatesAdd(aliases[1..], m + step);
      UpdatesAdd(aliases[1..], step);
      assert (m + step) + rest == m + (step + rest);
      assert AliasUpdates(aliases, map[]) == AliasUpdates(aliases[1..], step);
      assert m + step == if k.Alias? && Root(k.name) in MEMBER_ROOTS
        then if k.asName != "" then m[k.asName := k.name] else m[Root(k.name) := Root(k.name)]
        else m;
    }
  }

  lemma AliasStep(own: seq<Located>, m: map<string, string>)
    requires own != []
    ensures ModuleAliases(own, m) == ModuleAliases(own[1..], m + Says(own[0]))
  {
    if own[0].node.kind.Import? { UpdatesAdd(own[0].node.children, m); } else { assert m + map[] == m; }
  }

  lemma {:induction false} LastWins(own: seq<Located>, i: nat, name: string, m: map<string, string>)
    requires i < |own| && name in Says(own[i])
    requires forall j | i < j < |own| :: name !in Says(own[j])
    ensures name in ModuleAliases(own, m) && ModuleAliases(own, m)[name] == Says(own[i])[name]
  {
    hide Says;
    AliasStep(own, m);
    if i > 0 { LastWins(own[1..], i - 1, name, m + Says(own[0])); } else { NothingLater(own[1..], name, m + Says(own[0])); }
  }

  lemma {:induction false} NothingLater(own: seq<Located>, name: string, m: map<string, string>)
    requires name in m && forall j | 0 <= j < |own| :: name !in Says(own[j])
    ensures name in ModuleAliases(own, m) && ModuleAliases(own, m)[name] == m[name]
  {
    hide Says;
    if own != [] {
      AliasStep(own, m);
      NothingLater(own[1..], name, m + Says(own[0]));
    }
  }

  /** The alias gives the name to a listed module: to the whole dotted one after `as`, else to its root. */
  predicate Lists(alias: Node, name: string) {
    alias.kind.Alias? && Root(alias.kind.name) in MEMBER_ROOTS &&
    name == if alias.kind.asName != "" then alias.kind.asName else Root(alias.kind.name)
  }

  function Listed(alias: Node): string
    requires alias.kind.Alias?
  {
    if alias.kind.asName != "" then alias.kind.name else Root(alias.kind.name)
  }

  /** Of the aliases of one statement that give the name to a listed module the last decides. */
  ghost predicate LastToList(aliases: seq<Node>, i: nat, name: string) {
    i < |aliases| && Lists(aliases[i], name) && forall j | i < j < |aliases| :: !Lists(aliases[j], name)
  }

  lemma {:induction false} UpdatesMean(aliases: seq<Node>, i: nat, name: string)
    requires LastToList(aliases, i, name)
    ensures var m := AliasUpdates(aliases, map[]); name in m && m[name] == Listed(aliases[i])
  {
    hide Root;
    var rest := aliases[1..];
    var step := StepOf(aliases);
    UpdatesAdd(rest, step);
    if i > 0 {
      assert forall j | 0 <= j < |rest| :: rest[j] == aliases[j + 1];
      UpdatesMean(rest, i - 1, name);
    } else {
      assert forall j | 0 <= j < |rest| :: rest[j] == aliases[j + 1];
      NoneUpdates(rest, name);
    }
  }

  lemma StepOf(aliases: seq<Node>) returns (step: map<string, string>)
    requires aliases != []
    ensures AliasUpdates(aliases, map[]) == AliasUpdates(aliases[1..], step)
    ensures forall name :: name in step <==> Lists(aliases[0], name)
    ensures forall name | name in step :: aliases[0].kind.Alias? && step[name] == Listed(aliases[0])
  {
    hide Root;
    var k := aliases[0].kind;
    step := if k.Alias? && Root(k.name) in MEMBER_ROOTS
      then if k.asName != "" then map[k.asName := k.name] else map[Root(k.name) := Root(k.name)]
      else map[];
  }

  lemma {:induction false} NoneUpdates(aliases: seq<Node>, name: string)
    requires forall j | 0 <= j < |aliases| :: !Lists(aliases[j], name)
    ensures name !in AliasUpdates(aliases, map[])
  {
    hide Root;
    if aliases != [] {
      var rest := aliases[1..];
      var step := StepOf(aliases);
      UpdatesAdd(rest, step);
      assert forall j | 0 <= j < |rest| :: rest[j] == aliases[j + 1];
      NoneUpdates(rest, name);
    }
  }

  // ----- Source order -----

  predicate NatLe(a: nat, b: nat) { a <= b }

  /** `p` is written no later than `q`: a node comes before what stands inside it. */
  predicate NoLater(p: Path, q: Path) { LexLe(NatLe, p, q) }

  lemma {:induction false} LaterIsAfter(p: Path, q: Path)
    requires Later(p, q)
    ensures NoLater(q, p) && !NoLater(p, q)
  {
    var i :| 0 <= i < |p| && i < |q| && p[..i] == q[..i] && p[i] > q[i];
    if i > 0 {
      assert p[0] == p[..i][0] == q[..i][0] == q[0];
      assert p[1..][..i - 1] == p[..i][1..] && q[1..][..i - 1] == q[..i][1..];
      assert p[1..][i - 1] > q[1..][i - 1];
      LaterIsAfter(p[1..], q[1..]);
    }
  }

  /** In Python's grammar no import statement stands inside another. */
  ghost predicate ImportsApart(own: seq<Located>) {
    forall x, y | x in own && y in own && x.node.kind.Import? && y.node.kind.Import? && x != y :: !StartsWithPath(x.path, y.path)
  }

  /** `a` is the first plain import of a listed module, in source order, to give the alias. */
  ghost predicate FirstToImport(own: seq<Located>, a: Located, name: string) {
    a in own && name in Says(a) && forall x | x in own && name in Says(x) :: NoLater(a.path, x.path)
  }

  lemma SaysImport(x: Located, name: string)
    requires name in Says(x)
    ensures x.node.kind.Import?
  {
  }

  /** Of the plain imports of listed modules that bind an alias in a scope, the model
      reads the one written first. */
  lemma FirstImportIsRead(l: Located, a: Located, name: string)
    requires ImportsApart(OwnNodes(Region(l))) && FirstToImport(OwnNodes(Region(l)), a, name)
    ensures name in ModuleAliases(OwnNodes(Region(l)), map[])
    ensures ModuleAliases(OwnNodes(Region(l)), map[])[name] == Says(a)[name]
  {
    hide Says, Region, OwnNodes, Later, NoLater, StartsWithPath, ModuleAliases;
    var own := OwnNodes(Region(l));
    RegionBackwards(l);
    var i := LastIndex(own, a);
    forall j | i < j < |own| ensures name !in Says(own[j]) {
      if name in Says(own[j]) {
        assert own[j] in own;
        SaysImport(a, name);
        SaysImport(own[j], name);
        LaterIsAfter(own[i].path, own[j].path);
      }
    }
    LastWins(own, i, name, map[]);
  }

  lemma {:induction false} SomethingSays(own: seq<Located>, name: string, m: map<string, string>)
    requires name in ModuleAliases(own, m) && name !in m
    ensures exists j :: 0 <= j < |own| && name in Says(own[j])
  {
    hide Says;
    AliasStep(own, m);
    if name in m + Says(own[0]) {
      assert name in Says(own[0]);
    } else {
      SomethingSays(own[1..], name, m + Says(own[0]));
      var j :| 0 <= j < |own[1..]| && name in Says(own[1..][j]);
      assert own[1..][j] == own[j + 1];
    }
  }

  lemma {:induction false} LastToSay(own: seq<Located>, name: string) returns (i: nat)
    requires exists j :: 0 <= j < |own| && name in Says(own[j])
    ensures i < |own| && name in Says(own[i]) && forall j | i < j < |own| :: name !in Says(own[j])
  {
    hide Says;
    if exists j :: 0 <= j < |own[1..]| && name in Says(own[1..][j]) {
      i := LastToSay(own[1..], name);
      i := i + 1;
      forall j | i < j < |own| ensures name !in Says(own[j]) { assert own[j] == own[1..][j - 1]; }
    } else {
      i := 0;
      forall j | 0 < j < |own| ensures name !in Says(own[j]) { assert own[j] == own[1..][j - 1]; }
    }
  }

  lemma FirstExists(l: Located, name: string) returns (a: Located)
    requires ImportsApart(OwnNodes(Region(l))) && name in ModuleAliases(OwnNodes(Region(l)), map[])
    ensures FirstToImport(OwnNodes(Region(l)), a, name)
  {
    hide Says, Region, OwnNodes, Later, NoLater, StartsWithPath, ModuleAliases;
    var own := OwnNodes(Region(l));
    RegionBackwards(l);
    SomethingSays(own, name, map[]);
    var i := LastToSay(own, name);
    a := own[i];
    forall x | x in own && name in Says(x) ensures NoLater(a.path, x.path) {
      var j :| 0 <= j < |own| && own[j] == x;
      if x == a {
        SameIsNoLater(a.path);
      } else {
        SaysImport(a, name);
        SaysImport(x, name);
        LaterIsAfter(x.path, a.path);
      }
    }
  }

  lemma {:induction false} SameIsNoLater(p: Path)
    ensures NoLater(p, p)
  {
    if p != [] { SameIsNoLater(p[1..]); }
  }

  // ----- What the alias is bound to last -----

  datatype Meaning = Unbound | TheModule(path: string) | SomethingElse

  /** What a plain import makes of a name: its last alias of that name counts. */
  function Imports(aliases: seq<Node>, name: string): Meaning {
    if aliases == [] then Unbound
    else
      var k, rest := aliases[0].kind, Imports(aliases[1..], name);
      if rest != Unbound || !k.Alias? || name != LocalName(k) then rest
      else TheModule(if k.asName != "" then k.name else Root(k.name))
  }

  function LocalName(alias: Kind): string
    requires alias.Alias?
  {
    if alias.asName != "" then alias.asName else Root(alias.name)
  }

  /** What a node makes of a name when it is executed. An import's aliases count with
      their statement. */
  function Makes(n: Node, name: string): Meaning {
    match n.kind
    case Import => Imports(n.children, name)
    case ImportFrom(_, _) =>
      if exists i :: 0 <= i < |n.children| && n.children[i].kind.Alias? && BoundAs(n.children[i].kind) == name
      then SomethingElse else Unbound
    case Alias(_, _) => Unbound
    case _ => if name in BoundBy(n) then SomethingElse else Unbound
  }

  /** `z` is the last node of the scope, in source order, to bind the name, in whatever way. */
  ghost predicate LastToBind(l: Located, z: Located, name: string) {
    z in Binders(l) && Makes(z.node, name) != Unbound &&
    forall x | x in Binders(l) && Makes(x.node, name) != Unbound :: NoLater(x.path, z.path)
  }

  /** The model reads the alias as what the scope binds it to last. */
  ghost predicate ReadsLastBinding(l: Located, name: string)
    requires name in ModuleAliases(OwnNodes(Region(l)), map[])
  {
    exists z :: LastToBind(l, z, name) && Makes(z.node, name) == TheModule(ModuleAliases(OwnNodes(Region(l)), map[])[name])
  }

  /** The first import of a listed module to give the alias, and the last node to bind it
      in whatever way, name one module. */
  ghost predicate FirstAndLastAgree(l: Located, name: string) {
    exists a, z :: FirstToImport(OwnNodes(Region(l)), a, name) && LastToBind(l, z, name) &&
      Makes(z.node, name) == TheModule(Says(a)[name])
  }

  lemma NoLaterIsTotal()
    ensures TotalOrder(NatLe)
  {
  }

  lemma {:induction false} LastAmong(ls: seq<Located>, name: string) returns (z: Located)
    requires exists x :: x in ls && Makes(x.node, name) != Unbound
    ensures z in ls && Makes(z.node, name) != Unbound
    ensures forall x | x in ls && Makes(x.node, name) != Unbound :: NoLater(x.path, z.path)
  {
    hide Makes, TotalOrder, LexLe;
    NoLaterIsTotal();
    assert forall x | x in ls :: x == ls[0] || x in ls[1..];
    if exists x :: x in ls[1..] && Makes(x.node, name) != Unbound {
      z := LastAmong(ls[1..], name);
      if Makes(ls[0].node, name) != Unbound {
        LexTotal(NatLe, ls[0].path, z.path);
        if !NoLater(ls[0].path, z.path) {
          forall x | x in ls[1..] && Makes(x.node, name) != Unbound ensures NoLater(x.path, ls[0].path) {
            LexTransitive(NatLe, x.path, z.path, ls[0].path);
          }
          SameIsNoLater(ls[0].path);
          z := ls[0];
        }
      }
    } else {
      z := ls[0];
      SameIsNoLater(z.path);
    }
  }

  lemma {:induction false} UpdatesBind(aliases: seq<Node>, m: map<string, string>, name: string)
    requires name in AliasUpdates(aliases, m) && name !in m
    ensures Imports(aliases, name) != Unbound
  {
    var k := aliases[0].kind;
    var next := if k.Alias? && Root(k.name) in MEMBER_ROOTS
      then if k.asName != "" then m[k.asName := k.name] else m[Root(k.name) := Root(k.name)]
      else m;
    if name !in next { UpdatesBind(aliases[1..], next, name); }
  }

  /** An alias the model reads has a first import and exactly one last node to bind it. */
  lemma FirstAndLastExist(l: Located, name: string) returns (a: Located, z: Located)
    requires Grammatical(l) && ImportsApart(OwnNodes(Region(l))) && name in ModuleAliases(OwnNodes(Region(l)), map[])
    ensures FirstToImport(OwnNodes(Region(l)), a, name) && LastToBind(l, z, name)
    ensures forall y | LastToBind(l, y, name) :: y == z
  {
    hide Region, Binders, ModuleAliases, NoLater, ImportsApart, Makes, IsHeld;
    a := FirstExists(l, name);
    FilterMembers(Region(l));
    SaysImport(a, name);
    BinderIsNode(l, a);
    MakesWhatItSays(a, name);
    z := LastAmong(Binders(l), name);
    forall y | LastToBind(l, y, name) ensures y == z { OnlyLast(l, y, z, name); }
  }

  lemma MakesWhatItSays(a: Located, name: string)
    requires name in Says(a)
    ensures Makes(a.node, name) != Unbound
  {
    UpdatesBind(a.node.children, map[], name);
  }

  lemma OnlyLast(l: Located, y: Located, z: Located, name: string)
    requires LastToBind(l, y, name) && LastToBind(l, z, name)
    ensures y == z
  {
    hide Region, Binders, Makes, TotalOrder, LexLe;
    NoLaterIsTotal();
    LexAntisymmetric(NatLe, y.path, z.path);
    BinderIsNode(l, y);
    BinderIsNode(l, z);
    RegionMembers(l, y);
    RegionMembers(l, z);
  }

  /** An alias is read as what the scope binds it to last exactly when the first import of
      a listed module to give it and the last node to bind it name one module. */
  lemma AliasReadExactly(l: Located, name: string)
    requires Grammatical(l) && ImportsApart(OwnNodes(Region(l))) && name in ModuleAliases(OwnNodes(Region(l)), map[])
    ensures ReadsLastBinding(l, name) <==> FirstAndLastAgree(l, name)
  {
    hide Region, OwnNodes, ModuleAliases, NoLater, ImportsApart, Makes, Says, Grammatical;
    var a, z := FirstAndLastExist(l, name);
    FirstImportIsRead(l, a, name);
    if FirstAndLastAgree(l, name) {
      var b, y :| FirstToImport(OwnNodes(Region(l)), b, name) && LastToBind(l, y, name) &&
        Makes(y.node, name) == TheModule(Says(b)[name]);
      FirstImportIsRead(l, b, name);
    }
  }

  lemma {:induction false} LastIndex(own: seq<Located>, a: Located) returns (i: nat)
    requires a in own
    ensures i < |own| && own[i] == a && forall j | i < j < |own| :: own[j] != a
  {
    if a in own[1..] {
      i := LastIndex(own[1..], a);
      i := i + 1;
    } else {
      i := 0;
      assert forall j | 0 < j < |own| :: own[j] in own[1..];
    }
  }

  // ----- Readings that are not the last binding -----

  const OS := Node(Alias("os", "tool"), [])
  const SOCKET := Node(Alias("socket", "tool"), [])
  const JSON := Node(Alias("json", "tool"), [])
  const BUILDER := Node(Alias("build", "tool"), [])

  const IMPORT_OS := Node(Import, [OS])
  const IMPORT_SOCKET := Node(Import, [SOCKET])
  const IMPORT_JSON := Node(Import, [JSON])
  const IMPORT_FROM := Node(ImportFrom("builders", 0), [BUILDER])

  function Both(first: Node, second: Node): Node { Node(Module, [first, second]) }

  lemma OneOf(l: Located, k: Node)
    requires l.node.children == [k]
    ensures Kids(l) == [Located(l.path + [0], k)]
  {
  }

  lemma NothingPopped()
    ensures Popped([]) == []
  {
  }

  lemma {:induction false} AllOwn(ls: seq<Located>)
    requires forall i | 0 <= i < |ls| :: !IsScope(ls[i].node)
    ensures OwnNodes(ls) == ls
  {
    if ls != [] { AllOwn(ls[1..]); }
  }

  lemma PairRegion(s: Node, t: Node, c: Node, d: Node)
    requires s.children == [c] && t.children == [d] && c.children == d.children == []
    requires !IsScope(s) && !IsScope(t) && !IsScope(c) && !IsScope(d)
    ensures var l := Located([], Both(s, t));
      var region := [Located([1], t), Located([1, 0], d), Located([0], s), Located([0, 0], c)];
      Region(l) == region && OwnNodes(Region(l)) == region
  {
    hide Popped, OwnNodes, IsScope;
    var l, a, b := Located([], Both(s, t)), Located([0], s), Located([1], t);
    var x, y := Located([0, 0], c), Located([1, 0], d);
    assert [] + [0] == [0] && [] + [1] == [1] && [0] + [0] == [0, 0] && [1] + [0] == [1, 0];
    assert Kids(l)[0] == a && Kids(l)[1] == b && Kids(l) == [a] + [b];
    OneOf(a, c);
    OneOf(b, d);
    assert Kids(x) == [] && Kids(y) == [];
    PoppedAppend([a], [b]);
    PoppedNode(a);
    PoppedNode(b);
    PoppedNode(x);
    PoppedNode(y);
    NothingPopped();
    assert Region(l) == [b, y, a, x];
    AllOwn([b, y, a, x]);
  }

  lemma RootOfPlain(name: string)
    requires forall i | 0 <= i < |name| :: name[i] != '.'
    ensures Root(name) == name
  {
    if name != "" {
      assert name == [name[0]] + name[1..];
      RootOfPlain(name[1..]);
    }
  }

  lemma ExampleSays(x: Located, name: string)
    requires name == "os" || name == "socket" || name == "json"
    requires x.node == Node(Import, [Node(Alias(name, "tool"), [])])
    ensures Says(x) == if name == "json" then map[] else map["tool" := name]
    ensures Makes(x.node, "tool") == TheModule(name)
  {
    hide Root;
    RootOfPlain(name);
    var aliases := x.node.children;
    assert Imports(aliases[1..], "tool") == Unbound;
    assert aliases[0].kind == Alias(name, "tool") && aliases[1..] == [] && (Root(name) in MEMBER_ROOTS <==> name != "json");
    assert |"tool"| == 4;
    assert AliasUpdates(aliases, map[]) == AliasUpdates([], if name == "json" then map[] else map["tool" := name]);
  }

  lemma PairLast(s: Node, t: Node, c: Node, d: Node)
    requires s.children == [c] && t.children == [d] && c.children == d.children == []
    requires !IsScope(s) && !IsScope(t) && c.kind.Alias? && d.kind.Alias? && Makes(t, "tool") != Unbound
    ensures forall z :: LastToBind(Located([], Both(s, t)), z, "tool") <==> z == Located([1], t)
  {
    hide Region, OwnNodes;
    var l, b := Located([], Both(s, t)), Located([1], t);
    PairRegion(s, t, c, d);
    hide Makes, NoLater;
    assert NoLater([0], [1]) && !NoLater([1], [0]) && NoLater([1], [1]) by { ShortPaths(); }
    assert b in Region(l) && b.path[0..] == b.path;
    ShortHeld(l.node, b.path);
    BinderIsNode(l, b);
    forall z ensures z in Binders(l) ==> z in Region(l) { BinderIsNode(l, z); }
    hide Binders;
    forall z | LastToBind(l, z, "tool") ensures z == b { assert NoLater(b.path, z.path); }
  }

  lemma ShortPaths()
    ensures NoLater([0], [1]) && !NoLater([1], [0]) && NoLater([1], [1]) && NoLater([0], [0])
  {
    assert [1][1..] == [] && [0][1..] == [];
  }

  /** At module level the name is read as that module. */
  predicate ReadAs(tree: Node, name: string, path: string) {
    name in Lexical(tree, []).moduleAliases && Lexical(tree, []).moduleAliases[name] == path
  }

  /** Two imports, of which the one at `a` is the first, or the only one, of a listed module. */
  lemma PairReads(s: Node, t: Node, c: Node, d: Node, a: Located)
    requires s.children == [c] && t.children == [d] && c.children == d.children == []
    requires !IsScope(s) && !IsScope(t) && c.kind.Alias? && d.kind.Alias?
    requires "tool" in Says(a) && (a == Located([0], s) || (a == Located([1], t) && "tool" !in Says(Located([0], s))))
    ensures var l := Located([], Both(s, t));
      ImportsApart(OwnNodes(Region(l))) && FirstToImport(OwnNodes(Region(l)), a, "tool") &&
      "tool" in ModuleAliases(OwnNodes(Region(l)), map[]) && ReadAs(l.node, "tool", Says(a)["tool"])
  {
    hide Region, OwnNodes, ModuleAliases, Says, NoLater;
    var l := Located([], Both(s, t));
    PairRegion(s, t, c, d);
    ShortPaths();
    SaysImport(a, "tool");
    OnlyImportsSay(c, d);
    var own := OwnNodes(Region(l));
    PairApart(own, Located([0], s), Located([1], t), Located([0, 0], c), Located([1, 0], d));
    forall x | x in own && "tool" in Says(x) ensures NoLater(a.path, x.path) {
      assert x == Located([0], s) || x == Located([1], t);
    }
    assert a in own;
    FirstImportIsRead(l, a, "tool");
    assert Lexical(l.node, []) == VisibleIn(l, SEED);
  }

  lemma PairApart(own: seq<Located>, a: Located, b: Located, x: Located, y: Located)
    requires own == [b, y, a, x] && a.path == [0] && b.path == [1] && x.node.kind.Alias? && y.node.kind.Alias?
    ensures ImportsApart(own)
  {
    assert !StartsWithPath([0], [1]) && !StartsWithPath([1], [0]) by { assert [0][..1] == [0] && [1][..1] == [1]; }
    forall p, q | p in own && q in own && p.node.kind.Import? && q.node.kind.Import? && p != q ensures !StartsWithPath(p.path, q.path) {
      assert (p == a && q == b) || (p == b && q == a);
    }
  }

  lemma PairIsGrammatical(s: Node, t: Node, c: Node, d: Node)
    requires s.kind.Import? && t.kind.Import? && s.children == [c] && t.children == [d] && c.children == d.children == []
    requires c.kind.Alias? && d.kind.Alias? && NoDot(c.kind.asName) && NoDot(d.kind.asName)
    ensures Grammatical(Located([], Both(s, t)))
  {
    hide Region, OwnNodes, HeldBelow;
    PairRegion(s, t, c, d);
    ShortHeld(Both(s, t), [0]);
    ShortHeld(Both(s, t), [1]);
    assert [0][0..] == [0] && [1][0..] == [1];
  }

  lemma OnlyImportsSay(c: Node, d: Node)
    requires c.kind.Alias? && d.kind.Alias?
    ensures "tool" !in Says(Located([0, 0], c)) && "tool" !in Says(Located([1, 0], d))
  {
  }

  /** After `import os as tool`, `import socket as tool` the alias is the socket module at run
      time and is read as os. */
  lemma EarlierImportIsRead()
    ensures ReadAs(Both(IMPORT_OS, IMPORT_SOCKET), "tool", "os")
    ensures var l := Located([], Both(IMPORT_OS, IMPORT_SOCKET));
      LastToBind(l, Located([1], IMPORT_SOCKET), "tool") && Makes(IMPORT_SOCKET, "tool") == TheModule("socket")
  {
    hide Region, OwnNodes, Lexical, Says, Makes;
    ExampleSays(Located([0], IMPORT_OS), "os");
    ExampleSays(Located([1], IMPORT_SOCKET), "socket");
    PairReads(IMPORT_OS, IMPORT_SOCKET, OS, SOCKET, Located([0], IMPORT_OS));
    PairLast(IMPORT_OS, IMPORT_SOCKET, OS, SOCKET);
  }

  /** After `import json as tool`, `import os as tool` it is os in both: json is no listed
      module, so the import of it does not count as the first. */
  lemma UnlistedImportIsPassedOver()
    ensures ReadAs(Both(IMPORT_JSON, IMPORT_OS), "tool", "os")
    ensures Makes(IMPORT_JSON, "tool") == TheModule("json") && Says(Located([0], IMPORT_JSON)) == map[]
    ensures var l := Located([], Both(IMPORT_JSON, IMPORT_OS));
      "tool" in ModuleAliases(OwnNodes(Region(l)), map[]) && FirstAndLastAgree(l, "tool") && ReadsLastBinding(l, "tool")
  {
    hide Region, OwnNodes, Lexical, Says, Makes, ModuleAliases;
    ExampleSays(Located([0], IMPORT_JSON), "json");
    ExampleSays(Located([1], IMPORT_OS), "os");
    PairReads(IMPORT_JSON, IMPORT_OS, JSON, OS, Located([1], IMPORT_OS));
    PairLast(IMPORT_JSON, IMPORT_OS, JSON, OS);
    assert NoDot("tool");
    PairIsGrammatical(IMPORT_JSON, IMPORT_OS, JSON, OS);
    AliasReadExactly(Located([], Both(IMPORT_JSON, IMPORT_OS)), "tool");
  }

  /** After `import os as tool`, `from builders import build as tool` the alias is a function
      at run time and is still read as os. */
  lemma LaterFromImportIsMissed()
    ensures ReadAs(Both(IMPORT_OS, IMPORT_FROM), "tool", "os")
    ensures var l := Located([], Both(IMPORT_OS, IMPORT_FROM));
      "tool" in ModuleAliases(OwnNodes(Region(l)), map[]) && !ReadsLastBinding(l, "tool")
  {
    hide Region, OwnNodes, Lexical, Says, ModuleAliases;
    ExampleSays(Located([0], IMPORT_OS), "os");
    assert BoundAs(BUILDER.kind) == "tool" && IMPORT_FROM.children[0] == BUILDER by { assert |"tool"| == 4; }
    assert Makes(IMPORT_FROM, "tool") == SomethingElse;
    PairReads(IMPORT_OS, IMPORT_FROM, OS, BUILDER, Located([0], IMPORT_OS));
    PairLast(IMPORT_OS, IMPORT_FROM, OS, BUILDER);
  }
}
