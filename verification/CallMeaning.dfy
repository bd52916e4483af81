/** What the visit records at a call, told from the call and the bindings it is judged with. */
module CallMeaning {
  import opened Numerals
  import opened Orders
  import opened PythonTree
  import opened ExpressionChains
  import opened ScopeModel
  import opened LexicalScopes
  import opened LambdaScopes
  import opened NameBinders
  import opened ListReadings
  import opened BindingMeaning
  import opened CallSites

  // ----- What is recorded at one node -----

  function RowsAt(rows: seq<Row>, p: Path): seq<Row> {
    if rows == [] then [] else (if rows[0].position == p then [rows[0]] else []) + RowsAt(rows[1..], p)
  }

  function SpotsAt(spots: seq<BlindSpot>, p: Path): seq<BlindSpot> {
    if spots == [] then [] else (if spots[0].position == p then [spots[0]] else []) + SpotsAt(spots[1..], p)
  }

  /** The part of a record that stands at one node. */
  function OnlyAt(s: Sites, p: Path): Sites {
    Sites(RowsAt(s.rows, p), SpotsAt(s.opaqueCommands, p), SpotsAt(s.untraceableRoots, p))
  }

  lemma {:induction false} RowsAppend(a: seq<Row>, b: seq<Row>, p: Path)
    ensures RowsAt(a + b, p) == RowsAt(a, p) + RowsAt(b, p)
  {
    if a == [] {
      assert a + b == b;
    } else {
      var x, rest := a[0], a[1..];
      RowsAppend(rest, b, p);
      assert (a + b)[0] == x && (a + b)[1..] == rest + b;
      Associative(if x.position == p then [x] else [], RowsAt(rest, p), RowsAt(b, p));
    }
  }

  lemma {:induction false} SpotsAppend(a: seq<BlindSpot>, b: seq<BlindSpot>, p: Path)
    ensures SpotsAt(a + b, p) == SpotsAt(a, p) + SpotsAt(b, p)
  {
    if a == [] {
      assert a + b == b;
    } else {
      var x, rest := a[0], a[1..];
      SpotsAppend(rest, b, p);
      assert (a + b)[0] == x && (a + b)[1..] == rest + b;
      Associative(if x.position == p then [x] else [], SpotsAt(rest, p), SpotsAt(b, p));
    }
  }

  lemma OnlyAtPlus(a: Sites, b: Sites, p: Path)
    ensures OnlyAt(a.Plus(b), p) == OnlyAt(a, p).Plus(OnlyAt(b, p))
  {
    RowsAppend(a.rows, b.rows, p);
    SpotsAppend(a.opaqueCommands, b.opaqueCommands, p);
    SpotsAppend(a.untraceableRoots, b.untraceableRoots, p);
  }

  /** All of the record stands at one node. */
  predicate StandsAt(s: Sites, p: Path) {
    (forall x | x in s.rows :: x.position == p) && (forall x | x in s.opaqueCommands :: x.position == p) &&
    (forall x | x in s.untraceableRoots :: x.position == p)
  }

  lemma {:induction false} SameRows(rows: seq<Row>, p: Path, q: Path)
    requires forall x | x in rows :: x.position == p
    ensures RowsAt(rows, q) == if q == p then rows else []
  {
    if rows != [] {
      assert rows[0] in rows && forall x | x in rows[1..] :: x in rows;
      SameRows(rows[1..], p, q);
    }
  }

  lemma {:induction false} SameSpots(spots: seq<BlindSpot>, p: Path, q: Path)
    requires forall x | x in spots :: x.position == p
    ensures SpotsAt(spots, q) == if q == p then spots else []
  {
    if spots != [] {
      assert spots[0] in spots && forall x | x in spots[1..] :: x in spots;
      SameSpots(spots[1..], p, q);
    }
  }

  lemma OnlyThere(s: Sites, p: Path, q: Path)
    requires StandsAt(s, p)
    ensures OnlyAt(s, q) == if q == p then s else NOTHING
  {
    SameRows(s.rows, p, q);
    SameSpots(s.opaqueCommands, p, q);
    SameSpots(s.untraceableRoots, p, q);
  }

  lemma HereStands(l: Located, b: Bindings, fn: string, isCallee: bool, primitives: map<string, string>)
    ensures StandsAt(Here(l, b, fn, isCallee, primitives), l.path)
  {
    if l.node.kind.Call? {
      LaunchStands(l, b, fn);
      SdkStands(l, b, fn);
      hide CalledName, DockerInvocation, SdkCall;
      PlusStands(DockerInvocation(l, b, fn), SdkCall(l, b, fn), l.path);
    }
  }

  lemma LaunchStands(l: Located, b: Bindings, fn: string)
    requires l.node.kind.Call?
    ensures StandsAt(DockerInvocation(l, b, fn), l.path)
  {
    hide IsProcessLaunch, IsOpaque, DockerSubcommand;
  }

  lemma SdkStands(l: Located, b: Bindings, fn: string)
    requires l.node.kind.Call?
    ensures StandsAt(SdkCall(l, b, fn), l.path)
  {
    hide SdkMethod, LooksLikeUnrootedSdkCall;
  }

  lemma PlusStands(s: Sites, t: Sites, p: Path)
    requires StandsAt(s, p) && StandsAt(t, p)
    ensures StandsAt(s.Plus(t), p)
  {
  }

  /** A node's children record nothing at places that do not lie below it. */
  lemma {:induction false} NothingElsewhere(tree: Node, l: Located, at: Position, isCallee: bool, p: Path, primitives: map<string, string>)
    requires ScopeAt(tree, at.scope) && (IsEntered(l.node) ==> ScopeAt(tree, l.path)) && BelongsTo(tree, l)
    requires !StartsWithPath(p, l.path)
    ensures OnlyAt(SitesAt(tree, l, at, isCallee, primitives), p) == NOTHING
    decreases l.node, |l.node.children| + 1
  {
    hide Here, Lexical, OnlyAt, StandsAt;
    var kids := SitesOfKids(tree, l, Inside(l, at), |l.node.children|, primitives);
    var here := Here(l, Lexical(tree, at.scope), at.fn, isCallee, primitives);
    HereStands(l, Lexical(tree, at.scope), at.fn, isCallee, primitives);
    assert l.path != p by { assert p[..|p|] == p; }
    OnlyThere(here, l.path, p);
    NothingInKids(tree, l, Inside(l, at), |l.node.children|, p, primitives);
    NothingAt(p);
    OnlyAtPlus(if IsEntered(l.node) then NOTHING else here, kids, p);
  }

  lemma NothingAt(p: Path)
    ensures OnlyAt(NOTHING, p) == NOTHING && NOTHING.Plus(NOTHING) == NOTHING
  {
  }

  lemma {:induction false} NothingInKids(tree: Node, l: Located, at: Position, k: nat, p: Path, primitives: map<string, string>)
    requires ScopeAt(tree, at.scope) && BelongsTo(tree, l) && k <= |l.node.children|
    requires forall i | 0 <= i < k :: !StartsWithPath(p, l.path + [i])
    ensures OnlyAt(SitesOfKids(tree, l, at, k, primitives), p) == NOTHING
    decreases l.node, k
  {
    hide SitesAt, Lexical, OnlyAt;
    NothingAt(p);
    if k > 0 {
      KidBelongs(tree, l, k - 1);
      var kid := Located(l.path + [k - 1], l.node.children[k - 1]);
      NothingInKids(tree, l, at, k - 1, p, primitives);
      NothingElsewhere(tree, kid, at, l.node.kind.Call? && k == 1, p, primitives);
      OnlyAtPlus(SitesOfKids(tree, l, at, k - 1, primitives), SitesAt(tree, kid, at, l.node.kind.Call? && k == 1, primitives), p);
    }
  }

  lemma OneKid(tree: Node, l: Located, at: Position, k: nat, i: nat, p: Path, primitives: map<string, string>)
    requires ScopeAt(tree, at.scope) && BelongsTo(tree, l) && i < k <= |l.node.children|
    requires StartsWithPath(p, l.path + [i]) && BelongsTo(tree, Kids(l)[i])
    ensures OnlyAt(SitesOfKids(tree, l, at, k, primitives), p) ==
            OnlyAt(SitesAt(tree, Kids(l)[i], at, l.node.kind.Call? && i == 0, primitives), p)
    decreases k
  {
    hide SitesAt, Lexical, OnlyAt;
    KidBelongs(tree, l, k - 1);
    var last := Kids(l)[k - 1];
    NothingAt(p);
    OnlyAtPlus(SitesOfKids(tree, l, at, k - 1, primitives), SitesAt(tree, last, at, l.node.kind.Call? && k == 1, primitives), p);
    if i == k - 1 {
      forall j | 0 <= j < k - 1 ensures !StartsWithPath(p, l.path + [j]) { OtherKid(l.path, i, j, p); }
      NothingInKids(tree, l, at, k - 1, p, primitives);
      PlusNothingLeft(OnlyAt(SitesAt(tree, last, at, l.node.kind.Call? && k == 1, primitives), p));
    } else {
      OneKid(tree, l, at, k - 1, i, p, primitives);
      OtherKid(l.path, i, k - 1, p);
      NothingElsewhere(tree, last, at, l.node.kind.Call? && k == 1, p, primitives);
      PlusNothingLeft(OnlyAt(SitesOfKids(tree, l, at, k - 1, primitives), p));
    }
  }

  lemma PlusNothingLeft(s: Sites)
    ensures NOTHING.Plus(s) == s && s.Plus(NOTHING) == s
  {
  }

  lemma OtherKid(q: Path, i: nat, j: nat, p: Path)
    requires StartsWithPath(p, q + [i]) && i != j
    ensures !StartsWithPath(p, q + [j])
  {
    assert p[..|q| + 1][|q|] == i;
    assert (q + [j])[|q|] == j;
  }

  /** The visit records at each node exactly what the node contributes, with the bindings of
      the definition it stands in: nothing more, and nothing at it from elsewhere. */
  lemma {:induction false} RecordedAtNode(tree: Node, l: Located, at: Position, isCallee: bool, r: Path, primitives: map<string, string>)
    requires ScopeAt(tree, at.scope) && (IsEntered(l.node) ==> ScopeAt(tree, l.path)) && BelongsTo(tree, l) && ValidPath(l.node, r)
    ensures ScopeAt(tree, StandingAt(l, at, r).scope)
    ensures OnlyAt(SitesAt(tree, l, at, isCallee, primitives), l.path + r) ==
      if IsEntered(At(l.node, r)) then NOTHING else Contribution(tree, l, at, isCallee, r, primitives)
    decreases |r|
  {
    hide Here, Lexical, OnlyAt, StandsAt;
    StandingIsScope(tree, l, at, r);
    var p := l.path + r;
    var kids := SitesOfKids(tree, l, Inside(l, at), |l.node.children|, primitives);
    var here := if IsEntered(l.node) then NOTHING else Here(l, Lexical(tree, at.scope), at.fn, isCallee, primitives);
    OnlyAtPlus(here, kids, p);
    NothingAt(p);
    HereStands(l, Lexical(tree, at.scope), at.fn, isCallee, primitives);
    OnlyThere(Here(l, Lexical(tree, at.scope), at.fn, isCallee, primitives), l.path, p);
    if r == [] {
      RecordedHere(tree, l, Inside(l, at), primitives);
      assert p == l.path && Child(l, r) == l;
      PlusNothingLeft(OnlyAt(here, p));
    } else {
      var kid := Kids(l)[r[0]];
      KidBelongs(tree, l, r[0]);
      assert p == kid.path + r[1..];
      assert StartsWithPath(p, kid.path) by { assert p[..|kid.path|] == kid.path; }
      OneKid(tree, l, Inside(l, at), |l.node.children|, r[0], p, primitives);
      RecordedAtNode(tree, kid, Inside(l, at), l.node.kind.Call? && r[0] == 0, r[1..], primitives);
      if !IsEntered(At(l.node, r)) { ContributionBelow(tree, l, at, isCallee, r, primitives); }
      PlusNothingLeft(OnlyAt(kids, p));
    }
  }

  lemma RecordedHere(tree: Node, l: Located, at: Position, primitives: map<string, string>)
    requires ScopeAt(tree, at.scope) && BelongsTo(tree, l)
    ensures OnlyAt(SitesOfKids(tree, l, at, |l.node.children|, primitives), l.path) == NOTHING
  {
    forall i | 0 <= i < |l.node.children| ensures !StartsWithPath(l.path, l.path + [i]) {}
    NothingInKids(tree, l, at, |l.node.children|, l.path, primitives);
  }

  // ----- Calls in plain terms -----

  /** In Python's grammar a call has a callee and at least its positional arguments. */
  predicate CallSpelled(call: Node) {
    call.kind.Call? && |call.children| > call.kind.positional && IsSpelled(call.children[0])
  }

  /** The first argument is a display of these elements, or a name that resolves to one. */
  ghost predicate Vector(call: Node, lists: map<string, Node>, elements: seq<Node>)
    requires CallSpelled(call)
  {
    call.kind.positional > 0 &&
    var first := call.children[1];
    (first.kind.Sequence? && elements == first.children) ||
    (first.kind.Name? && first.kind.id in lists && elements == lists[first.kind.id].children)
  }

  /** The callee is a launcher's name, or a launcher of a process module. */
  ghost predicate Launches(call: Node, b: Bindings)
    requires CallSpelled(call)
  {
    var callee := call.children[0];
    (callee.kind.Name? && callee.kind.id in b.launchers) ||
    (callee.kind.Attribute? && callee.kind.attr in LAUNCHERS &&
     exists parts :: HasParts(callee, parts) && parts != [] && parts[0] in b.processModules)
  }

  /** `name` is what stands behind the last `c` of the text, or the whole text without one. */
  ghost predicate Last(text: string, c: char, name: string) {
    c !in name && (text == name || exists before :: text == before + [c] + name)
  }

  /** The first element is no constant, or it is a shell, by whatever path, and some element
      is no constant. */
  ghost predicate Unreadable(elements: seq<Node>) {
    elements != [] &&
    (!elements[0].kind.Constant? ||
     ((exists name :: Last(elements[0].kind.text, '/', name) && name in SHELLS) &&
      exists i :: 0 <= i < |elements| && !elements[i].kind.Constant?))
  }

  /** What is launched cannot be read off the call. */
  ghost predicate CannotRead(call: Node, lists: map<string, Node>)
    requires CallSpelled(call)
  {
    call.kind.positional > 0 &&
    ((exists elements :: Vector(call, lists, elements) && Unreadable(elements)) ||
     ((forall elements :: !Vector(call, lists, elements)) && !call.children[1].kind.Constant?))
  }

  /** Of the constants among the elements the first is `docker`, and the second, if there is
      one, the subcommand. */
  ghost predicate RunsDocker(elements: seq<Node>, subcommand: string) {
    exists i ::
      0 <= i < |elements| && elements[i].kind == Constant(true, "docker") && (forall k | 0 <= k < i :: !elements[k].kind.Constant?) &&
      ((subcommand == "" && forall k | i < k < |elements| :: !elements[k].kind.Constant?) || SecondIs(elements, i, subcommand))
  }

  ghost predicate SecondIs(elements: seq<Node>, i: nat, subcommand: string) {
    exists j :: i < j < |elements| && elements[j].kind.Constant? && elements[j].kind.text == subcommand &&
      forall k | i < k < j :: !elements[k].kind.Constant?
  }

  lemma {:induction false} AfterLastOf(before: string, c: char, name: string)
    requires c !in name
    ensures AfterLast(before + [c] + name, c) == name
    decreases |before|
  {
    var text := before + [c] + name;
    assert text[|before|] == c;
    if before == "" {
      assert text[1..] == name;
    } else {
      assert text[1..] == before[1..] + [c] + name && text[1..][|before| - 1] == c;
      AfterLastOf(before[1..], c, name);
    }
  }

  lemma {:induction false} HasLast(text: string, c: char) returns (name: string)
    ensures Last(text, c, name)
  {
    if c !in text {
      name := text;
    } else {
      assert text == [text[0]] + text[1..];
      if c in text[1..] {
        name := HasLast(text[1..], c);
        var before :| text[1..] == before + [c] + name;
        assert text == ([text[0]] + before) + [c] + name;
      } else {
        name := text[1..];
        assert text == "" + [c] + name;
      }
    }
  }

  lemma AfterLastMeans(text: string, c: char)
    ensures forall name :: Last(text, c, name) <==> name == AfterLast(text, c)
  {
    forall name | Last(text, c, name) ensures name == AfterLast(text, c) {
      if text != name {
        var before :| text == before + [c] + name;
        AfterLastOf(before, c, name);
      }
    }
    var some := HasLast(text, c);
  }

  lemma VectorMeans(call: Node, lists: map<string, Node>)
    requires CallSpelled(call)
    ensures ArgumentVector(call, lists).None? <==> forall elements :: !Vector(call, lists, elements)
    ensures forall elements :: Vector(call, lists, elements) <==>
      ArgumentVector(call, lists).Some? && elements == ArgumentVector(call, lists).value.children
  {
    hide IsSpelled;
    if ArgumentVector(call, lists).Some? { assert Vector(call, lists, ArgumentVector(call, lists).value.children); }
  }

  lemma OpaqueMeans(call: Node, lists: map<string, Node>)
    requires CallSpelled(call)
    ensures IsOpaque(call, lists) <==> CannotRead(call, lists)
  {
    hide IsSpelled, Vector, ArgumentVector, AfterLast, Last;
    VectorMeans(call, lists);
    var vector := ArgumentVector(call, lists);
    if call.kind.positional > 0 {
      assert CallArguments(call)[0] == call.children[1];
      if vector.Some? {
        var elements := vector.value.children;
        ShellMeans(elements);
        assert Vector(call, lists, elements);
      }
    }
  }

  lemma ShellMeans(elements: seq<Node>)
    ensures Unreadable(elements) <==>
      elements != [] &&
      (!elements[0].kind.Constant? || (AfterLast(elements[0].kind.text, '/') in SHELLS && !AllConstant(elements)))
  {
    hide AfterLast, Last;
    if elements != [] && elements[0].kind.Constant? {
      AfterLastMeans(elements[0].kind.text, '/');
      if !AllConstant(elements) {
        var e :| e in elements && !e.kind.Constant?;
        var i :| 0 <= i < |elements| && elements[i] == e;
      }
    }
  }

  lemma LaunchMeans(call: Node, b: Bindings)
    requires CallSpelled(call)
    ensures IsProcessLaunch(call, b) <==> Launches(call, b)
  {
    hide HasParts, AttributeChain, IsSpelled;
    var callee := call.children[0];
    assert AttributeChain(call) == AttributeChain(callee) by { ChainOfCall(call); }
    forall parts ensures HasParts(callee, parts) <==> parts == AttributeChain(callee) { PartsAreChain(callee, parts); }
  }

  lemma ChainOfCall(call: Node)
    requires call.kind.Call? && call.children != []
    ensures AttributeChain(call) == AttributeChain(call.children[0])
  {
  }

  lemma {:induction false} LiteralsMean(elements: seq<Node>)
    ensures Literals(elements) == [] <==> forall k | 0 <= k < |elements| :: !elements[k].kind.Constant?
    ensures Literals(elements) != [] ==> exists j :: 0 <= j < |elements| && FirstLiteral(elements, j)
  {
    if elements != [] {
      LiteralsMean(elements[1..]);
      if elements[0].kind.Constant? {
        assert FirstLiteral(elements, 0);
      } else if Literals(elements[1..]) != [] {
        var j :| 0 <= j < |elements[1..]| && FirstLiteral(elements[1..], j);
        assert elements[1..][j] == elements[j + 1] && elements[j + 1..] == elements[1..][j..] && elements[j + 2..] == elements[1..][j + 1..];
        assert forall k | 0 <= k < j + 1 :: !elements[k].kind.Constant? by {
          assert forall k | 1 <= k < |elements| :: elements[k] == elements[1..][k - 1];
        }
        assert FirstLiteral(elements, j + 1);
      }
    }
  }

  /** The first constant stands at `j`. */
  ghost predicate FirstLiteral(elements: seq<Node>, j: nat)
    requires j < |elements|
  {
    elements[j].kind.Constant? && (forall k | 0 <= k < j :: !elements[k].kind.Constant?) &&
    Literals(elements) == [elements[j].kind] + Literals(elements[j + 1..])
  }

  lemma DockerMeans(elements: seq<Node>, subcommand: string)
    ensures RunsDocker(elements, subcommand) <==>
      var literals := Literals(elements);
      literals != [] && literals[0] == Constant(true, "docker") &&
      subcommand == if |literals| > 1 && literals[1].Constant? then literals[1].text else ""
  {
    hide Literals, SecondIs;
    LiteralsMean(elements);
    if Literals(elements) != [] {
      var i :| 0 <= i < |elements| && FirstLiteral(elements, i);
      SecondMeans(elements, i, subcommand);
      var rest := Literals(elements[i + 1..]);
      assert Literals(elements) == [elements[i].kind] + rest;
      hide FirstLiteral;
      forall k | 0 <= k < |elements| && elements[k].kind.Constant? && (forall m | 0 <= m < k :: !elements[m].kind.Constant?)
        ensures k == i {}
    }
  }

  /** What follows the first constant. */
  lemma SecondMeans(elements: seq<Node>, i: nat, subcommand: string)
    requires i < |elements|
    ensures var rest := Literals(elements[i + 1..]);
      (rest == [] <==> forall k | i < k < |elements| :: !elements[k].kind.Constant?) &&
      (rest != [] ==> rest[0].Constant? && (SecondIs(elements, i, subcommand) <==> subcommand == rest[0].text)) &&
      (rest == [] ==> !SecondIs(elements, i, subcommand))
  {
    hide Literals;
    var rest := elements[i + 1..];
    LiteralsMean(rest);
    assert forall k | i < k < |elements| :: elements[k] == rest[k - i - 1];
    if Literals(rest) != [] {
      var j :| 0 <= j < |rest| && FirstLiteral(rest, j);
      SecondAt(elements, i, i + 1 + j, subcommand);
      assert elements[i + 1 + j].kind.Constant?;
    }
  }

  lemma SecondAt(elements: seq<Node>, i: nat, j: nat, subcommand: string)
    requires i < j < |elements| && elements[j].kind.Constant? && forall k | i < k < j :: !elements[k].kind.Constant?
    ensures SecondIs(elements, i, subcommand) <==> subcommand == elements[j].kind.text
  {
  }

  /** A chain of at least two parts that starts at an object fetched from a client, at a
      client, or at a Docker module with a constructor further on. */
  ghost predicate Rooted(parts: seq<string>, b: Bindings) {
    |parts| >= 2 &&
    (parts[0] in b.sdkBoundNames || parts[0] in b.clientNames ||
     (parts[0] in b.dockerModules && exists i :: 1 <= i < |parts| && parts[i] in CLIENT_CONSTRUCTORS))
  }

  /** Such a chain with a collection anywhere, or one from a fetched object to a mutating method. */
  ghost predicate CallsSdk(parts: seq<string>, b: Bindings) {
    Rooted(parts, b) &&
    ((exists i :: 0 <= i < |parts| && parts[i] in SDK_COLLECTIONS) ||
     (parts[0] in b.sdkBoundNames && parts[|parts| - 1] in MUTATING_METHODS))
  }

  /** A chain with a collection before its last part. */
  ghost predicate ShapedLikeSdk(parts: seq<string>) {
    |parts| >= 2 && exists i :: 0 <= i < |parts| - 1 && parts[i] in SDK_COLLECTIONS
  }

  lemma MemberAt(xs: seq<string>, from: nat, to: nat, s: set<string>)
    requires from <= to <= |xs|
    ensures (exists x :: x in xs[from..to] && x in s) <==> exists i :: from <= i < to && xs[i] in s
  {
    if x :| x in xs[from..to] && x in s {
      var i :| 0 <= i < to - from && xs[from..to][i] == x;
      assert xs[from + i] in s;
    }
    if i :| from <= i < to && xs[i] in s { assert xs[from..to][i - from] == xs[i]; }
  }

  lemma SdkMeans(call: Node, b: Bindings, parts: seq<string>)
    requires CallSpelled(call) && HasParts(call.children[0], parts)
    ensures SdkMethod(call, b) ==
      if CallsSdk(parts, b) then Some(parts[|parts| - 2] + "." + parts[|parts| - 1]) else None
    ensures LooksLikeUnrootedSdkCall(call) <==> ShapedLikeSdk(parts)
  {
    hide IsSpelled, HasParts, AttributeChain;
    PartsAreChain(call.children[0], parts);
    assert AttributeChain(call) == parts by { ChainOfCall(call); }
    if |parts| >= 2 {
      MemberAt(parts, 1, |parts|, CLIENT_CONSTRUCTORS);
      MemberAt(parts, 0, |parts|, SDK_COLLECTIONS);
      MemberAt(parts, 0, |parts| - 1, SDK_COLLECTIONS);
      assert parts[0..|parts|] == parts && parts[1..|parts|] == parts[1..] && parts[0..|parts| - 1] == parts[..|parts| - 1];
    }
  }

  // ----- The record of a call -----

  /** The rows and blind spots of a process launch. */
  ghost predicate LaunchRecorded(call: Node, p: Path, b: Bindings, fn: string, s: Sites)
    requires CallSpelled(call)
  {
    if !Launches(call, b) then s == NOTHING
    else if CannotRead(call, b.commandLists) then
      s == Sites([Row(p, fn, "process UNKNOWN", UnknownCommand, "unknown-command", true)], [BlindSpot(p, fn)], [])
    else
      (forall elements, sub | Vector(call, b.commandLists, elements) && RunsDocker(elements, sub) ::
        s == Sites([Row(p, fn, Strip("docker " + sub), DockerCli, "direct-docker-cli", sub in MUTATING_SUBCOMMANDS)], [], [])) &&
      ((forall elements, sub :: !(Vector(call, b.commandLists, elements) && RunsDocker(elements, sub))) ==> s == NOTHING)
  }

  /** The row of a call into the SDK, or the blind spot of one that only looks like it. */
  ghost predicate SdkRecorded(parts: seq<string>, p: Path, b: Bindings, fn: string, s: Sites) {
    if CallsSdk(parts, b) then
      var method_ := parts[|parts| - 2] + "." + parts[|parts| - 1];
      exists name :: Last(method_, '.', name) &&
        s == Sites([Row(p, fn, "sdk " + method_, DockerSdk, "direct-docker-sdk", name in MUTATING_METHODS)], [], [])
    else if ShapedLikeSdk(parts) then s == Sites([], [], [BlindSpot(p, fn)])
    else s == NOTHING
  }

  lemma LaunchIsRecorded(l: Located, b: Bindings, fn: string)
    requires CallSpelled(l.node)
    ensures LaunchRecorded(l.node, l.path, b, fn, DockerInvocation(l, b, fn))
  {
    hide CallSpelled, Vector, RunsDocker, IsProcessLaunch, IsOpaque, Launches, CannotRead, ArgumentVector, Literals, Strip;
    var lists := b.commandLists;
    CallHasCallee(l.node);
    LaunchMeans(l.node, b);
    OpaqueMeans(l.node, lists);
    VectorMeans(l.node, lists);
    if ArgumentVector(l.node, lists).Some? {
      var elements := ArgumentVector(l.node, lists).value.children;
      forall sub ensures RunsDocker(elements, sub) <==> DockerSubcommand(l.node, lists) == Some(sub) { DockerMeans(elements, sub); }
      assert Vector(l.node, lists, elements);
    }
  }

  lemma SdkIsRecorded(l: Located, b: Bindings, fn: string, parts: seq<string>)
    requires CallSpelled(l.node) && HasParts(l.node.children[0], parts)
    ensures SdkRecorded(parts, l.path, b, fn, SdkCall(l, b, fn))
  {
    hide CallSpelled, SdkMethod, LooksLikeUnrootedSdkCall, CallsSdk, ShapedLikeSdk, AfterLast, Last, HasParts;
    SdkMeans(l.node, b, parts);
    if CallsSdk(parts, b) {
      assert |parts| >= 2 by { SdkIsLong(parts, b); }
      var method_ := parts[|parts| - 2] + "." + parts[|parts| - 1];
      AfterLastMeans(method_, '.');
      assert Last(method_, '.', AfterLast(method_, '.'));
    }
  }

  lemma SdkIsLong(parts: seq<string>, b: Bindings)
    requires CallsSdk(parts, b)
    ensures |parts| >= 2
  {
  }

  /** The name the callee spells. */
  predicate Calls(call: Node, name: string)
    requires CallSpelled(call)
  {
    (call.children[0].kind.Name? && call.children[0].kind.id == name) ||
    (call.children[0].kind.Attribute? && call.children[0].kind.attr == name)
  }

  /** Of a call of a primitive the record holds that row; of any other call what its launch and
      its SDK chain owe, judged with the bindings of the definition it stands in. */
  lemma CallIsRecorded(tree: Node, p: Path, parts: seq<string>, primitives: map<string, string>)
    requires ValidPath(tree, p) && CallSpelled(At(tree, p)) && HasParts(At(tree, p).children[0], parts) && "" !in primitives
    ensures ScopeAt(tree, Standing(tree, p))
    ensures var call, at := At(tree, p), StandingAt(Located([], tree), TOP, p);
      var b, record := Lexical(tree, at.scope), OnlyAt(SitesAt(tree, Located([], tree), TOP, false, primitives), p);
      (forall name | Calls(call, name) && name in primitives ::
        record == Sites([Row(p, at.fn, name, DirectCall, primitives[name], primitives[name] in MUTATING_ACCESS)], [], [])) &&
      ((forall name | Calls(call, name) :: name !in primitives) ==>
        exists launch, sdk ::
          LaunchRecorded(call, p, b, at.fn, launch) && SdkRecorded(parts, p, b, at.fn, sdk) && record == launch.Plus(sdk))
  {
    hide CallSpelled, Lexical, SitesAt, OnlyAt, StandingAt, HasParts, LaunchRecorded, SdkRecorded, DockerInvocation, SdkCall;
    var root := Located([], tree);
    AtRoot(tree);
    RootIsScope(tree);
    RecordedAtNode(tree, root, TOP, false, p, primitives);
    assert root.path + p == p;
    var call, at := At(tree, p), StandingAt(root, TOP, p);
    assert call.kind.Call? && call.children != [] by { CallHasCallee(call); }
    var b, l := Lexical(tree, at.scope), Located(p, call);
    assert Child(root, p) == l;
    LaunchIsRecorded(l, b, at.fn);
    SdkIsRecorded(l, b, at.fn, parts);
  }

  /** A primitive referenced without being called is recorded as passed on: an attribute, or a
      name that is read, anywhere but as the callee of a call. */
  lemma ReferenceIsRecorded(tree: Node, q: Path, i: nat, name: string, primitives: map<string, string>)
    requires ValidPath(tree, q + [i]) && ValidPath(tree, q) && i < |At(tree, q).children| && At(tree, q + [i]) == At(tree, q).children[i]
    requires At(tree, q + [i]).kind == Attribute(name) || At(tree, q + [i]).kind == Name(name, Load)
    ensures var at, p := StandingAt(Located([], tree), TOP, q + [i]), q + [i];
      var record := OnlyAt(SitesAt(tree, Located([], tree), TOP, false, primitives), p);
      record == if name in primitives && !(At(tree, q).kind.Call? && i == 0)
        then Sites([Row(p, at.fn, name, PassedCallable, primitives[name], primitives[name] in MUTATING_ACCESS)], [], []) else NOTHING
  {
    hide Lexical, SitesAt, OnlyAt, StandingAt;
    var root, p := Located([], tree), q + [i];
    AtRoot(tree);
    RootIsScope(tree);
    RecordedAtNode(tree, root, TOP, false, p, primitives);
    assert root.path + p == p;
    CalleeIsFirst(root, false, q, i);
  }

  lemma {:induction false} CalleeIsFirst(l: Located, isCallee: bool, q: Path, i: nat)
    requires ValidPath(l.node, q) && ValidPath(l.node, q + [i])
    ensures CalleeAt(l, isCallee, q + [i]) <==> At(l.node, q).kind.Call? && i == 0
    decreases |q|
  {
    if q == [] {
      assert [] + [i] == [i] && [i][1..] == [];
    } else {
      assert (q + [i])[0] == q[0] && (q + [i])[1..] == q[1..] + [i];
      CalleeIsFirst(Kids(l)[q[0]], l.node.kind.Call? && q[0] == 0, q[1..], i);
    }
  }

  lemma CallHasCallee(call: Node)
    requires CallSpelled(call)
    ensures call.kind.Call? && call.children != []
  {
  }

  // ----- A deleted volume -----

  const FROM_ENV := Node(Call(0), [Node(Attribute("from_env"), [Node(Name("docker", Load), [])])])
  const GET := Node(Call(1), [Node(Attribute("get"), [Node(Attribute("volumes"), [Node(Name("dockerClient", Load), [])])]),
                              Node(Name("sVolumeName", Load), [])])
  const REMOVE := Node(Call(0), [Node(Attribute("remove"), [Node(Name("volume", Load), [])]), Node(Other, [Node(Constant(false, "True"), [])])])
  const CLIENT := Node(Assign(1), [Node(Name("dockerClient", Store), []), FROM_ENV])
  const VOLUME := Node(Assign(1), [Node(Name("volume", Store), []), GET])

  /** `dockerClient = docker.from_env()`, `volume = dockerClient.volumes.get(sVolumeName)`,
      `volume.remove(force=True)`. */
  const DESTROY := Node(Module, [CLIENT, VOLUME, Node(Other, [REMOVE])])

  /** What every node of the example is. */
  predicate Plain(n: Node) {
    "docker" !in BoundBy(n) &&
    (n.kind.Assign? ==> n.kind.targets < |n.children| && IsSpelled(n.children[n.kind.targets]))
  }

  lemma AllPlain(n: Node)
    requires Plain(n) && forall i | 0 <= i < |n.children| :: Throughout(n.children[i], Plain)
    ensures Throughout(n, Plain)
  {
  }

  lemma LeafIsPlain(n: Node)
    requires n.children == [] && "docker" !in BoundBy(n) && !n.kind.Assign?
    ensures Throughout(n, Plain)
  {
  }

  lemma DestroyIsPlain()
    ensures forall i | 0 <= i < |DESTROY.children| :: Throughout(DESTROY.children[i], Plain)
  {
    hide Throughout, Plain;
    ClientIsPlain();
    VolumeIsPlain();
    RemoveIsPlain();
  }

  lemma ClientIsPlain()
    ensures Throughout(CLIENT, Plain)
  {
    hide Throughout;
    var attribute := FROM_ENV.children[0];
    LeafIsPlain(attribute.children[0]);
    AllPlain(attribute);
    AllPlain(FROM_ENV);
    LeafIsPlain(CLIENT.children[0]);
    DestroyChains();
    AllPlain(CLIENT);
  }

  lemma VolumeIsPlain()
    ensures Throughout(VOLUME, Plain)
  {
    hide Throughout;
    var attribute := GET.children[0];
    LeafIsPlain(attribute.children[0].children[0]);
    AllPlain(attribute.children[0]);
    AllPlain(attribute);
    LeafIsPlain(GET.children[1]);
    AllPlain(GET);
    LeafIsPlain(VOLUME.children[0]);
    DestroyChains();
    AllPlain(VOLUME);
  }

  lemma RemoveIsPlain()
    ensures Throughout(DESTROY.children[2], Plain)
  {
    hide Throughout;
    LeafIsPlain(REMOVE.children[0].children[0]);
    AllPlain(REMOVE.children[0]);
    LeafIsPlain(REMOVE.children[1].children[0]);
    AllPlain(REMOVE.children[1]);
    AllPlain(REMOVE);
    AllPlain(DESTROY.children[2]);
  }

  lemma DestroyOwn()
    ensures var l := Located([], DESTROY); var own := OwnNodes(Region(l));
      ValuesSpelled(own) && "docker" !in Counted(l) && Assigns(own, "dockerClient", FROM_ENV) && Assigns(own, "volume", GET)
  {
    hide OwnNodes, Throughout, NamesStored, Popped, IsSpelled;
    var l := Located([], DESTROY);
    DestroyIsPlain();
    ThroughoutPopped(Kids(l), Plain);
    FilterMembers(Region(l));
    StoredMeansBound(OwnNodes(Region(l)), "docker");
    OwnStatement(0);
    OwnStatement(1);
    assert CLIENT.children[0].kind == Name("dockerClient", Store) && VOLUME.children[0].kind == Name("volume", Store);
  }

  lemma OwnStatement(i: nat)
    requires i < 2
    ensures Located([i], DESTROY.children[i]) in OwnNodes(Region(Located([], DESTROY)))
  {
    hide Region, OwnNodes;
    var l, x := Located([], DESTROY), Located([i], DESTROY.children[i]);
    KidIsInside(DESTROY, i);
    assert x.path[0..] == [i];
    RegionMembers(l, x);
    FilterMembers(Region(l));
  }

  lemma DestroyChains()
    ensures IsSpelled(FROM_ENV) && IsSpelled(GET) && CallSpelled(REMOVE)
    ensures HasParts(FROM_ENV, ["docker", "from_env"]) && HasParts(GET, ["dockerClient", "volumes", "get"])
    ensures HasParts(REMOVE.children[0], ["volume", "remove"])
  {
    hide HasParts;
    assert AttributeChain(Node(Name("docker", Load), [])) == ["docker"];
    assert AttributeChain(FROM_ENV.children[0]) == ["docker", "from_env"];
    assert AttributeChain(Node(Name("dockerClient", Load), [])) == ["dockerClient"];
    assert AttributeChain(GET.children[0].children[0]) == ["dockerClient", "volumes"];
    assert AttributeChain(GET.children[0]) == ["dockerClient", "volumes", "get"];
    assert AttributeChain(Node(Name("volume", Load), [])) == ["volume"];
    assert AttributeChain(REMOVE.children[0]) == ["volume", "remove"];
    assert IsSpelled(FROM_ENV.children[0]) && IsSpelled(GET.children[0].children[0]) && IsSpelled(GET.children[0]) && IsSpelled(REMOVE.children[0]);
    PartsAreChain(FROM_ENV, ["docker", "from_env"]);
    PartsAreChain(GET, ["dockerClient", "volumes", "get"]);
    PartsAreChain(REMOVE.children[0], ["volume", "remove"]);
  }

  lemma ClientIsBound()
    ensures "dockerClient" in Lexical(DESTROY, []).clientNames
  {
    hide Lexical, Region, OwnNodes, Counted, IsSpelled, HasParts, Assigns, ValuesSpelled, Outside, ImportsModule;
    var v, own := Lexical(DESTROY, []), OwnNodes(Region(Located([], DESTROY)));
    DestroyOwn();
    OutsideRoot(DESTROY);
    EntryMeans(DESTROY, [], "docker");
    DestroyChains();
    var parts := ["docker", "from_env"];
    assert HasParts(FROM_ENV, parts) && MakesClient(FROM_ENV, v.dockerModules);
    assert AssignsClient(own, v.dockerModules, "dockerClient");
    hide MakesClient, AssignsClient;
    EntryMeans(DESTROY, [], "dockerClient");
  }

  /** The name bound to what the client returned is an SDK object in the module's entry. */
  lemma VolumeIsBound()
    ensures "volume" in Lexical(DESTROY, []).sdkBoundNames
  {
    hide Lexical, Region, OwnNodes, Counted, IsSpelled, HasParts, Assigns, ValuesSpelled, Outside, ImportsModule;
    var v, own := Lexical(DESTROY, []), OwnNodes(Region(Located([], DESTROY)));
    DestroyOwn();
    ClientIsBound();
    DestroyChains();
    var parts := ["dockerClient", "volumes", "get"];
    assert HasParts(GET, parts) && parts[1] in SDK_COLLECTIONS && Fetches(GET, v.clientNames);
    assert AssignsFetched(own, v.clientNames, "volume");
    hide Fetches, AssignsFetched;
    EntryMeans(DESTROY, [], "volume");
  }

  lemma OutsideRoot(tree: Node)
    ensures Outside(tree, []) == SEED
  {
  }

  lemma {:induction false} RowWithin(rows: seq<Row>, p: Path, x: Row)
    requires x in RowsAt(rows, p)
    ensures x in rows
  {
    if x != rows[0] || rows[0].position != p { RowWithin(rows[1..], p, x); }
  }

  /** The deletion is in the record, as a call that changes something. */
  lemma VolumeDeletionIsRecorded(primitives: map<string, string>)
    requires "" !in primitives && "remove" !in primitives
    ensures Row([2, 0], "<module>", "sdk volume.remove", DockerSdk, "direct-docker-sdk", true) in
      SitesAt(DESTROY, Located([], DESTROY), TOP, false, primitives).rows
  {
    hide Lexical, SitesAt, HasParts, IsSpelled, LaunchRecorded, OnlyAt, RowsAt;
    var p, parts := [2, 0], ["volume", "remove"];
    DestroyChains();
    VolumeIsBound();
    RemovePlace();
    CallIsRecorded(DESTROY, p, parts, primitives);
    var b, rows := Lexical(DESTROY, []), SitesAt(DESTROY, Located([], DESTROY), TOP, false, primitives).rows;
    var launch, sdk :| LaunchRecorded(REMOVE, p, b, "<module>", launch) && SdkRecorded(parts, p, b, "<module>", sdk) &&
      OnlyAt(SitesAt(DESTROY, Located([], DESTROY), TOP, false, primitives), p) == launch.Plus(sdk);
    RemoveCallsSdk(b, p, sdk);
    OnlyAtRows(SitesAt(DESTROY, Located([], DESTROY), TOP, false, primitives), p);
    RowWithin(rows, p, sdk.rows[0]);
  }

  lemma OnlyAtRows(s: Sites, p: Path)
    ensures OnlyAt(s, p).rows == RowsAt(s.rows, p)
  {
  }

  lemma RemoveCallsSdk(b: Bindings, p: Path, sdk: Sites)
    requires "volume" in b.sdkBoundNames && SdkRecorded(["volume", "remove"], p, b, "<module>", sdk)
    ensures sdk.rows == [Row(p, "<module>", "sdk volume.remove", DockerSdk, "direct-docker-sdk", true)]
  {
    hide Last;
    var parts := ["volume", "remove"];
    assert parts[1] == "remove" && "remove" in MUTATING_METHODS && CallsSdk(parts, b);
    assert parts[0] + "." + parts[1] == "volume.remove" && "sdk " + "volume.remove" == "sdk volume.remove";
    AfterLastMeans("volume.remove", '.');
    AfterLastOf("volume", '.', "remove");
    assert "volume" + ['.'] + "remove" == "volume.remove";
  }

  lemma RemovePlace()
    ensures ValidPath(DESTROY, [2, 0]) && At(DESTROY, [2, 0]) == REMOVE && StandingAt(Located([], DESTROY), TOP, [2, 0]) == TOP
  {
    var l := Located([], DESTROY);
    var k := Kids(l)[2];
    assert [2] + [0] == [2, 0] && [0] + [] == [0] && [2, 0][1..] == [0] && [0][1..] == [];
    StandingStep(k, TOP, 0, []);
    StandingStep(l, TOP, 2, [0]);
  }

  // ----- A shell that runs a variable -----

  const SHELL := Node(Call(1), [Node(Attribute("run"), [Node(Name("subprocess", Load), [])]),
    Node(Sequence, [Node(Constant(true, "/bin/bash"), []), Node(Constant(true, "-c"), []), Node(Name("sCommand", Load), [])])])

  /** `subprocess.run(["/bin/bash", "-c", sCommand])` */
  const SHELLED := Node(Module, [SHELL])

  /** It is recorded as a launch nobody can read, although its first element is a literal. */
  lemma ShellIsUnreadable(primitives: map<string, string>)
    requires "" !in primitives && "run" !in primitives
    ensures var record := SitesAt(SHELLED, Located([], SHELLED), TOP, false, primitives);
      Row([0], "<module>", "process UNKNOWN", UnknownCommand, "unknown-command", true) in record.rows
  {
    hide Lexical, SitesAt, HasParts, IsSpelled, SdkRecorded, OnlyAt, RowsAt, CannotRead, Launches;
    var p, parts := [0], ["subprocess", "run"];
    var s := SitesAt(SHELLED, Located([], SHELLED), TOP, false, primitives);
    ShellSilent();
    ShellPlace();
    CallIsRecorded(SHELLED, p, parts, primitives);
    var launch, sdk :| LaunchRecorded(SHELL, p, SEED, "<module>", launch) && SdkRecorded(parts, p, SEED, "<module>", sdk) &&
      OnlyAt(s, p) == launch.Plus(sdk);
    ShellCannotBeRead();
    OnlyAtRows(s, p);
    RowWithin(s.rows, p, launch.rows[0]);
  }

  lemma ShellSilent()
    ensures Lexical(SHELLED, []) == SEED
  {
    hide Lexical;
    assert Throughout(Node(Name("subprocess", Load), []), IsSilent) && Throughout(Node(Name("sCommand", Load), []), IsSilent);
    assert Throughout(Node(Constant(true, "/bin/bash"), []), IsSilent) && Throughout(Node(Constant(true, "-c"), []), IsSilent);
    assert Throughout(SHELL.children[0], IsSilent) && Throughout(SHELL.children[1], IsSilent);
    assert Throughout(SHELL, IsSilent);
    SilentModule(SHELLED);
  }

  lemma ShellPlace()
    ensures ValidPath(SHELLED, [0]) && At(SHELLED, [0]) == SHELL && StandingAt(Located([], SHELLED), TOP, [0]) == TOP
    ensures CallSpelled(SHELL) && HasParts(SHELL.children[0], ["subprocess", "run"])
  {
    hide HasParts;
    assert [0][1..] == [];
    assert Kids(Located([], SHELLED))[0].node == SHELL;
    assert AttributeChain(Node(Name("subprocess", Load), [])) == ["subprocess"];
    assert AttributeChain(SHELL.children[0]) == ["subprocess", "run"] && IsSpelled(SHELL.children[0]);
    PartsAreChain(SHELL.children[0], ["subprocess", "run"]);
  }

  lemma ShellCannotBeRead()
    ensures Launches(SHELL, SEED) && CannotRead(SHELL, SEED.commandLists)
  {
    hide HasParts, IsSpelled;
    ShellPlace();
    var elements, parts := SHELL.children[1].children, ["subprocess", "run"];
    assert HasParts(SHELL.children[0], parts) && "subprocess" in SEED.processModules;
    assert "/bin" + ['/'] + "bash" == "/bin/bash" && '/' !in "bash";
    assert Last("/bin/bash", '/', "bash") && "bash" in SHELLS && !elements[2].kind.Constant?;
    assert Unreadable(elements) && Vector(SHELL, SEED.commandLists, elements);
  }
}
