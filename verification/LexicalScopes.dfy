/** The worklist of `fdictBuildScopeModel` computes lexical scoping. */
module LexicalScopes {
  import opened PythonTree
  import opened Orders
  import opened ScopeModel

  // ----- Lexical scoping, by recursion along a path -----

  /** The bindings visible in the scope at relative path `r` of scope `l`. */
  function Enter(l: Located, inherited: Bindings, r: Path): Bindings
    requires ScopeAt(l.node, r)
    decreases |r|, 0
  {
    var visible := VisibleIn(l, inherited);
    if r == [] then visible
    else Below(Kids(l)[r[0]], PassedOn(l.node, inherited, visible), r[1..])
  }

  /** The same for a node met on the way down, inside a scope that passes on `passed`. */
  function Below(l: Located, passed: Bindings, r: Path): Bindings
    requires ValidPath(l.node, r) && IsScope(At(l.node, r))
    decreases |r|, 1
  {
    if IsScope(l.node) then Enter(l, passed, r) else Below(Kids(l)[r[0]], passed, r[1..])
  }

  function Lexical(tree: Node, p: Path): Bindings
    requires ScopeAt(tree, p)
  {
    Enter(Located([], tree), SEED, p)
  }

  /** What `l` hands to the scopes directly inside it. */
  function Handed(l: Located, inherited: Bindings): Bindings {
    PassedOn(l.node, inherited, VisibleIn(l, inherited))
  }

  function Child(l: Located, q: Path): Located
    requires ValidPath(l.node, q)
  {
    Located(l.path + q, At(l.node, q))
  }

  /** Going down through a region meets the nested scope with the handed bindings. */
  lemma {:induction false} BelowThrough(l: Located, passed: Bindings, q: Path, r: Path)
    requires !IsScope(l.node) && InRegion(l.node, q)
    requires ValidPath(l.node, q) && IsScope(At(l.node, q)) && ScopeAt(At(l.node, q), r)
    ensures ValidPath(l.node, q + r) && IsScope(At(l.node, q + r))
    ensures Below(l, passed, q + r) == Enter(Child(l, q), passed, r)
    decreases |q|
  {
    var k := Kids(l)[q[0]];
    assert (q + r)[0] == q[0] && (q + r)[1..] == q[1..] + r;
    assert l.path + q == k.path + q[1..];
    if |q| == 1 {
      assert q[1..] + r == r;
      assert At(l.node, q) == k.node;
      assert Child(l, q) == k;
    } else {
      BelowThrough(k, passed, q[1..], r);
    }
  }

  lemma EnterThrough(l: Located, inherited: Bindings, q: Path, r: Path)
    requires InRegion(l.node, q)
    requires ValidPath(l.node, q) && IsScope(At(l.node, q)) && ScopeAt(At(l.node, q), r)
    ensures ScopeAt(l.node, q + r)
    ensures Enter(l, inherited, q + r) == Enter(Child(l, q), Handed(l, inherited), r)
  {
    hide VisibleIn;
    var k := Kids(l)[q[0]];
    assert (q + r)[0] == q[0] && (q + r)[1..] == q[1..] + r;
    assert At(l.node, q) == At(k.node, q[1..]);
    assert Child(l, q) == Child(k, q[1..]) by { assert l.path + q == k.path + q[1..]; }
    if |q| == 1 {
      assert q[1..] + r == r && k.path + [] == k.path;
    } else {
      BelowThrough(k, Handed(l, inherited), q[1..], r);
    }
  }

  /** How far down `r` the first scope lies. */
  function FirstScope(n: Node, r: Path): (k: nat)
    requires r != [] && ValidPath(n, r) && IsScope(At(n, r))
    ensures 1 <= k <= |r| && ValidPath(n, r[..k]) && IsScope(At(n, r[..k])) && InRegion(n, r[..k])
    ensures ScopeAt(At(n, r[..k]), r[k..])
    decreases |r|
  {
    var c := n.children[r[0]];
    assert At(n, r) == At(c, r[1..]);
    if IsScope(c) then
      assert r[..1][1..] == [];
      1
    else
      var k := FirstScope(c, r[1..]);
      assert r[..k + 1][1..] == r[1..][..k] && r[k + 1..] == r[1..][k..];
      k + 1
  }

  // ----- The worklist -----

  datatype Item = Item(at: Located, inherited: Bindings)
  datatype Entry = Entry(path: Path, bindings: Bindings)

  function Items(ls: seq<Located>, handed: Bindings): (r: seq<Item>)
    ensures |r| == |ls| && forall i | 0 <= i < |ls| :: r[i] == Item(ls[i], handed)
  {
    if ls == [] then [] else [Item(ls[0], handed)] + Items(ls[1..], handed)
  }

  function NestedItems(it: Item): seq<Item> {
    Items(NestedScopes(Region(it.at)), Handed(it.at, it.inherited))
  }

  function Work(items: seq<Item>): nat {
    if items == [] then 0 else Size(items[0].at.node) + Work(items[1..])
  }

  lemma {:induction false} WorkAppend(a: seq<Item>, b: seq<Item>)
    ensures Work(a + b) == Work(a) + Work(b)
  {
    if a == [] {
      assert a + b == b;
    } else {
      assert (a + b)[1..] == a[1..] + b;
      WorkAppend(a[1..], b);
    }
  }

  lemma {:induction false} ItemsWork(ls: seq<Located>, handed: Bindings)
    ensures Work(Items(ls, handed)) == StackSize(ls)
  {
    if ls != [] {
      ItemsWork(ls[1..], handed);
      assert Items(ls, handed)[1..] == Items(ls[1..], handed);
    }
  }

  lemma {:induction false} NestedSize(stack: seq<Located>)
    ensures StackSize(NestedScopes(Popped(stack))) <= StackSize(stack)
    decreases StackSize(stack)
  {
    if stack != [] {
      var l, rest := stack[|stack| - 1], stack[..|stack| - 1];
      var next := NextStack(stack);
      NestedSize(next);
      StackSizeLast(stack);
      FilterAppend([l], Popped(next));
      StackSizeAppend(NestedScopes([l]), NestedScopes(Popped(next)));
      assert NestedScopes([l][1..]) == [];
      assert StackSize([l]) == Size(l.node) + StackSize([l][1..]);
    }
  }

  lemma NestedItemsWork(it: Item)
    ensures Work(NestedItems(it)) < Size(it.at.node)
  {
    ItemsWork(NestedScopes(Region(it.at)), Handed(it.at, it.inherited));
    NestedSize(Kids(it.at));
    KidsSize(it.at);
  }

  function NextItems(items: seq<Item>): (next: seq<Item>)
    requires items != []
    ensures Work(next) < Work(items)
  {
    var it, rest := items[|items| - 1], items[..|items| - 1];
    WorkLast(items);
    WorkAppend(rest, NestedItems(it));
    NestedItemsWork(it);
    rest + NestedItems(it)
  }

  lemma WorkLast(items: seq<Item>)
    requires items != []
    ensures Work(items) == Work(items[..|items| - 1]) + Size(items[|items| - 1].at.node)
  {
    var rest, it := items[..|items| - 1], items[|items| - 1];
    assert items == rest + [it];
    WorkAppend(rest, [it]);
    assert Work([it][1..]) == 0;
  }

  /** The entries the worklist writes, in order. */
  function Processed(items: seq<Item>): seq<Entry>
    decreases Work(items)
  {
    if items == [] then []
    else
      var it := items[|items| - 1];
      [Entry(it.at.path, VisibleIn(it.at, it.inherited))] + Processed(NextItems(items))
  }

  // ----- The worklist writes the lexical answer -----

  /** `e` is the lexical answer for a scope inside item `it`. */
  ghost predicate Answers(it: Item, e: Entry) {
    StartsWithPath(e.path, it.at.path) &&
    var r := e.path[|it.at.path|..];
    ScopeAt(it.at.node, r) && e.bindings == Enter(it.at, it.inherited, r)
  }

  ghost predicate SomeAnswers(items: seq<Item>, e: Entry) {
    exists i :: 0 <= i < |items| && Answers(items[i], e)
  }

  lemma SomeAnswersAppend(a: seq<Item>, b: seq<Item>, e: Entry)
    ensures SomeAnswers(a + b, e) <==> SomeAnswers(a, e) || SomeAnswers(b, e)
  {
    if SomeAnswers(a + b, e) {
      var i :| 0 <= i < |a + b| && Answers((a + b)[i], e);
      assert if i < |a| then Answers(a[i], e) else Answers(b[i - |a|], e);
    }
    if SomeAnswers(a, e) {
      var i :| 0 <= i < |a| && Answers(a[i], e);
      assert Answers((a + b)[i], e);
    }
    if SomeAnswers(b, e) {
      var i :| 0 <= i < |b| && Answers(b[i], e);
      assert Answers((a + b)[|a| + i], e);
    }
  }

  lemma SuffixSplit(a: Path, b: Path, c: Path)
    requires StartsWithPath(b, a) && StartsWithPath(c, b)
    ensures StartsWithPath(c, a) && c[|a|..] == b[|a|..] + c[|b|..]
  {
    PrefixTransitive(a, b, c);
    assert c == b + c[|b|..];
  }

  lemma ChildAt(l: Located, x: Located)
    requires InRegionOf(l, x)
    ensures x == Child(l, x.path[|l.path|..])
  {
    assert x.path == l.path + x.path[|l.path|..];
  }

  lemma NestedItem(it: Item, i: nat)
    requires i < |NestedItems(it)|
    ensures InRegionOf(it.at, NestedItems(it)[i].at) && IsScope(NestedItems(it)[i].at.node)
    ensures NestedItems(it)[i].inherited == Handed(it.at, it.inherited)
  {
    hide Handed;
    var x := NestedScopes(Region(it.at))[i];
    FilterMembers(Region(it.at));
    assert x in NestedScopes(Region(it.at));
    RegionMembers(it.at, x);
  }

  lemma NestedAnswers(it: Item, e: Entry, i: nat)
    requires i < |NestedItems(it)| && Answers(NestedItems(it)[i], e)
    ensures Answers(it, e)
  {
    hide VisibleIn, Handed, Enter, NestedItems;
    var x := NestedItems(it)[i].at;
    NestedItem(it, i);
    var q, r := x.path[|it.at.path|..], e.path[|x.path|..];
    SuffixSplit(it.at.path, x.path, e.path);
    ChildAt(it.at, x);
    EnterThrough(it.at, it.inherited, q, r);
  }

  lemma IsNestedItem(it: Item, q: Path)
    requires InRegion(it.at.node, q) && ValidPath(it.at.node, q) && IsScope(At(it.at.node, q))
    ensures Item(Child(it.at, q), Handed(it.at, it.inherited)) in NestedItems(it)
  {
    hide Handed;
    var x := Child(it.at, q);
    assert x.path[|it.at.path|..] == q && x.path[..|it.at.path|] == it.at.path;
    RegionMembers(it.at, x);
    FilterMembers(Region(it.at));
    var i :| 0 <= i < |NestedScopes(Region(it.at))| && NestedScopes(Region(it.at))[i] == x;
    assert NestedItems(it)[i] == Item(x, Handed(it.at, it.inherited));
  }

  lemma AnsweredByNested(it: Item, e: Entry)
    requires Answers(it, e) && e.path != it.at.path
    ensures SomeAnswers(NestedItems(it), e)
  {
    hide VisibleIn, Handed, NestedItems;
    var l := it.at;
    var r := e.path[|l.path|..];
    assert e.path == l.path + r;
    var k := FirstScope(l.node, r);
    IsNestedItem(it, r[..k]);
    AnsweredThrough(it, e, k);
    hide Answers, Enter, FirstScope, ScopeAt, ValidPath, InRegion, At;
    var i :| 0 <= i < |NestedItems(it)| && NestedItems(it)[i] == Item(Child(l, r[..k]), Handed(l, it.inherited));
  }

  /** The first `k` steps of `r` lead to a scope in the region of `n`, the others to a scope below it. */
  predicate ScopeBetween(n: Node, r: Path, k: nat) {
    && k <= |r| && InRegion(n, r[..k]) && ValidPath(n, r[..k]) && IsScope(At(n, r[..k]))
    && ScopeAt(At(n, r[..k]), r[k..])
  }

  lemma AnsweredThrough(it: Item, e: Entry, k: nat)
    requires Answers(it, e) && |it.at.path| + k <= |e.path|
    requires ScopeBetween(it.at.node, e.path[|it.at.path|..], k)
    ensures Answers(Item(Child(it.at, e.path[|it.at.path|..][..k]), Handed(it.at, it.inherited)), e)
  {
    hide VisibleIn, Handed, Enter, InRegion, ValidPath, IsScope, ScopeAt;
    var l := it.at;
    var r := e.path[|l.path|..];
    var x := Child(l, r[..k]);
    EnterThrough(l, it.inherited, r[..k], r[k..]);
    assert r == r[..k] + r[k..] && e.path == l.path + r;
    assert e.path[|x.path|..] == r[k..] && e.path[..|x.path|] == x.path;
  }

  lemma AnswersStep(it: Item, e: Entry)
    ensures Answers(it, e) <==>
      e == Entry(it.at.path, VisibleIn(it.at, it.inherited)) || SomeAnswers(NestedItems(it), e)
  {
    hide VisibleIn;
    if Answers(it, e) {
      if e.path == it.at.path {
        assert e.path[|it.at.path|..] == [];
      } else {
        AnsweredByNested(it, e);
      }
    }
    if e == Entry(it.at.path, VisibleIn(it.at, it.inherited)) {
      assert e.path[|it.at.path|..] == [];
    }
    if SomeAnswers(NestedItems(it), e) {
      var i :| 0 <= i < |NestedItems(it)| && Answers(NestedItems(it)[i], e);
      NestedAnswers(it, e, i);
    }
  }

  lemma {:induction false} ProcessedMembers(items: seq<Item>, e: Entry)
    ensures e in Processed(items) <==> SomeAnswers(items, e)
    decreases Work(items)
  {
    if items != [] {
      ProcessedMembers(NextItems(items), e);
      MembersStep(items, e);
    }
  }

  lemma MembersStep(items: seq<Item>, e: Entry)
    requires items != [] && (e in Processed(NextItems(items)) <==> SomeAnswers(NextItems(items), e))
    ensures e in Processed(items) <==> SomeAnswers(items, e)
  {
    hide Answers, NestedItems, VisibleIn, Work;
    var it, rest := items[|items| - 1], items[..|items| - 1];
    SomeAnswersAppend(rest, NestedItems(it), e);
    AnswersStep(it, e);
    assert items == rest + [it];
    SomeAnswersAppend(rest, [it], e);
    assert SomeAnswers([it], e) <==> Answers([it][0], e);
  }

  // ----- Each scope is processed once -----

  ghost predicate Apart(p: Path, q: Path) { !StartsWithPath(p, q) && !StartsWithPath(q, p) }

  lemma LongerIsApart(p: Path, q: Path, r: Path)
    requires Apart(p, q) && StartsWithPath(r, p)
    ensures Apart(r, q)
  {
    PrefixesOfOne(p, q, r);
    PrefixTransitive(p, r, q);
  }

  lemma PrefixTransitive(p: Path, q: Path, r: Path)
    ensures StartsWithPath(q, p) && StartsWithPath(r, q) ==> StartsWithPath(r, p)
  {
    if StartsWithPath(q, p) && StartsWithPath(r, q) {
      assert r[..|p|] == r[..|q|][..|p|];
    }
  }

  lemma PrefixesOfOne(p: Path, q: Path, r: Path)
    ensures StartsWithPath(r, p) && StartsWithPath(r, q) ==> !Apart(p, q)
  {
    if StartsWithPath(r, p) && StartsWithPath(r, q) {
      if |p| <= |q| {
        assert q[..|p|] == r[..|q|][..|p|] == r[..|p|];
      } else {
        assert p[..|q|] == r[..|p|][..|q|] == r[..|q|];
      }
    }
  }

  ghost predicate AllApart(ls: seq<Located>) {
    forall i, j | 0 <= i < j < |ls| :: Apart(ls[i].path, ls[j].path)
  }

  lemma NextApart(stack: seq<Located>)
    requires stack != [] && AllApart(stack)
    ensures AllApart(NextStack(stack))
  {
    var l, rest := stack[|stack| - 1], stack[..|stack| - 1];
    var next := NextStack(stack);
    forall i, j | 0 <= i < j < |next| ensures Apart(next[i].path, next[j].path) {
      if j < |rest| {
        assert Apart(stack[i].path, stack[j].path);
      } else {
        assert next[j] == Kids(l)[j - |rest|];
        if i < |rest| {
          assert Apart(stack[i].path, l.path);
          assert StartsWithPath(next[j].path, l.path);
          LongerIsApart(l.path, next[i].path, next[j].path);
        } else {
          assert next[i] == Kids(l)[i - |rest|];
          assert next[i].path[|l.path|] != next[j].path[|l.path|];
        }
      }
    }
  }

  /** Nothing popped later has the path of the node popped now, nor, when that is
      a scope, a path related to it. */
  lemma PoppedLater(stack: seq<Located>, x: Located)
    requires stack != [] && AllApart(stack) && x in Popped(NextStack(stack))
    ensures x.path != stack[|stack| - 1].path
    ensures IsScope(stack[|stack| - 1].node) ==> Apart(stack[|stack| - 1].path, x.path)
  {
    hide Popped, StackSize, Size, ReachedFrom, Apart, AllApart, NextStack;
    var l, rest := stack[|stack| - 1], stack[..|stack| - 1];
    var next := NextStack(stack);
    PoppedMembers(next, x);
    var i :| 0 <= i < |next| && ReachedFrom(next[i], x);
    NextAt(stack, i);
    if i < |rest| { FromEarlier(stack, i, x); } else { FromKid(l, i - |rest|, x); }
  }

  predicate IsKidOf(k: Located, l: Located, i: nat) { !IsScope(l.node) && i < |Kids(l)| && k == Kids(l)[i] }

  lemma NextAt(stack: seq<Located>, i: nat)
    requires stack != [] && i < |NextStack(stack)|
    ensures i < |stack| - 1 ==> NextStack(stack)[i] == stack[i]
    ensures i >= |stack| - 1 ==> IsKidOf(NextStack(stack)[i], stack[|stack| - 1], i - (|stack| - 1))
  {
    hide StackSize, Size, Kids;
  }

  lemma FromEarlier(stack: seq<Located>, i: nat, x: Located)
    requires AllApart(stack) && i < |stack| - 1 && ReachedFrom(stack[i], x)
    ensures Apart(stack[|stack| - 1].path, x.path) && x.path != stack[|stack| - 1].path
  {
    hide ValidPath, At;
    LongerIsApart(stack[i].path, stack[|stack| - 1].path, x.path);
  }

  lemma FromKid(l: Located, i: nat, x: Located)
    requires i < |Kids(l)| && ReachedFrom(Kids(l)[i], x)
    ensures x.path != l.path
  {
    hide ValidPath, At;
  }

  ghost predicate DistinctPaths(ls: seq<Located>) {
    forall i, j | 0 <= i < j < |ls| :: ls[i].path != ls[j].path
  }

  lemma {:induction false} PoppedOnce(stack: seq<Located>)
    requires AllApart(stack)
    ensures DistinctPaths(Popped(stack)) && AllApart(NestedScopes(Popped(stack)))
    decreases StackSize(stack)
  {
    if stack != [] {
      var l := stack[|stack| - 1];
      var later := Popped(NextStack(stack));
      NextApart(stack);
      PoppedOnce(NextStack(stack));
      forall x | x in later
        ensures x.path != l.path && (IsScope(l.node) ==> Apart(l.path, x.path))
      {
        PoppedLater(stack, x);
      }
      FilterMembers(later);
      assert ([l] + later)[1..] == later;
      OnceStep(l, later);
    }
  }

  lemma OnceStep(l: Located, later: seq<Located>)
    requires DistinctPaths(later) && AllApart(NestedScopes(later))
    requires forall x | x in later :: x.path != l.path && (IsScope(l.node) ==> Apart(l.path, x.path))
    ensures DistinctPaths([l] + later) && AllApart(NestedScopes([l] + later))
  {
    FilterMembers(later);
    assert ([l] + later)[1..] == later;
    var nested := NestedScopes(later);
    forall i | 0 <= i < |nested| ensures IsScope(l.node) ==> Apart(l.path, nested[i].path) {
      assert nested[i] in nested;
    }
    assert NestedScopes([l] + later) == if IsScope(l.node) then [l] + nested else nested;
  }

  /** A scope's region lists every node once, and its nested scopes are unrelated. */
  lemma RegionOnce(l: Located)
    ensures DistinctPaths(Region(l)) && AllApart(NestedScopes(Region(l)))
  {
    forall i, j | 0 <= i < j < |Kids(l)| ensures Apart(Kids(l)[i].path, Kids(l)[j].path) {
      assert Kids(l)[i].path[|l.path|] != Kids(l)[j].path[|l.path|];
    }
    PoppedOnce(Kids(l));
  }

  ghost predicate ItemsApart(items: seq<Item>) {
    forall i, j | 0 <= i < j < |items| :: Apart(items[i].at.path, items[j].at.path)
  }

  lemma NestedBelow(it: Item, i: nat)
    requires i < |NestedItems(it)|
    ensures StartsWithPath(NestedItems(it)[i].at.path, it.at.path) && NestedItems(it)[i].at.path != it.at.path
  {
    var x := NestedScopes(Region(it.at))[i];
    FilterMembers(Region(it.at));
    assert x in NestedScopes(Region(it.at));
    RegionMembers(it.at, x);
    assert x.path[|it.at.path|..] != [];
  }

  lemma NextItemsApart(items: seq<Item>)
    requires items != [] && ItemsApart(items)
    ensures ItemsApart(NextItems(items))
  {
    var it, rest := items[|items| - 1], items[..|items| - 1];
    var next := NextItems(items);
    RegionOnce(it.at);
    forall i, j | 0 <= i < j < |next| ensures Apart(next[i].at.path, next[j].at.path) {
      if j < |rest| {
        assert Apart(items[i].at.path, items[j].at.path);
      } else {
        assert next[j] == NestedItems(it)[j - |rest|];
        NestedBelow(it, j - |rest|);
        if i < |rest| {
          assert Apart(items[i].at.path, it.at.path);
          LongerIsApart(it.at.path, next[i].at.path, next[j].at.path);
        } else {
          assert next[i] == NestedItems(it)[i - |rest|];
        }
      }
    }
  }

  ghost predicate DistinctEntries(es: seq<Entry>) {
    forall i, j | 0 <= i < j < |es| :: es[i].path != es[j].path
  }

  lemma ProcessedLater(items: seq<Item>, e: Entry)
    requires items != [] && ItemsApart(items) && e in Processed(NextItems(items))
    ensures e.path != items[|items| - 1].at.path
  {
    hide VisibleIn, Answers, Apart, ItemsApart, Processed, NestedItems;
    var it, rest := items[|items| - 1], items[..|items| - 1];
    var next := NextItems(items);
    ProcessedMembers(next, e);
    var i :| 0 <= i < |next| && Answers(next[i], e);
    if i < |rest| {
      assert next[i] == items[i];
      AnsweredEarlier(items, i, e);
    } else {
      assert next[i] == NestedItems(it)[i - |rest|];
      NestedBelow(it, i - |rest|);
      AnsweredBelow(it, i - |rest|, e);
    }
  }

  lemma AnsweredEarlier(items: seq<Item>, i: nat, e: Entry)
    requires ItemsApart(items) && i < |items| - 1 && Answers(items[i], e)
    ensures e.path != items[|items| - 1].at.path
  {
    assert Apart(items[i].at.path, items[|items| - 1].at.path);
  }

  lemma AnsweredBelow(it: Item, i: nat, e: Entry)
    requires i < |NestedItems(it)| && Answers(NestedItems(it)[i], e)
    ensures e.path != it.at.path
  {
    hide NestedItems;
    NestedBelow(it, i);
  }

  lemma {:induction false} ProcessedOnce(items: seq<Item>)
    requires ItemsApart(items)
    ensures DistinctEntries(Processed(items))
    decreases Work(items)
  {
    if items != [] {
      var later := Processed(NextItems(items));
      NextItemsApart(items);
      ProcessedOnce(NextItems(items));
      forall i | 0 <= i < |later| ensures later[i].path != items[|items| - 1].at.path {
        assert later[i] in later;
        ProcessedLater(items, later[i]);
      }
    }
  }

  /** The model holds the first entries of `all`, written in that order. */
  ghost predicate Recorded(all: seq<Entry>, model: map<Path, Bindings>, order: seq<Path>) {
    |order| <= |all| &&
    (forall i | 0 <= i < |order| :: all[i].path == order[i] && order[i] in model && model[order[i]] == all[i].bindings) &&
    (forall p | p in model :: p in order)
  }

  lemma RecordStep(all: seq<Entry>, model: map<Path, Bindings>, order: seq<Path>)
    requires Recorded(all, model, order) && DistinctEntries(all) && |order| < |all|
    ensures Recorded(all, model[all[|order|].path := all[|order|].bindings], order + [all[|order|].path])
  {
    var order' := order + [all[|order|].path];
    forall p | p in order ensures p in order' {}
    assert all[|order|].path == order'[|order|];
  }

  lemma ProcessedStep(items: seq<Item>, all: seq<Entry>, n: nat)
    requires items != [] && n <= |all| && all[n..] == Processed(items)
    ensures n < |all| && all[n + 1..] == Processed(NextItems(items))
    ensures all[n] == Entry(items[|items| - 1].at.path, VisibleIn(items[|items| - 1].at, items[|items| - 1].inherited))
  {
    hide VisibleIn, NextItems;
    assert all[n] == all[n..][0] && all[n + 1..] == all[n..][1..];
  }

  /** `fdictBuildScopeModel`: every scope, and only scopes, gets its lexical bindings. */
  method BuildScopeModel(tree: Node) returns (model: map<Path, Bindings>, ghost order: seq<Path>)
    ensures forall p :: p in model <==> ScopeAt(tree, p)
    ensures forall p | p in model :: model[p] == Lexical(tree, p)
    ensures Distinct(order) && forall p :: p in order <==> p in model
  {
    hide *;
    model := map[];
    order := [];
    var pending := [Item(Located([], tree), SEED)];
    ghost var all := FromRoot(tree);
    FreshWork(all, tree);
    while pending != []
      invariant |order| <= |all| && Recorded(all, model, order) && all[|order|..] == Processed(pending)
      decreases Work(pending)
    {
      var it := pending[|pending| - 1];
      ghost var was := pending;
      ProcessedStep(pending, all, |order|);
      RecordStep(all, model, order);
      var own, nested := SplitScopeNodes(it.at);
      var visible := Visible(it.at.node.kind, own, it.inherited);
      pending := pending[..|pending| - 1];
      model := model[it.at.path := visible];
      order := order + [it.at.path];
      pending := pending + Items(nested, PassedOn(it.at.node, it.inherited, visible));
      PoppedAndPushed(was, own, nested, visible);
    }
    NothingLeft(all, model, order);
    WorklistIsLexical(tree, model, order);
  }

  lemma FreshWork(all: seq<Entry>, tree: Node)
    requires all == FromRoot(tree)
    ensures Recorded(all, map[], []) && all[0..] == all == Processed([Item(Located([], tree), SEED)]) && DistinctEntries(all)
  {
    ProcessedOnce([Item(Located([], tree), SEED)]);
  }

  lemma NothingLeft(all: seq<Entry>, model: map<Path, Bindings>, order: seq<Path>)
    requires Recorded(all, model, order) && all[|order|..] == Processed([])
    ensures |order| == |all|
  {
  }

  /** What the loop body leaves on the stack is what the specification says comes next. */
  lemma PoppedAndPushed(items: seq<Item>, own: seq<Located>, nested: seq<Located>, visible: Bindings)
    requires items != [] && visible == Visible(items[|items| - 1].at.node.kind, own, items[|items| - 1].inherited)
    requires own == OwnNodes(Region(items[|items| - 1].at)) && nested == NestedScopes(Region(items[|items| - 1].at))
    ensures visible == VisibleIn(items[|items| - 1].at, items[|items| - 1].inherited)
    ensures items[..|items| - 1] + Items(nested, PassedOn(items[|items| - 1].at.node, items[|items| - 1].inherited, visible)) == NextItems(items)
  {
    hide Visible, PassedOn, Region, Items;
  }

  /** Everything the worklist processes, from the module on. */
  function FromRoot(tree: Node): seq<Entry> { Processed([Item(Located([], tree), SEED)]) }

  lemma WorklistIsLexical(tree: Node, model: map<Path, Bindings>, order: seq<Path>)
    requires Recorded(FromRoot(tree), model, order) && |order| == |FromRoot(tree)| && DistinctEntries(FromRoot(tree))
    ensures forall p :: p in model <==> ScopeAt(tree, p)
    ensures forall p | p in model :: model[p] == Lexical(tree, p)
    ensures Distinct(order) && forall p :: p in order <==> p in model
  {
    hide Processed, Lexical, ScopeAt;
    var root := Item(Located([], tree), SEED);
    var all := FromRoot(tree);
    forall p | p in model ensures ScopeAt(tree, p) && model[p] == Lexical(tree, p) {
      var i :| 0 <= i < |order| && order[i] == p;
      ProcessedFromRoot(tree, all[i]);
    }
    forall p | ScopeAt(tree, p) ensures p in model {
      var e := Entry(p, Lexical(tree, p));
      ProcessedFromRoot(tree, e);
      var i :| 0 <= i < |all| && all[i] == e;
      assert order[i] == p;
    }
  }

  lemma ProcessedFromRoot(tree: Node, e: Entry)
    ensures e in Processed([Item(Located([], tree), SEED)]) <==> ScopeAt(tree, e.path) && e.bindings == Lexical(tree, e.path)
  {
    hide Processed, Enter, ScopeAt;
    var root := Item(Located([], tree), SEED);
    ProcessedMembers([root], e);
    assert e.path[|root.at.path|..] == e.path;
    assert SomeAnswers([root], e) <==> Answers([root][0], e);
  }
}
