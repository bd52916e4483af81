/** vaibify/versionIdentity.py: the entries of the source tree, as the walk collects them. */
module TreeWalk {
  import opened Numerals
  import opened Orders
  import opened Hashing
  import opened Text

  /** What a directory entry is. A file that cannot be read has no content here. */
  datatype Node =
    | Regular(content: Option<string>)
    | Link(target: string, toDirectory: bool)
    | Special
    | Directory(readable: bool, listing: seq<Entry>)

  datatype Entry = Entry(name: string, node: Node)

  /** What the digest sees of a path. */
  datatype Item = File(content: string) | Symlink(target: string)

  function Listing(d: Node): seq<Entry> { if d.Directory? then d.listing else [] }

  predicate Readable(d: Node) { d.Directory? && d.readable }

  /** `os.walk` counts a link to a directory among the directories, but never enters it. */
  predicate IsDirectoryName(e: Entry) { e.node.Directory? || (e.node.Link? && e.node.toDirectory) }

  predicate Kept(e: Entry) { IsDirectoryName(e) ==> e.name != "__pycache__" }

  predicate Entered(e: Entry) { e.node.Directory? && e.name != "__pycache__" }

  predicate IsBytecode(e: Entry) { |e.name| >= 4 && e.name[|e.name| - 4..] == ".pyc" }

  predicate Fails(e: Entry) { !IsBytecode(e) && e.node.Regular? && e.node.content.None? }

  function ItemOf(e: Entry): Option<Item> {
    if IsBytecode(e) then None
    else match e.node
      case Link(target, _) => Some(Symlink(target))
      case Regular(content) => if content.Some? then Some(File(content.value)) else None
      case _ => None
  }

  // ----- The walk -----

  datatype Visit = Visit(path: seq<string>, dir: Node)

  /** `os.walk` from the top down, with the pruned names left out. */
  function Visits(path: seq<string>, d: Node): seq<Visit>
    decreases d, |Listing(d)| + 1
  {
    [Visit(path, d)] + VisitsBelow(path, d, |Listing(d)|)
  }

  function VisitsBelow(path: seq<string>, d: Node, k: nat): seq<Visit>
    requires k <= |Listing(d)|
    decreases d, k
  {
    if k == 0 then []
    else
      var e := Listing(d)[k - 1];
      VisitsBelow(path, d, k - 1) + if Entered(e) then Visits(path + [e.name], e.node) else []
  }

  function Only(keep: Entry -> bool, es: seq<Entry>): (r: seq<Entry>)
    ensures forall e :: e in r <==> e in es && keep(e)
  {
    if es == [] then []
    else
      assert es == [es[0]] + es[1..];
      (if keep(es[0]) then [es[0]] else []) + Only(keep, es[1..])
  }

  /** The names of one visit: kept directory names, then file names. */
  function Names(d: Node): (r: seq<Entry>)
    ensures forall e :: e in r <==> e in Listing(d) && Kept(e)
  {
    Only(e => IsDirectoryName(e) && Kept(e), Listing(d)) + Only(e => !IsDirectoryName(e), Listing(d))
  }

  function FieldText(hash: Hash, item: Item): string {
    match item
    case File(content) => hash(content)
    case Symlink(target) => "symlink:" + hash(target)
  }

  /** One `(path, digest field)` entry. */
  datatype Pair = Pair(path: string, field: string)

  function PairKey(p: Pair): seq<string> { [p.path, p.field] }

  /** A found item, with its path still in parts. */
  datatype Finding = Finding(path: seq<string>, item: Item)

  function PairOf(hash: Hash, f: Finding): Pair { Pair(Join("/", f.path), FieldText(hash, f.item)) }

  function FoundIn(path: seq<string>, es: seq<Entry>): seq<Finding> {
    if es == [] then []
    else
      var last := es[|es| - 1];
      FoundIn(path, es[..|es| - 1]) + if ItemOf(last).Some? then [Finding(path + [last.name], ItemOf(last).value)] else []
  }

  function Found(visits: seq<Visit>): seq<Finding> {
    if visits == [] then []
    else
      var last := visits[|visits| - 1];
      Found(visits[..|visits| - 1]) + FoundIn(last.path, Names(last.dir))
  }

  /** Somewhere a directory cannot be listed or a file cannot be read. */
  ghost predicate Broken(visits: seq<Visit>) {
    exists v | v in visits :: !Readable(v.dir) || exists e | e in Names(v.dir) :: Fails(e)
  }

  /** The two loops of `_flistSourceTreeEntries`; None stands for the raised OSError. */
  method TreeEntries(hash: Hash, root: Node) returns (entries: Option<seq<Pair>>)
    ensures entries == if Broken(Visits([], root)) then None
      else Some(SortOn(PairKey, TupleLe, Project(f => PairOf(hash, f), Found(Visits([], root)))))
  {
    hide Names, TupleLe, PairOf, SortOn, IsBytecode, FoundIn;
    var visits := Visits([], root);
    var pairOf := f => PairOf(hash, f);
    var pairs: seq<Pair> := [];
    for i := 0 to |visits|
      invariant pairs == Project(pairOf, Found(visits[..i]))
      invariant !Broken(visits[..i])
    {
      var v := visits[i];
      assert v in visits && visits[..i + 1] == visits[..i] + [v];
      if !Readable(v.dir) { return None; }
      var more := VisitEntries(hash, v);
      if more.None? { return None; }
      assert visits[..i + 1][..i] == visits[..i];
      ProjectAppend(pairOf, Found(visits[..i]), FoundIn(v.path, Names(v.dir)));
      pairs := pairs + more.value;
    }
    assert visits[..|visits|] == visits;
    return Some(SortOn(PairKey, TupleLe, pairs));
  }

  lemma ProjectAppend<T, K>(key: T -> K, a: seq<T>, b: seq<T>)
    ensures Project(key, a + b) == Project(key, a) + Project(key, b)
  {
  }

  method VisitEntries(hash: Hash, v: Visit) returns (pairs: Option<seq<Pair>>)
    ensures pairs == if exists e | e in Names(v.dir) :: Fails(e) then None
      else Some(Project(f => PairOf(hash, f), FoundIn(v.path, Names(v.dir))))
  {
    hide Names, PairOf, IsBytecode;
    var names := Names(v.dir);
    var pairOf := f => PairOf(hash, f);
    var list: seq<Pair> := [];
    for i := 0 to |names|
      invariant list == Project(pairOf, FoundIn(v.path, names[..i]))
      invariant forall e | e in names[..i] :: !Fails(e)
    {
      var e := names[i];
      assert e in names && names[..i + 1] == names[..i] + [e] && names[..i + 1][..i] == names[..i];
      if Fails(e) { return None; }
      var item := ItemOf(e);
      if item.Some? {
        ProjectAppend(pairOf, FoundIn(v.path, names[..i]), [Finding(v.path + [e.name], item.value)]);
        list := list + [PairOf(hash, Finding(v.path + [e.name], item.value))];
      }
    }
    assert names[..|names|] == names;
    return Some(list);
  }

  // ----- What the walk finds -----

  /** The item at a relative path: through entered directories, at a kept name. */
  ghost predicate Visible(d: Node, path: seq<string>, item: Item)
    decreases |path|
  {
    path != [] && exists e | e in Listing(d) :: Leads(e, path, item)
  }

  ghost predicate Leads(e: Entry, path: seq<string>, item: Item)
    requires path != []
    decreases |path|, 0
  {
    e.name == path[0] &&
    if |path| == 1 then Kept(e) && ItemOf(e) == Some(item) else Entered(e) && Visible(e.node, path[1..], item)
  }

  predicate Under(base: seq<string>, path: seq<string>) { |base| <= |path| && path[..|base|] == base }

  lemma {:induction false} FoundInMembers(base: seq<string>, es: seq<Entry>, f: Finding)
    ensures f in FoundIn(base, es) <==> exists e | e in es :: f.path == base + [e.name] && ItemOf(e) == Some(f.item)
  {
    hide ItemOf;
    if es != [] {
      FoundInMembers(base, es[..|es| - 1], f);
      assert es == es[..|es| - 1] + [es[|es| - 1]];
    }
  }

  lemma FoundLast(a: seq<Visit>, v: Visit)
    ensures Found(a + [v]) == Found(a) + FoundIn(v.path, Names(v.dir))
  {
    hide FoundIn, Names;
    assert (a + [v])[..|a + [v]| - 1] == a;
  }

  lemma {:induction false} FoundAppend(a: seq<Visit>, b: seq<Visit>)
    ensures Found(a + b) == Found(a) + Found(b)
    decreases |b|
  {
    hide FoundIn, Names, Found;
    if b == [] {
      assert a + b == a;
      NothingFound();
    } else {
      var init, last := b[..|b| - 1], b[|b| - 1];
      FoundAppend(a, init);
      assert b == init + [last] && a + b == (a + init) + [last];
      FoundLast(a + init, last);
      FoundLast(init, last);
      Associative(Found(a), Found(init), FoundIn(last.path, Names(last.dir)));
    }
  }

  lemma NothingFound()
    ensures Found([]) == []
  {
  }

  lemma FoundAtTop(base: seq<string>, d: Node, f: Finding)
    ensures f in Found([Visit(base, d)]) <==> |f.path| == |base| + 1 && Under(base, f.path) && Visible(d, f.path[|base|..], f.item)
  {
    hide ItemOf, Kept, Names;
    var v := [Visit(base, d)];
    assert v[..0] == [] && Found(v[..0]) == [];
    assert Found(v) == FoundIn(base, Names(d));
    FoundInMembers(base, Names(d), f);
    if f in Found(v) {
      var e :| e in Names(d) && f.path == base + [e.name] && ItemOf(e) == Some(f.item);
      assert f.path[|base|..] == [e.name] && Leads(e, [e.name], f.item);
    }
    if |f.path| == |base| + 1 && Under(base, f.path) && Visible(d, f.path[|base|..], f.item) {
      var e :| e in Listing(d) && Leads(e, f.path[|base|..], f.item);
      assert f.path == base + [e.name];
    }
  }

  /** Below the top, an item is found through exactly one of the entered directories. */
  ghost predicate FoundThrough(base: seq<string>, d: Node, k: nat, f: Finding)
    requires k <= |Listing(d)|
  {
    && |f.path| > |base| + 1 && Under(base, f.path)
    && exists i | 0 <= i < k :: Leads(Listing(d)[i], f.path[|base|..], f.item)
  }

  lemma {:induction false} FoundMembers(base: seq<string>, d: Node, f: Finding)
    ensures f in Found(Visits(base, d)) <==> |f.path| > |base| && Under(base, f.path) && Visible(d, f.path[|base|..], f.item)
    decreases d, |Listing(d)| + 1
  {
    hide Found, VisitsBelow, Leads, Under;
    FoundAppend([Visit(base, d)], VisitsBelow(base, d, |Listing(d)|));
    FoundAtTop(base, d, f);
    FoundMembersBelow(base, d, |Listing(d)|, f);
  }

  /** The same, for the directory of one entry. */
  ghost predicate FoundInside(base: seq<string>, e: Entry, f: Finding) {
    Entered(e) && |f.path| > |base| + 1 && Under(base + [e.name], f.path) && Visible(e.node, f.path[|base| + 1..], f.item)
  }

  lemma {:induction false} FoundMembersBelow(base: seq<string>, d: Node, k: nat, f: Finding)
    requires k <= |Listing(d)|
    ensures f in Found(VisitsBelow(base, d, k)) <==> FoundThrough(base, d, k, f)
    decreases d, k
  {
    hide Visible, Leads, Under, Found, FoundThrough, FoundInside, VisitsBelow, Visits, Entered, Kept, ItemOf;
    if k == 0 {
      NothingBelow(base, d, f);
    } else {
      var e := Listing(d)[k - 1];
      FoundMembersBelow(base, d, k - 1, f);
      if Entered(e) { FoundMembers(base + [e.name], e.node, f); }
      FoundStep(base, d, k, f);
      InsideIsVisits(base, d, k, f);
    }
  }

  lemma NothingBelow(base: seq<string>, d: Node, f: Finding)
    ensures f !in Found(VisitsBelow(base, d, 0)) && !FoundThrough(base, d, 0, f)
  {
    assert VisitsBelow(base, d, 0) == [];
  }

  lemma InsideIsVisits(base: seq<string>, d: Node, k: nat, f: Finding)
    requires 0 < k <= |Listing(d)|
    requires var e := Listing(d)[k - 1]; var inner := base + [e.name]; Entered(e) ==>
      (f in Found(Visits(inner, e.node)) <==> |f.path| > |inner| && Under(inner, f.path) && Visible(e.node, f.path[|inner|..], f.item))
    ensures f in Found(VisitsBelow(base, d, k)) <==>
      f in Found(VisitsBelow(base, d, k - 1)) || FoundInside(base, Listing(d)[k - 1], f)
  {
    hide Found, Visible, Under;
    var e := Listing(d)[k - 1];
    if Entered(e) {
      FoundAppend(VisitsBelow(base, d, k - 1), Visits(base + [e.name], e.node));
    } else {
      assert VisitsBelow(base, d, k - 1) + [] == VisitsBelow(base, d, k - 1);
    }
  }

  lemma FoundStep(base: seq<string>, d: Node, k: nat, f: Finding)
    requires 0 < k <= |Listing(d)|
    ensures FoundThrough(base, d, k, f) <==> FoundThrough(base, d, k - 1, f) || FoundInside(base, Listing(d)[k - 1], f)
  {
    hide Visible, Entered;
    var e := Listing(d)[k - 1];
    if |f.path| > |base| + 1 && Under(base, f.path) {
      assert f.path[|base|..][1..] == f.path[|base| + 1..];
      assert f.path[..|base| + 1] == base + [f.path[|base|]];
      assert Under(base + [e.name], f.path) <==> f.path[|base|] == e.name;
    }
    if Under(base + [e.name], f.path) {
      assert f.path[..|base|] == (base + [e.name])[..|base|];
    }
  }
}
