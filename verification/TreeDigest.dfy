/** vaibify/versionIdentity.py: the framing of the tree entries, and what equal digests mean. */
module TreeDigest {
  import opened Numerals
  import opened Orders
  import opened Cuts
  import opened Text
  import opened Hashing
  import opened TreeWalk

  const NUL := 0 as char

  // ----- Framing -----

  function Frame(p: Pair): string { p.path + [NUL] + p.field + "\n" }

  function Framed(pairs: seq<Pair>): string {
    if pairs == [] then "" else Framed(pairs[..|pairs| - 1]) + Frame(pairs[|pairs| - 1])
  }

  predicate Framable(p: Pair) { NUL !in p.path && '\n' !in p.field }

  lemma {:induction false} FramedFirst(pairs: seq<Pair>)
    requires pairs != []
    ensures Framed(pairs) == Frame(pairs[0]) + Framed(pairs[1..])
  {
    var n := |pairs| - 1;
    if n == 0 {
      assert pairs[..0] == [] && pairs[1..] == [];
      assert Framed(pairs[1..]) == "" && Framed(pairs[..0]) == "";
    } else {
      FramedFirst(pairs[..n]);
      assert pairs[..n][1..] == pairs[1..][..n - 1] && pairs[1..][n - 1] == pairs[n];
      Associative(Frame(pairs[0]), Framed(pairs[1..][..n - 1]), Frame(pairs[n]));
    }
  }

  lemma FrameDetermines(a: Pair, rest: string, b: Pair, rest': string)
    requires Framable(a) && Framable(b) && Frame(a) + rest == Frame(b) + rest'
    ensures a == b && rest == rest'
  {
    assert Frame(a) + rest == a.path + [NUL] + (a.field + ['\n'] + rest);
    assert Frame(b) + rest' == b.path + [NUL] + (b.field + ['\n'] + rest');
    CutFirst(a.path, a.field + ['\n'] + rest, b.path, b.field + ['\n'] + rest', NUL);
    CutFirst(a.field, rest, b.field, rest', '\n');
  }

  ghost predicate AllFramable(pairs: seq<Pair>) { forall p | p in pairs :: Framable(p) }

  /** The framing decodes uniquely, even where paths hold line breaks. */
  lemma {:induction false} FramingIsInjective(a: seq<Pair>, b: seq<Pair>)
    requires AllFramable(a) && AllFramable(b) && Framed(a) == Framed(b)
    ensures a == b
  {
    hide Frame, Framed, Framable;
    if a == [] || b == [] {
      EmptyFrame(a);
      EmptyFrame(b);
    } else {
      FramedFirst(a);
      FramedFirst(b);
      FrameDetermines(a[0], Framed(a[1..]), b[0], Framed(b[1..]));
      FramingIsInjective(a[1..], b[1..]);
      assert a == [a[0]] + a[1..] && b == [b[0]] + b[1..];
    }
  }

  lemma EmptyFrame(pairs: seq<Pair>)
    ensures Framed(pairs) == "" <==> pairs == []
  {
    if pairs != [] { assert |Frame(pairs[|pairs| - 1])| > 0; }
  }

  // ----- Paths -----

  predicate GoodName(name: string) { name != "" && '/' !in name && NUL !in name }

  /** What every file system promises: names in one directory differ, and hold no slash and no NUL. */
  ghost predicate GoodTree(d: Node)
    decreases d
  {
    d.Directory? ==>
      && (forall i, j | 0 <= i < j < |d.listing| :: d.listing[i].name != d.listing[j].name)
      && (forall i | 0 <= i < |d.listing| :: GoodName(d.listing[i].name) && GoodTree(d.listing[i].node))
  }

  ghost predicate GoodPath(path: seq<string>) { path != [] && forall n | n in path :: GoodName(n) }

  lemma {:induction false} JoinedPath(path: seq<string>)
    requires GoodPath(path)
    ensures Join("/", path) != "" && NUL !in Join("/", path)
    ensures |path| == 1 <==> '/' !in Join("/", path)
  {
    if |path| > 1 {
      var rest := Join("/", path[1..]);
      JoinedPath(path[1..]);
      assert Join("/", path) == path[0] + "/" + rest;
      assert Join("/", path)[|path[0]|] == '/';
      assert path[0] in path && NUL !in path[0] && NUL !in "/" && NUL !in rest;
    } else {
      assert path[0] in path;
    }
  }

  lemma {:induction false} JoinIsInjective(a: seq<string>, b: seq<string>)
    requires GoodPath(a) && GoodPath(b) && Join("/", a) == Join("/", b)
    ensures a == b
  {
    JoinedPath(a);
    JoinedPath(b);
    assert a[0] in a && b[0] in b;
    if |a| == 1 {
      assert a == [a[0]] && b == [b[0]];
    } else {
      assert Join("/", a) == a[0] + ['/'] + Join("/", a[1..]);
      assert Join("/", b) == b[0] + ['/'] + Join("/", b[1..]);
      CutFirst(a[0], Join("/", a[1..]), b[0], Join("/", b[1..]), '/');
      JoinIsInjective(a[1..], b[1..]);
      assert a == [a[0]] + a[1..] && b == [b[0]] + b[1..];
    }
  }

  lemma {:induction false} VisiblePathIsGood(d: Node, path: seq<string>, item: Item)
    requires GoodTree(d) && Visible(d, path, item)
    ensures GoodPath(path)
    decreases |path|
  {
    hide ItemOf, Kept, Entered, GoodName;
    var e :| e in Listing(d) && Leads(e, path, item);
    var i :| 0 <= i < |d.listing| && d.listing[i] == e;
    assert path == [path[0]] + path[1..];
    if |path| > 1 { VisiblePathIsGood(e.node, path[1..], item); }
  }

  // ----- No path is found twice -----

  ghost predicate PathsDiffer(fs: seq<Finding>) { forall i, j | 0 <= i < j < |fs| :: fs[i].path != fs[j].path }

  ghost predicate Apart(a: seq<Finding>, b: seq<Finding>) { forall f, g | f in a && g in b :: f.path != g.path }

  lemma PathsAppend(a: seq<Finding>, b: seq<Finding>)
    requires PathsDiffer(a) && PathsDiffer(b) && Apart(a, b)
    ensures PathsDiffer(a + b)
  {
    forall i, j | 0 <= i < j < |a + b| ensures (a + b)[i].path != (a + b)[j].path {
      if i < |a| <= j { assert a[i] in a && b[j - |a|] in b; }
    }
  }

  ghost predicate NamesDiffer(es: seq<Entry>) { forall i, j | 0 <= i < j < |es| :: es[i].name != es[j].name }

  lemma {:induction false} OnlyKeepsNamesApart(keep: Entry -> bool, es: seq<Entry>)
    requires NamesDiffer(es)
    ensures NamesDiffer(Only(keep, es))
  {
    if es != [] {
      OnlyKeepsNamesApart(keep, es[1..]);
      var rest := Only(keep, es[1..]);
      forall e | e in rest ensures e.name != es[0].name {
        var j :| 0 <= j < |es[1..]| && es[1..][j] == e;
        assert es[j + 1] == e;
      }
    }
  }

  lemma NamesStayApart(d: Node)
    requires NamesDiffer(Listing(d))
    ensures NamesDiffer(Names(d))
  {
    var es := Listing(d);
    var dirs, files := Only(e => IsDirectoryName(e) && Kept(e), es), Only(e => !IsDirectoryName(e), es);
    OnlyKeepsNamesApart(e => IsDirectoryName(e) && Kept(e), es);
    OnlyKeepsNamesApart(e => !IsDirectoryName(e), es);
    assert Names(d) == dirs + files;
    forall i, j | 0 <= i < |dirs| && 0 <= j < |files| ensures dirs[i].name != files[j].name {
      assert dirs[i] in dirs && files[j] in files;
      Differing(es, dirs[i], files[j]);
    }
  }

  lemma Differing(es: seq<Entry>, a: Entry, b: Entry)
    requires NamesDiffer(es) && a in es && b in es && a != b
    ensures a.name != b.name
  {
    var i :| 0 <= i < |es| && es[i] == a;
    var j :| 0 <= j < |es| && es[j] == b;
  }

  lemma {:induction false} TopPathsDiffer(base: seq<string>, es: seq<Entry>)
    requires NamesDiffer(es)
    ensures PathsDiffer(FoundIn(base, es))
  {
    hide ItemOf;
    if es != [] {
      var rest, last := es[..|es| - 1], es[|es| - 1];
      TopPathsDiffer(base, rest);
      forall f | f in FoundIn(base, rest) ensures f.path != base + [last.name] {
        FoundInMembers(base, rest, f);
        var e :| e in rest && f.path == base + [e.name] && ItemOf(e) == Some(f.item);
        assert f.path[|base|] == e.name;
      }
    }
  }

  lemma {:induction false} FoundPathsDiffer(base: seq<string>, d: Node)
    requires GoodTree(d)
    ensures PathsDiffer(Found(Visits(base, d)))
    decreases d, |Listing(d)| + 1
  {
    FoundPathsDifferBelow(base, d, |Listing(d)|);
    NamesStayApart(d);
    TopPathsDiffer(base, Names(d));
    TopAndBelow(base, d);
  }

  lemma FoundAlone(v: Visit)
    ensures Found([v]) == FoundIn(v.path, Names(v.dir))
  {
    assert [v][..0] == [] && Found([v][..0]) == [];
  }

  lemma TopAndBelow(base: seq<string>, d: Node)
    requires PathsDiffer(FoundIn(base, Names(d))) && PathsDiffer(Found(VisitsBelow(base, d, |Listing(d)|)))
    ensures PathsDiffer(Found(Visits(base, d)))
  {
    hide FoundIn, Found, Names, VisitsBelow, PathsDiffer, Visible, Leads;
    var below := VisitsBelow(base, d, |Listing(d)|);
    FoundAlone(Visit(base, d));
    FoundAppend([Visit(base, d)], below);
    forall f, g | f in Found([Visit(base, d)]) && g in Found(below) ensures f.path != g.path {
      FoundAtTop(base, d, f);
      FoundMembersBelow(base, d, |Listing(d)|, g);
    }
    PathsAppend(Found([Visit(base, d)]), Found(below));
  }

  lemma {:induction false} FoundPathsDifferBelow(base: seq<string>, d: Node, k: nat)
    requires GoodTree(d) && k <= |Listing(d)|
    ensures PathsDiffer(Found(VisitsBelow(base, d, k)))
    decreases d, k
  {
    hide Found, Visits, VisitsBelow, PathsDiffer, Entered;
    if k == 0 {
      NothingFoundBelow(base, d);
    } else {
      var e := Listing(d)[k - 1];
      FoundPathsDifferBelow(base, d, k - 1);
      if Entered(e) { FoundPathsDiffer(base + [e.name], e.node); }
      AddEntry(base, d, k);
    }
  }

  lemma NothingFoundBelow(base: seq<string>, d: Node)
    ensures PathsDiffer(Found(VisitsBelow(base, d, 0)))
  {
    assert VisitsBelow(base, d, 0) == [];
  }

  lemma AddEntry(base: seq<string>, d: Node, k: nat)
    requires GoodTree(d) && 0 < k <= |Listing(d)| && PathsDiffer(Found(VisitsBelow(base, d, k - 1)))
    requires var e := Listing(d)[k - 1]; Entered(e) ==> PathsDiffer(Found(Visits(base + [e.name], e.node)))
    ensures PathsDiffer(Found(VisitsBelow(base, d, k)))
  {
    hide Found, Visits, PathsDiffer, GoodTree, Apart, Entered;
    var e := Listing(d)[k - 1];
    if Entered(e) {
      FoundAppend(VisitsBelow(base, d, k - 1), Visits(base + [e.name], e.node));
      EntriesApart(base, d, k);
      PathsAppend(Found(VisitsBelow(base, d, k - 1)), Found(Visits(base + [e.name], e.node)));
    } else {
      assert VisitsBelow(base, d, k - 1) + [] == VisitsBelow(base, d, k - 1);
    }
  }

  lemma EntriesApart(base: seq<string>, d: Node, k: nat)
    requires GoodTree(d) && 0 < k <= |Listing(d)|
    ensures var e := Listing(d)[k - 1];
      Apart(Found(VisitsBelow(base, d, k - 1)), Found(Visits(base + [e.name], e.node)))
  {
    hide Found, VisitsBelow, Visits, Visible;
    var e := Listing(d)[k - 1];
    forall f, g | f in Found(VisitsBelow(base, d, k - 1)) && g in Found(Visits(base + [e.name], e.node)) ensures f.path != g.path {
      FoundMembersBelow(base, d, k - 1, f);
      FoundMembers(base + [e.name], e.node, g);
      var i :| 0 <= i < k - 1 && Leads(Listing(d)[i], f.path[|base|..], f.item);
      assert f.path[|base|] == Listing(d)[i].name;
      assert g.path[..|base| + 1][|base|] == e.name;
    }
  }

  // ----- Digests -----

  function Entries(hash: Hash, root: Node): seq<Pair> {
    SortOn(PairKey, TupleLe, Project(f => PairOf(hash, f), Found(Visits([], root))))
  }

  ghost predicate Whole(root: Node) { !Broken(Visits([], root)) }

  /** `_fsComputeSourceTreeSha256`; None stands for the raised OSError. */
  method ComputeDigest(hash: Hash, root: Node) returns (digest: Option<string>)
    ensures digest == if Whole(root) then Some(hash(Framed(Entries(hash, root)))) else None
  {
    hide Broken, Visits, Found, PairOf, SortOn, TupleLe;
    var entries := TreeEntries(hash, root);
    if entries.None? { return None; }
    var list, fed := entries.value, "";
    for i := 0 to |list|
      invariant fed == Framed(list[..i])
    {
      assert list[..i + 1][..i] == list[..i];
      fed := fed + (list[i].path + [NUL] + list[i].field + "\n");
    }
    assert list[..|list|] == list;
    return Some(hash(fed));
  }

  /** The trees hold the same source: at each path the same file text or link target. */
  ghost predicate SameSource(a: Node, b: Node) {
    forall path, item :: Visible(a, path, item) <==> Visible(b, path, item)
  }

  lemma HexText(hash: Hash, item: Item)
    requires GoodHash(hash)
    ensures '\n' !in FieldText(hash, item)
    ensures item.Symlink? <==> ':' in FieldText(hash, item)
  {
    var text := FieldText(hash, item);
    match item
    case File(content) => assert forall c | c in text :: IsHex(c);
    case Symlink(target) =>
      assert text[7] == ':';
      assert forall c | c in hash(target) :: IsHex(c);
      assert '\n' !in "symlink:" && '\n' !in hash(target);
  }

  lemma FieldIsInjective(hash: Hash, a: Item, b: Item)
    requires GoodHash(hash) && FieldText(hash, a) == FieldText(hash, b)
    ensures a == b
  {
    HexText(hash, a);
    HexText(hash, b);
    if a.Symlink? {
      assert FieldText(hash, a)[8..] == hash(a.target) && FieldText(hash, b)[8..] == hash(b.target);
    }
  }

  /** Everything found in a well-named tree can be framed, and is determined by its pair. */
  lemma FoundIsVisible(root: Node, f: Finding)
    ensures f in Found(Visits([], root)) <==> f.path != [] && Visible(root, f.path, f.item)
  {
    FoundMembers([], root, f);
    assert f.path[0..] == f.path;
  }

  lemma FindsFrame(hash: Hash, root: Node, f: Finding)
    requires GoodHash(hash) && GoodTree(root) && f in Found(Visits([], root))
    ensures Framable(PairOf(hash, f)) && GoodPath(f.path)
  {
    hide Visible, GoodTree, GoodHash, Found, Visits, FieldText;
    FoundIsVisible(root, f);
    VisiblePathIsGood(root, f.path, f.item);
    JoinedPath(f.path);
    HexText(hash, f.item);
  }

  lemma PairIsInjective(hash: Hash, f: Finding, g: Finding)
    requires GoodHash(hash) && GoodPath(f.path) && GoodPath(g.path) && PairOf(hash, f) == PairOf(hash, g)
    ensures f == g
  {
    hide GoodHash, GoodPath, FieldText;
    JoinIsInjective(f.path, g.path);
    FieldIsInjective(hash, f.item, g.item);
  }
}
