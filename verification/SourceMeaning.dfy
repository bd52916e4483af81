/** What counts as source, read off the directory tree itself, and what a description
    therefore answers. */
module SourceMeaning {
  import opened Numerals
  import opened Text
  import opened Hashing
  import opened TreeWalk
  import opened TreeDigest
  import opened StartupIdentity

  // ----- What lies where -----

  /** The node stands at the relative path, whatever the directories on the way are called. */
  ghost predicate Lies(d: Node, path: seq<string>, n: Node)
    decreases |path|
  {
    path != [] && d.Directory? && exists e | e in d.listing :: LiesThrough(e, path, n)
  }

  ghost predicate LiesThrough(e: Entry, path: seq<string>, n: Node)
    requires path != []
    decreases |path|, 0
  {
    e.name == path[0] && if |path| == 1 then e.node == n else Lies(e.node, path[1..], n)
  }

  /** No directory on the way is a bytecode cache. */
  predicate OutsideCaches(path: seq<string>) { forall i | 0 <= i < |path| - 1 :: path[i] != "__pycache__" }

  /** What the digest is to see of a node under a name: not bytecode, a file's text or a
      link's target, but no link to a directory that is called like a cache. */
  predicate Shows(name: string, n: Node, item: Item) {
    !EndsWith(name, ".pyc") &&
    ((n.Regular? && n.content.Some? && item == File(n.content.value)) ||
     (n.Link? && !(n.toDirectory && name == "__pycache__") && item == Symlink(n.target)))
  }

  ghost predicate HoldsSource(d: Node, path: seq<string>, item: Item) {
    path != [] && OutsideCaches(path) && exists n :: Lies(d, path, n) && Shows(path[|path| - 1], n, item)
  }

  lemma EntryShows(e: Entry, item: Item)
    ensures Kept(e) && ItemOf(e) == Some(item) <==> Shows(e.name, e.node, item)
  {
  }

  /** What the walk finds at a path is what the tree holds there. */
  lemma {:induction false} VisibleMeans(d: Node, path: seq<string>, item: Item)
    ensures Visible(d, path, item) <==> HoldsSource(d, path, item)
    decreases |path|
  {
    hide ItemOf, Kept, Shows;
    if path != [] {
      forall e | e in Listing(d) ensures Leads(e, path, item) <==> (OutsideCaches(path) && ShowsThrough(e, path, item)) {
        LeadsMeans(e, path, item);
      }
      if Visible(d, path, item) {
        var e :| e in Listing(d) && Leads(e, path, item);
        var n :| LiesThrough(e, path, n) && Shows(path[|path| - 1], n, item);
        assert Lies(d, path, n);
      }
      if HoldsSource(d, path, item) {
        var n :| Lies(d, path, n) && Shows(path[|path| - 1], n, item);
        var e :| e in d.listing && LiesThrough(e, path, n);
        assert ShowsThrough(e, path, item);
      }
    }
  }

  ghost predicate ShowsThrough(e: Entry, path: seq<string>, item: Item)
    requires path != []
  {
    exists n :: LiesThrough(e, path, n) && Shows(path[|path| - 1], n, item)
  }

  lemma {:induction false} LeadsMeans(e: Entry, path: seq<string>, item: Item)
    requires path != []
    ensures Leads(e, path, item) <==> (OutsideCaches(path) && ShowsThrough(e, path, item))
    decreases |path|, 0
  {
    hide ItemOf, Kept, Shows;
    if |path| == 1 {
      EntryShows(e, item);
      if Leads(e, path, item) { assert LiesThrough(e, path, e.node); }
    } else {
      var rest := path[1..];
      VisibleMeans(e.node, rest, item);
      assert rest[|rest| - 1] == path[|path| - 1];
      CachesStep(path);
      if Leads(e, path, item) {
        var n :| Lies(e.node, rest, n) && Shows(rest[|rest| - 1], n, item);
        assert LiesThrough(e, path, n);
      }
      if OutsideCaches(path) && ShowsThrough(e, path, item) {
        var n :| LiesThrough(e, path, n) && Shows(path[|path| - 1], n, item);
        assert Lies(e.node, rest, n);
      }
    }
  }

  lemma CachesStep(path: seq<string>)
    requires |path| > 1
    ensures OutsideCaches(path) <==> path[0] != "__pycache__" && OutsideCaches(path[1..])
  {
    if OutsideCaches(path) {
      forall i | 0 <= i < |path[1..]| - 1 ensures path[1..][i] != "__pycache__" { assert path[1..][i] == path[i + 1]; }
    }
    if path[0] != "__pycache__" && OutsideCaches(path[1..]) {
      forall i | 0 <= i < |path| - 1 ensures path[i] != "__pycache__" { if i > 0 { assert path[1..][i - 1] == path[i]; } }
    }
  }

  /** The directory can be listed, every directory in it that is no cache can be read in its
      turn, and so can every regular file that is no bytecode. */
  ghost predicate CanBeRead(d: Node)
    decreases d
  {
    d.Directory? && d.readable &&
    (forall i | 0 <= i < |d.listing| && d.listing[i].node.Directory? && d.listing[i].name != "__pycache__" :: CanBeRead(d.listing[i].node)) &&
    (forall i | 0 <= i < |d.listing| && d.listing[i].node.Regular? && !EndsWith(d.listing[i].name, ".pyc") :: d.listing[i].node.content.Some?)
  }

  lemma BrokenAppend(a: seq<Visit>, b: seq<Visit>)
    ensures Broken(a + b) <==> Broken(a) || Broken(b)
  {
    hide Names, Readable, Fails;
    assert forall v :: v in a + b <==> v in a || v in b;
  }

  lemma BrokenHere(path: seq<string>, d: Node)
    ensures !Broken([Visit(path, d)]) <==>
      d.Directory? && d.readable &&
      forall i | 0 <= i < |d.listing| && d.listing[i].node.Regular? && !EndsWith(d.listing[i].name, ".pyc") :: d.listing[i].node.content.Some?
  {
    hide Names;
    var v := Visit(path, d);
    assert v in [v] && forall w | w in [v] :: w == v;
    if d.Directory? {
      forall i | 0 <= i < |d.listing| ensures d.listing[i].node.Regular? ==> d.listing[i] in Names(d) {
        assert d.listing[i] in Listing(d);
      }
      if e :| e in Names(d) && Fails(e) {
        var i :| 0 <= i < |d.listing| && d.listing[i] == e;
      }
    }
  }

  lemma {:induction false} BrokenMeans(path: seq<string>, d: Node)
    ensures Broken(Visits(path, d)) <==> !CanBeRead(d)
    decreases d, |Listing(d)| + 1
  {
    hide Broken, VisitsBelow;
    BrokenAppend([Visit(path, d)], VisitsBelow(path, d, |Listing(d)|));
    BrokenHere(path, d);
    BrokenBelow(path, d, |Listing(d)|);
  }

  lemma {:induction false} BrokenBelow(path: seq<string>, d: Node, k: nat)
    requires k <= |Listing(d)|
    ensures Broken(VisitsBelow(path, d, k)) <==>
      exists i :: 0 <= i < k && Listing(d)[i].node.Directory? && Listing(d)[i].name != "__pycache__" && !CanBeRead(Listing(d)[i].node)
    decreases d, k
  {
    hide Visits, CanBeRead;
    if k > 0 {
      var e := Listing(d)[k - 1];
      BrokenBelow(path, d, k - 1);
      if Entered(e) {
        BrokenMeans(path + [e.name], e.node);
        hide Broken;
        BrokenAppend(VisitsBelow(path, d, k - 1), Visits(path + [e.name], e.node));
      } else {
        assert VisitsBelow(path, d, k - 1) + [] == VisitsBelow(path, d, k - 1);
      }
    }
  }

  lemma WholeMeans(root: Node)
    ensures Whole(root) <==> CanBeRead(root)
  {
    BrokenMeans([], root);
  }

  // ----- What a description answers -----

  ghost predicate SourcesDiffer(x: Node, y: Node) {
    exists path, item :: HoldsSource(x, path, item) != HoldsSource(y, path, item)
  }

  /** The answer was given in a process that started on the one tree, with the other there now. */
  ghost predicate AnswersAbout(hash: Hash, start: World, now: World, directory: string, a: Answers) {
    GoodHash(hash) && GoodTree(TreeAt(start, directory)) && GoodTree(TreeAt(now, directory)) &&
    Compared(a, Captured(hash, start, directory), DigestOrEmpty(hash, TreeAt(now, directory)), now)
  }

  /** Changed since start is unknown when one of the trees cannot be read, and true exactly
      when they hold different source: some file's text or some link's target. */
  lemma ChangedMeans(hash: Hash, start: World, now: World, directory: string, a: Answers)
    requires AnswersAbout(hash, start, now, directory, a)
    ensures var x, y := TreeAt(start, directory), TreeAt(now, directory);
      a.changed == if CanBeRead(x) && CanBeRead(y) then Some(SourcesDiffer(x, y)) else None
  {
    hide Compared, Captured, DigestOrEmpty, TreeAt, GoodTree, GoodHash, HoldsSource, Visible, CanBeRead, Whole;
    var x, y := TreeAt(start, directory), TreeAt(now, directory);
    ChangedMeansSourceDiffers(hash, start, now, directory, a);
    WholeMeans(x);
    WholeMeans(y);
    forall path, item ensures Visible(x, path, item) <==> HoldsSource(x, path, item) { VisibleMeans(x, path, item); }
    forall path, item ensures Visible(y, path, item) <==> HoldsSource(y, path, item) { VisibleMeans(y, path, item); }
  }

  lemma {:induction false} LiesOnce(d: Node, path: seq<string>, n: Node, m: Node)
    requires GoodTree(d) && Lies(d, path, n) && Lies(d, path, m)
    ensures n == m
    decreases |path|
  {
    var e :| e in d.listing && LiesThrough(e, path, n);
    var f :| f in d.listing && LiesThrough(f, path, m);
    var i :| 0 <= i < |d.listing| && d.listing[i] == e;
    var j :| 0 <= j < |d.listing| && d.listing[j] == f;
    assert i == j;
    if |path| > 1 { LiesOnce(e.node, path[1..], n, m); }
  }

  lemma ItemGone(x: Node, y: Node, path: seq<string>, m: Node, n: Node, item: Item)
    requires path != [] && OutsideCaches(path) && GoodTree(y) && Lies(x, path, m) && Lies(y, path, n)
    requires Shows(path[|path| - 1], m, item) && !Shows(path[|path| - 1], n, item)
    ensures SourcesDiffer(x, y)
  {
    hide Lies, GoodTree, Shows, OutsideCaches;
    assert HoldsSource(x, path, item);
    if HoldsSource(y, path, item) {
      var k :| Lies(y, path, k) && Shows(path[|path| - 1], k, item);
      LiesOnce(y, path, n, k);
    }
  }

  /** A path on which source lies: outside the caches, and with a name that is no bytecode's. */
  predicate SourcePath(path: seq<string>) { path != [] && OutsideCaches(path) && !EndsWith(path[|path| - 1], ".pyc") }

  lemma TreeIs(w: World, directory: string)
    requires directory in w.trees
    ensures TreeAt(w, directory) == w.trees[directory]
  {
  }

  /** A regular file with another text is a change, wherever it lies on a source path. */
  lemma EditIsSeen(hash: Hash, start: World, now: World, directory: string, a: Answers, path: seq<string>, before: string, after: string)
    requires directory in start.trees && directory in now.trees && AnswersAbout(hash, start, now, directory, a) && SourcePath(path) && before != after
    requires CanBeRead(start.trees[directory]) && CanBeRead(now.trees[directory])
    requires Lies(start.trees[directory], path, Regular(Some(before))) && Lies(now.trees[directory], path, Regular(Some(after)))
    ensures a.changed == Some(true)
  {
    TreeIs(start, directory);
    TreeIs(now, directory);
    hide Compared, Captured, DigestOrEmpty, TreeAt, GoodTree, GoodHash, CanBeRead, Lies, EndsWith, OutsideCaches, SourcesDiffer;
    ItemGone(start.trees[directory], now.trees[directory], path, Regular(Some(before)), Regular(Some(after)), File(before));
    ChangedMeans(hash, start, now, directory, a);
  }

  /** So is a link with another target, unless it is a link to a directory called like a cache. */
  lemma RetargetIsSeen(hash: Hash, start: World, now: World, directory: string, a: Answers, path: seq<string>, before: Node, after: Node)
    requires directory in start.trees && directory in now.trees && AnswersAbout(hash, start, now, directory, a) && SourcePath(path) && path[|path| - 1] != "__pycache__"
    requires CanBeRead(start.trees[directory]) && CanBeRead(now.trees[directory])
    requires before.Link? && after.Link? && before.target != after.target
    requires Lies(start.trees[directory], path, before) && Lies(now.trees[directory], path, after)
    ensures a.changed == Some(true)
  {
    TreeIs(start, directory);
    TreeIs(now, directory);
    hide Compared, Captured, DigestOrEmpty, TreeAt, GoodTree, GoodHash, CanBeRead, Lies, EndsWith, OutsideCaches, SourcesDiffer;
    ItemGone(start.trees[directory], now.trees[directory], path, before, after, Symlink(before.target));
    ChangedMeans(hash, start, now, directory, a);
  }

  /** What lies in caches, and bytecode files, make no change: it is enough that regular
      files and links agree on the source paths. */
  lemma CachesAreIgnored(hash: Hash, start: World, now: World, directory: string, a: Answers)
    requires directory in start.trees && directory in now.trees && AnswersAbout(hash, start, now, directory, a)
    requires CanBeRead(start.trees[directory]) && CanBeRead(now.trees[directory])
    requires forall path, n: Node | SourcePath(path) && (n.Regular? || n.Link?) ::
      Lies(start.trees[directory], path, n) <==> Lies(now.trees[directory], path, n)
    ensures a.changed == Some(false)
  {
    TreeIs(start, directory);
    TreeIs(now, directory);
    hide AnswersAbout, TreeAt, CanBeRead, Lies, EndsWith, OutsideCaches;
    ChangedMeans(hash, start, now, directory, a);
    AgreeOnSource(start.trees[directory], now.trees[directory]);
  }

  lemma AgreeOnSource(x: Node, y: Node)
    requires forall path, n: Node | SourcePath(path) && (n.Regular? || n.Link?) :: Lies(x, path, n) <==> Lies(y, path, n)
    ensures !SourcesDiffer(x, y)
  {
    hide Lies, EndsWith, OutsideCaches;
    forall path, item ensures HoldsSource(x, path, item) <==> HoldsSource(y, path, item) {
      if HoldsSource(x, path, item) {
        var n :| Lies(x, path, n) && Shows(path[|path| - 1], n, item);
        assert SourcePath(path) && Lies(y, path, n);
      }
      if HoldsSource(y, path, item) {
        var n :| Lies(y, path, n) && Shows(path[|path| - 1], n, item);
        assert SourcePath(path) && Lies(x, path, n);
      }
    }
  }

  // ----- The identity -----

  /** A directory that cannot be read, or is not there, makes the answer unknown and is reported. */
  lemma UnreadableIsUnknown(hash: Hash, start: World, now: World, directory: string, a: Answers)
    requires AnswersAbout(hash, start, now, directory, a)
    requires directory in now.trees ==> !CanBeRead(now.trees[directory])
    ensures a.changed == None && a.currentDigest == None && TreeUnreadable in a.errors
  {
    if directory in now.trees { TreeIs(now, directory); }
    var y := TreeAt(now, directory);
    hide CanBeRead, Whole;
    WholeMeans(y);
    if directory !in now.trees { MissingIsUnreadable(y); }
  }

  lemma MissingIsUnreadable(y: Node)
    requires y == Directory(false, [])
    ensures !CanBeRead(y)
  {
    WholeMeans(y);
  }

  /** Git answered every question about the checkout. */
  predicate GitAnswered(w: World) { w.hasGit && w.describe.Answered? && w.head.Answered? && w.untracked.Answered? }

  /** The identity captured at the start: git's when it answered every question, else the
      installed one. Modified is known for a checkout alone, and is a describe that ends in
      "-dirty" or an untracked file. */
  lemma IdentityMeans(hash: Hash, w: World, directory: string)
    requires GoodHash(hash) && GoodTree(TreeAt(w, directory))
    ensures var i := Captured(hash, w, directory);
      (i.origin.Checkout? <==> GitAnswered(w)) &&
      (GitAnswered(w) ==> i.describe == w.describe.text && i.commit == w.head.text) &&
      (!GitAnswered(w) ==> i.describe == w.installedVersion && i.commit == w.installedCommit) &&
      (i.modified == None <==> !GitAnswered(w)) &&
      (i.modified == Some(true) <==>
        GitAnswered(w) && (w.untracked.text != "" || exists before :: w.describe.text == before + "-dirty")) &&
      (CheckoutUnreadable in i.errors <==> w.hasGit && !GitAnswered(w)) &&
      (VersionUnreadable in i.errors <==> !GitAnswered(w) && w.installedVersion == "") &&
      (TreeUnreadable in i.errors <==> directory in w.trees ==> !CanBeRead(w.trees[directory]))
  {
    hide CanBeRead, Whole, Framed, Entries, GoodTree, EndsWith;
    var root := TreeAt(w, directory);
    WholeMeans(root);
    if directory !in w.trees { MissingIsUnreadable(root); }
    if GitAnswered(w) { DirtyMeans(w.describe.text); }
  }

  lemma DirtyMeans(text: string)
    ensures EndsWith(text, "-dirty") <==> exists before :: text == before + "-dirty"
  {
    if EndsWith(text, "-dirty") { assert text == text[..|text| - 6] + "-dirty"; }
  }

  /** A commit is named exactly when the source changed, the start was a checkout, and HEAD
      is read now and is another commit. */
  lemma MovedCommitMeans(hash: Hash, start: World, now: World, directory: string, a: Answers, commit: string)
    requires AnswersAbout(hash, start, now, directory, a)
    ensures a.currentCommit == Some(commit) <==>
      a.changed == Some(true) && GitAnswered(start) && now.head == Answered(commit) && start.head != now.head
  {
    hide DigestOrEmpty, TreeAt, GoodTree, GoodHash;
  }
}
