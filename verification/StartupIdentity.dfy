/** vaibify/versionIdentity.py: "changed since start" and the identity captured at start. */
module StartupIdentity {
  import opened Numerals
  import opened Orders
  import opened Text
  import opened Hashing
  import opened TreeWalk
  import opened TreeDigest

  // ----- Equal digests are equal sources -----

  lemma FindsAreDistinct(root: Node)
    requires GoodTree(root)
    ensures Distinct(Found(Visits([], root)))
  {
    hide Found, Visits, GoodTree;
    FoundPathsDiffer([], root);
  }

  lemma SameFinds(a: Node, b: Node)
    requires GoodTree(a) && GoodTree(b) && SameSource(a, b)
    ensures multiset(Found(Visits([], a))) == multiset(Found(Visits([], b)))
  {
    hide Found, Visits, GoodTree, Visible, Distinct;
    FindsAreDistinct(a);
    FindsAreDistinct(b);
    forall f ensures f in Found(Visits([], a)) <==> f in Found(Visits([], b)) {
      FoundIsVisible(a, f);
      FoundIsVisible(b, f);
      assert Visible(a, f.path, f.item) <==> Visible(b, f.path, f.item);
    }
    SameElementsSameMultiset(Found(Visits([], a)), Found(Visits([], b)));
  }

  lemma SamePairs(x: seq<Pair>, y: seq<Pair>)
    requires Project(PairKey, x) == Project(PairKey, y)
    ensures x == y
  {
    assert |Project(PairKey, x)| == |Project(PairKey, y)|;
    forall i | 0 <= i < |x| ensures x[i] == y[i] {
      assert PairKey(x[i]) == Project(PairKey, x)[i] == PairKey(y[i]);
      assert PairKey(x[i])[0] == x[i].path && PairKey(x[i])[1] == x[i].field;
      assert PairKey(y[i])[0] == y[i].path && PairKey(y[i])[1] == y[i].field;
    }
  }

  /** Sorting removes the order of the walk. */
  lemma SortingForgetsOrder(x: seq<Pair>, y: seq<Pair>)
    requires multiset(x) == multiset(y)
    ensures SortOn(PairKey, TupleLe, x) == SortOn(PairKey, TupleLe, y)
  {
    hide SortOn, TupleLe, PairKey;
    TupleLeIsTotal();
    ProjectMultiset(PairKey, x, y);
    SortedKeysIgnoreOrder(PairKey, TupleLe, x, y);
    SamePairs(SortOn(PairKey, TupleLe, x), SortOn(PairKey, TupleLe, y));
  }

  lemma SameSourceSameEntries(hash: Hash, a: Node, b: Node)
    requires GoodTree(a) && GoodTree(b) && SameSource(a, b)
    ensures Entries(hash, a) == Entries(hash, b)
  {
    hide Found, Visits, GoodTree, SameSource, SortOn, PairOf;
    SameFinds(a, b);
    ProjectMultiset(f => PairOf(hash, f), Found(Visits([], a)), Found(Visits([], b)));
    SortingForgetsOrder(Project(f => PairOf(hash, f), Found(Visits([], a))), Project(f => PairOf(hash, f), Found(Visits([], b))));
  }

  lemma EntryMembers(hash: Hash, root: Node, p: Pair)
    ensures p in Entries(hash, root) <==> exists f | f in Found(Visits([], root)) :: PairOf(hash, f) == p
  {
    hide Found, Visits, PairOf, SortOn;
    var finds := Found(Visits([], root));
    var pairs := Project(f => PairOf(hash, f), finds);
    assert p in multiset(Entries(hash, root)) <==> p in multiset(pairs);
    if f :| f in finds && PairOf(hash, f) == p {
      var i :| 0 <= i < |finds| && finds[i] == f;
      assert pairs[i] == p;
    }
  }

  lemma EntriesFrame(hash: Hash, root: Node)
    requires GoodHash(hash) && GoodTree(root)
    ensures AllFramable(Entries(hash, root))
  {
    hide Entries, Found, Visits, GoodTree, GoodHash, Framable, PairOf;
    forall p | p in Entries(hash, root) ensures Framable(p) {
      EntryMembers(hash, root, p);
      var f :| f in Found(Visits([], root)) && PairOf(hash, f) == p;
      FindsFrame(hash, root, f);
    }
  }

  lemma VisibleAcross(hash: Hash, a: Node, b: Node, path: seq<string>, item: Item)
    requires GoodHash(hash) && GoodTree(a) && GoodTree(b) && Entries(hash, a) == Entries(hash, b)
    requires Visible(a, path, item)
    ensures Visible(b, path, item)
  {
    hide Entries, Found, Visits, GoodTree, GoodHash, PairOf, Framable, GoodPath;
    var f := Finding(path, item);
    NonEmptyPath(a, path, item);
    FoundIsVisible(a, f);
    hide Visible;
    FindsFrame(hash, a, f);
    EntryMembers(hash, a, PairOf(hash, f));
    EntryMembers(hash, b, PairOf(hash, f));
    var g :| g in Found(Visits([], b)) && PairOf(hash, g) == PairOf(hash, f);
    FindsFrame(hash, b, g);
    PairIsInjective(hash, f, g);
    FoundIsVisible(b, f);
  }

  lemma NonEmptyPath(d: Node, path: seq<string>, item: Item)
    requires Visible(d, path, item)
    ensures path != []
  {
  }

  /** Two readable trees have the same digest exactly when they hold the same source. */
  lemma DigestDecidesSource(hash: Hash, a: Node, b: Node)
    requires GoodHash(hash) && GoodTree(a) && GoodTree(b)
    ensures hash(Framed(Entries(hash, a))) == hash(Framed(Entries(hash, b))) <==> SameSource(a, b)
  {
    hide Entries, GoodTree, Framed, Visible, AllFramable;
    if SameSource(a, b) { SameSourceSameEntries(hash, a, b); }
    if hash(Framed(Entries(hash, a))) == hash(Framed(Entries(hash, b))) {
      EntriesFrame(hash, a);
      EntriesFrame(hash, b);
      FramingIsInjective(Entries(hash, a), Entries(hash, b));
      forall path, item ensures Visible(a, path, item) <==> Visible(b, path, item) {
        if Visible(a, path, item) { VisibleAcross(hash, a, b, path, item); }
        if Visible(b, path, item) { VisibleAcross(hash, b, a, path, item); }
      }
    }
  }

  // ----- Identity -----

  datatype Answer = Answered(text: string) | Failed

  /** What git and the installation say at one moment, and what each directory holds. */
  datatype World = World(
    trees: map<string, Node>, hasGit: bool, describe: Answer, head: Answer, untracked: Answer,
    installedVersion: string, installedCommit: string)

  datatype Origin = Checkout | Installed

  datatype Problem = CheckoutUnreadable | VersionUnreadable | TreeUnreadable | CommitUnreadable

  datatype Identity = Identity(
    origin: Origin, describe: string, commit: string, modified: Option<bool>, digest: string, errors: seq<Problem>)

  datatype Answers = Answers(
    identity: Identity, changed: Option<bool>, currentDigest: Option<string>, currentCommit: Option<string>, errors: seq<Problem>)

  /** A directory that is not there cannot be listed. */
  function TreeAt(w: World, directory: string): Node {
    if directory in w.trees then w.trees[directory] else Directory(false, [])
  }

  /** `_fsSourceTreeSha256OrEmpty` */
  ghost function DigestOrEmpty(hash: Hash, root: Node): string {
    if Whole(root) then hash(Framed(Entries(hash, root))) else ""
  }

  /** `_fdictCheckoutIdentityOrNone`: any failed question sends the answer to the installed version. */
  function CheckoutIdentity(w: World): Option<Identity> {
    if w.hasGit && w.describe.Answered? && w.head.Answered? && w.untracked.Answered? then
      Some(Identity(Checkout, w.describe.text, w.head.text,
        Some(EndsWith(w.describe.text, "-dirty") || w.untracked.text != ""), "", []))
    else None
  }

  ghost function Captured(hash: Hash, w: World, directory: string): Identity {
    var checkout := CheckoutIdentity(w);
    var base := if checkout.Some? then checkout.value
      else Identity(Installed, w.installedVersion, w.installedCommit, None, "",
        (if w.hasGit then [CheckoutUnreadable] else []) + (if w.installedVersion == "" then [VersionUnreadable] else []));
    var digest := DigestOrEmpty(hash, TreeAt(w, directory));
    base.(digest := digest, errors := base.errors + if digest == "" then [TreeUnreadable] else [])
  }

  /** What a description compares: the digests alone, and the commit only for a changed checkout. */
  ghost predicate Compared(a: Answers, identity: Identity, current: string, w: World) {
    var unreadable := identity.digest == "" || current == "";
    && a.identity == identity
    && a.changed == (if unreadable then None else Some(identity.digest != current))
    && a.currentDigest == (if a.changed == Some(true) then Some(current) else None)
    && a.currentCommit == (if a.changed == Some(true) && identity.origin.Checkout? && w.head.Answered? && w.head.text != identity.commit
         then Some(w.head.text) else None)
    && a.errors == identity.errors + (if current == "" then [TreeUnreadable] else [])
         + (if a.changed == Some(true) && identity.origin.Checkout? && w.head.Failed? then [CommitUnreadable] else [])
  }

  method DigestNow(hash: Hash, w: World, directory: string) returns (digest: string)
    ensures digest == DigestOrEmpty(hash, TreeAt(w, directory))
  {
    hide Whole, Entries, Framed;
    var computed := ComputeDigest(hash, TreeAt(w, directory));
    digest := if computed.Some? then computed.value else "";
  }

  /** The module state of one process. */
  class Startup {
    var directory: string
    var identity: Option<Identity>

    constructor ()
      ensures identity == None
    {
      directory, identity := "", None;
    }

    /** `_ftStartupIdentity`: captured once, whatever is asked later. */
    method StartupIdentity(hash: Hash, w: World, asked: string)
      modifies this
      ensures old(identity).Some? ==> identity == old(identity) && directory == old(directory)
      ensures old(identity).None? ==> identity == Some(Captured(hash, w, asked)) && directory == asked
    {
      hide DigestOrEmpty;
      if identity.None? {
        var base := CheckoutIdentity(w);
        var errors := [];
        if base.None? {
          if w.hasGit { errors := errors + [CheckoutUnreadable]; }
          if w.installedVersion == "" { errors := errors + [VersionUnreadable]; }
          base := Some(Identity(Installed, w.installedVersion, w.installedCommit, None, "", errors));
        }
        var digest := DigestNow(hash, w, asked);
        assert errors == (if CheckoutIdentity(w).Some? then [] else
          (if w.hasGit then [CheckoutUnreadable] else []) + (if w.installedVersion == "" then [VersionUnreadable] else []));
        assert errors + [] == errors;
        if digest == "" { errors := errors + [TreeUnreadable]; }
        directory, identity := asked, Some(base.value.(digest := digest, errors := errors));
      }
    }

    /** `fdictDescribeRunningVaibify` */
    method Describe(hash: Hash, w: World, imported: string) returns (a: Answers)
      modifies this
      ensures identity.Some?
      ensures old(identity).Some? ==> identity == old(identity) && directory == old(directory)
      ensures old(identity).None? ==> identity == Some(Captured(hash, w, imported)) && directory == imported
      ensures Compared(a, identity.value, DigestOrEmpty(hash, TreeAt(w, directory)), w)
    {
      hide DigestOrEmpty, Captured;
      StartupIdentity(hash, w, imported);
      var start := identity.value;
      var current := DigestNow(hash, w, directory);
      var errors := start.errors + if current == "" then [TreeUnreadable] else [];
      if start.digest == "" || current == "" { return Answers(start, None, None, None, errors); }
      if current == start.digest { return Answers(start, Some(false), None, None, errors + []); }
      var moved: Option<string> := None;
      if start.origin.Checkout? {
        if w.head.Failed? { errors := errors + [CommitUnreadable]; }
        else if w.head.text != start.commit { moved := Some(w.head.text); }
      }
      return Answers(start, Some(true), Some(current), moved, errors);
    }

    /** Any run of descriptions answers against the first moment: later worlds never replace it. */
    method Run(hash: Hash, worlds: seq<World>, imported: string) returns (answers: seq<Answers>)
      requires worlds != [] && identity.None?
      modifies this
      ensures |answers| == |worlds|
      ensures identity == Some(Captured(hash, worlds[0], imported)) && directory == imported
      ensures forall i | 0 <= i < |worlds| ::
        Compared(answers[i], Captured(hash, worlds[0], imported), DigestOrEmpty(hash, TreeAt(worlds[i], imported)), worlds[i])
    {
      hide DigestOrEmpty, Captured, Compared;
      answers := [];
      for i := 0 to |worlds|
        invariant |answers| == i
        invariant i > 0 ==> identity == Some(Captured(hash, worlds[0], imported)) && directory == imported
        invariant i == 0 ==> identity.None?
        invariant forall k | 0 <= k < i ::
          Compared(answers[k], Captured(hash, worlds[0], imported), DigestOrEmpty(hash, TreeAt(worlds[k], imported)), worlds[k])
      {
        var a := Describe(hash, worlds[i], imported);
        answers := answers + [a];
      }
    }
  }

  /** The verdict is about the source alone: HEAD, tags and the index play no part in it. */
  lemma ChangedMeansSourceDiffers(hash: Hash, start: World, now: World, directory: string, a: Answers)
    requires GoodHash(hash) && GoodTree(TreeAt(start, directory)) && GoodTree(TreeAt(now, directory))
    requires Compared(a, Captured(hash, start, directory), DigestOrEmpty(hash, TreeAt(now, directory)), now)
    ensures a.changed.None? <==> !Whole(TreeAt(start, directory)) || !Whole(TreeAt(now, directory))
    ensures a.changed.Some? ==> (a.changed.value <==> !SameSource(TreeAt(start, directory), TreeAt(now, directory)))
  {
    hide GoodTree, SameSource, Whole, Entries, Framed, TreeAt, CheckoutIdentity;
    DigestDecidesSource(hash, TreeAt(start, directory), TreeAt(now, directory));
    assert Captured(hash, start, directory).digest == DigestOrEmpty(hash, TreeAt(start, directory));
  }
}
