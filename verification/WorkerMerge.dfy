/** tools/reconfirmFalsification.py: a parent's summary is the merge of its workers' files. */
module WorkerMerge {
  import opened Numerals
  import opened Orders
  import opened Shards
  import opened Summary

  /** What the workers left behind, worker `w` at place `w - 1`; a worker that died left nothing. */
  type Left = seq<Option<ShardSummary>>

  // ----- The merge -----

  function TotalOf(left: Left, field: ShardSummary -> int): int {
    if left == [] then 0
    else TotalOf(left[..|left| - 1], field) + var last := left[|left| - 1]; if last.Some? then field(last.value) else 0
  }

  predicate Reported(left: Left, w: nat) { 1 <= w <= |left| && left[w - 1].Some? }

  /** The workers that left a file. */
  function Present(left: Left): (r: seq<nat>)
    ensures forall w | w in r :: Reported(left, w)
  {
    if left == [] then []
    else Present(left[..|left| - 1]) + if left[|left| - 1].Some? then [|left|] else []
  }

  function FileName(w: nat): string { "worker" + Decimal(w) + ".json" }

  /** Every worker has a file of its own, and the parent's pattern finds it. */
  lemma FileNamesDiffer(v: nat, w: nat)
    ensures FileName(v) == FileName(w) ==> v == w
    ensures exists middle :: FileName(w) == "worker" + middle + ".json"
  {
    if FileName(v) == FileName(w) {
      var a, b := FileName(v), FileName(w);
      assert a[6..|a| - 5] == Decimal(v) && b[6..|b| - 5] == Decimal(w);
      DecimalInjective(v, w);
    }
  }

  /** `sorted(glob("worker*.json"))`: by name, so that worker 10 comes before worker 2. */
  function Listing(left: Left): (r: seq<nat>)
    ensures multiset(r) == multiset(Present(left)) && AllPresent(left, r)
  {
    var r := SortOn(FileName, StringLe, Present(left));
    assert forall w | w in r :: w in multiset(Present(left));
    r
  }

  predicate AllPresent(left: Left, order: seq<nat>) { forall w | w in order :: Reported(left, w) }

  function SurvivorsOf(left: Left, w: nat): seq<string>
    requires Reported(left, w)
  {
    left[w - 1].value.survivors
  }

  function SurvivorsIn(left: Left, order: seq<nat>): seq<string>
    requires AllPresent(left, order)
  {
    if order == [] then []
    else
      assert order == order[..|order| - 1] + [order[|order| - 1]];
      SurvivorsIn(left, order[..|order| - 1]) + SurvivorsOf(left, order[|order| - 1])
  }

  function Merged(left: Left, parent: Option<Shard>): ShardSummary {
    ShardSummary(Some(if parent.None? then 1 else parent.value.count),
                 TotalOf(left, (s: ShardSummary) => s.ran), TotalOf(left, (s: ShardSummary) => s.killed),
                 TotalOf(left, (s: ShardSummary) => s.deferred), SurvivorsIn(left, Listing(left)))
  }

  /** `_fiReportWorkerResults`: the summary is written whatever the workers' exit codes, which
      alone decide the parent's. */
  method ReportWorkers(left: Left, codes: seq<int>, parent: Option<Shard>) returns (summary: ShardSummary, code: int)
    requires |codes| == |left|
    ensures summary == Merged(left, parent)
    ensures code == if forall k | 0 <= k < |codes| :: codes[k] == 0 then 0 else 1
  {
    var ran, killed, deferred := 0, 0, 0;
    code := 0;
    for i := 0 to |codes|
      invariant code == if forall k | 0 <= k < i :: codes[k] == 0 then 0 else 1
    {
      if codes[i] != 0 { code := 1; }
    }
    for i := 0 to |left|
      invariant ran == TotalOf(left[..i], (s: ShardSummary) => s.ran)
      invariant killed == TotalOf(left[..i], (s: ShardSummary) => s.killed)
      invariant deferred == TotalOf(left[..i], (s: ShardSummary) => s.deferred)
    {
      assert left[..i + 1][..i] == left[..i];
      if left[i].None? { continue; }
      ran := ran + left[i].value.ran;
      killed := killed + left[i].value.killed;
      deferred := deferred + left[i].value.deferred;
    }
    assert left[..|left|] == left;
    var survivors := CollectSurvivors(left);
    summary := ShardSummary(Some(if parent.None? then 1 else parent.value.count), ran, killed, deferred, survivors);
  }

  /** `_flistCollectWorkerSurvivors` */
  method CollectSurvivors(left: Left) returns (survivors: seq<string>)
    ensures survivors == SurvivorsIn(left, Listing(left))
  {
    survivors := [];
    var order := Listing(left);
    for i := 0 to |order|
      invariant survivors == SurvivorsIn(left, order[..i])
    {
      assert order[..i + 1][..i] == order[..i];
      assert order[i] in order;
      survivors := survivors + SurvivorsOf(left, order[i]);
    }
    assert order[..|order|] == order;
  }

  // ----- The names do not depend on the order of the files -----

  function Named(left: Left, order: seq<nat>): multiset<string>
    requires AllPresent(left, order)
  {
    multiset(SurvivorsIn(left, order))
  }

  lemma NamedLast(left: Left, order: seq<nat>, w: nat)
    requires AllPresent(left, order) && Reported(left, w)
    ensures AllPresent(left, order + [w])
    ensures Named(left, order + [w]) == Named(left, order) + multiset(SurvivorsOf(left, w))
  {
    hide Reported, SurvivorsOf;
    assert (order + [w])[..|order + [w]| - 1] == order;
  }

  lemma {:induction false} NamedAppend(left: Left, a: seq<nat>, b: seq<nat>)
    requires AllPresent(left, a) && AllPresent(left, b)
    ensures AllPresent(left, a + b) && Named(left, a + b) == Named(left, a) + Named(left, b)
  {
    hide Named, SurvivorsOf, Reported;
    if b == [] {
      assert a + b == a;
      NothingNamed(left);
    } else {
      var init, w := b[..|b| - 1], b[|b| - 1];
      assert b == init + [w] && a + b == (a + init) + [w];
      NamedAppend(left, a, init);
      NamedLast(left, init, w);
      NamedLast(left, a + init, w);
    }
  }

  lemma NothingNamed(left: Left)
    ensures Named(left, []) == multiset{}
  {
  }

  lemma Picked(b: seq<nat>, w: nat) returns (front: seq<nat>, back: seq<nat>)
    requires w in multiset(b)
    ensures b == (front + [w]) + back && multiset(front + back) == multiset(b) - multiset{w}
    ensures forall x | x in front || x in back :: x in b
  {
    var i :| 0 <= i < |b| && b[i] == w;
    front, back := b[..i], b[i + 1..];
    assert b == (front + [w]) + back;
  }

  lemma {:induction false} NamedInAnyOrder(left: Left, a: seq<nat>, b: seq<nat>)
    requires AllPresent(left, a) && AllPresent(left, b) && multiset(a) == multiset(b)
    ensures Named(left, a) == Named(left, b)
    decreases |a|
  {
    hide Named, SurvivorsOf, Reported;
    if a == [] {
      assert |multiset(b)| == |b|;
    } else {
      var init, w := a[..|a| - 1], a[|a| - 1];
      assert a == init + [w];
      assert w in multiset(a);
      var front, back := Picked(b, w);
      assert multiset(init) == multiset(a) - multiset{w};
      assert AllPresent(left, init) && AllPresent(left, front) && AllPresent(left, back) by {
        assert forall x | x in init :: x in a;
      }
      NamedAppend(left, front, back);
      NamedInAnyOrder(left, init, front + back);
      NamedLast(left, init, w);
      NamedLast(left, front, w);
      NamedAppend(left, front + [w], back);
    }
  }

  lemma {:induction false} NamedBefore(left: Left, more: Option<ShardSummary>, order: seq<nat>)
    requires AllPresent(left, order)
    ensures AllPresent(left + [more], order) && SurvivorsIn(left + [more], order) == SurvivorsIn(left, order)
  {
    if order != [] {
      var init, w := order[..|order| - 1], order[|order| - 1];
      assert order == init + [w];
      NamedBefore(left, more, init);
      assert Reported(left, w) && SurvivorsOf(left + [more], w) == SurvivorsOf(left, w);
    }
  }

  // ----- All workers reported: the merge is the parent's own summary -----

  /** How often a test survives, told from the results as a multiset. */
  lemma {:induction false} BadCounts(results: seq<Result>, id: string)
    ensures multiset(Bad(results))[id] == multiset(results)[Result(id, false)]
  {
    if results != [] {
      var first, rest := results[0], results[1..];
      BadCounts(rest, id);
      assert results == [first] + rest;
      assert multiset(results) == multiset{first} + multiset(rest);
      assert multiset(Bad(results)) == (if first.killed then multiset{} else multiset{first.nodeId}) + multiset(Bad(rest));
      hide Bad;
    }
  }

  // ----- Adding up -----

  /** The parts of the entries and of the deferred ones that fell to the first workers. */
  ghost predicate AddsUp(left: Left, ran: multiset<Result>, put: nat) {
    && TotalOf(left, (s: ShardSummary) => s.ran) == |ran|
    && TotalOf(left, (s: ShardSummary) => s.deferred) == put
    && TotalOf(left, (s: ShardSummary) => s.killed) == |ran| - |Named(left, Present(left))|
    && forall id :: Named(left, Present(left))[id] == ran[Result(id, false)]
  }

  lemma AddOne<D>(left: Left, ran: multiset<Result>, put: nat, evaluable: seq<Result>, deferred: seq<D>, s: Shard)
    requires AddsUp(left, ran, put) && Legal(s)
    ensures AddsUp(left + [Some(WriteSummary(evaluable, deferred, s))], ran + multiset(Slice(evaluable, s)), put + |Slice(deferred, s)|)
  {
    hide Slice, Bad, SurvivorsIn;
    var w := WriteSummary(evaluable, deferred, s);
    var longer := left + [Some(w)];
    assert longer[..|longer| - 1] == left;
    assert Present(longer) == Present(left) + [|longer|];
    NamedBefore(left, Some(w), Present(left));
    NamedLast(longer, Present(left), |longer|);
    assert SurvivorsOf(longer, |longer|) == w.survivors;
    forall id ensures multiset(w.survivors)[id] == multiset(Slice(evaluable, s))[Result(id, false)] { BadCounts(Slice(evaluable, s), id); }
    assert |multiset(w.survivors)| == |w.survivors|;
    assert |multiset(Slice(evaluable, s))| == |Slice(evaluable, s)|;
  }

  /** Which workers of which shard left a file. */
  type Presence = (nat, nat) -> bool

  /** What the workers of a shard left, some of them nothing. */
  function Remaining<D>(evaluable: seq<Result>, deferred: seq<D>, parent: Shard, workers: nat, here: Presence, k: nat): (left: Left)
    requires Legal(parent) && k <= workers
    ensures |left| == k
  {
    if k == 0 then []
    else
      SubShardIsLegal(Some(parent), k, workers);
      Remaining(evaluable, deferred, parent, workers, here, k - 1) +
      [if here(parent.index, k) then Some(WriteSummary(evaluable, deferred, SubShard(Some(parent), k, workers))) else None]
  }

  lemma NothingAddsUp()
    ensures AddsUp([], multiset{}, 0)
  {
  }

  lemma {:induction false} RemainingAddsUp<D>(evaluable: seq<Result>, deferred: seq<D>, parent: Shard, workers: nat, here: Presence, k: nat)
    requires Legal(parent) && k <= workers && forall w | 1 <= w <= k :: here(parent.index, w)
    ensures AddsUp(Remaining(evaluable, deferred, parent, workers, here, k), FirstWorkers(evaluable, parent, workers, k),
                   |FirstWorkers(deferred, parent, workers, k)|)
  {
    hide AddsUp, SubShard, Slice, WriteSummary;
    if k == 0 {
      NothingAddsUp();
    } else {
      SubShardIsLegal(Some(parent), k, workers);
      var s := SubShard(Some(parent), k, workers);
      RemainingAddsUp(evaluable, deferred, parent, workers, here, k - 1);
      AddOne(Remaining(evaluable, deferred, parent, workers, here, k - 1), FirstWorkers(evaluable, parent, workers, k - 1),
             |FirstWorkers(deferred, parent, workers, k - 1)|, evaluable, deferred, s);
      assert |multiset(Slice(deferred, s))| == |Slice(deferred, s)|;
    }
  }

  /** When every worker reported, the merge says what the parent's shard run alone would have said. */
  lemma MergeIsParent<D>(evaluable: seq<Result>, deferred: seq<D>, parent: Shard, workers: nat, here: Presence)
    requires Legal(parent) && workers >= 1 && forall w | 1 <= w <= workers :: here(parent.index, w)
    ensures SameSummary(Merged(Remaining(evaluable, deferred, parent, workers, here, workers), Some(parent)),
                        WriteSummary(evaluable, deferred, parent))
  {
    hide Slice, FirstWorkers, Remaining, TotalOf, Bad, SurvivorsIn, Listing, Present;
    var left := Remaining(evaluable, deferred, parent, workers, here, workers);
    var mine := Slice(evaluable, parent);
    RemainingAddsUp(evaluable, deferred, parent, workers, here, workers);
    WorkersPartition(evaluable, parent, workers);
    WorkersPartition(deferred, parent, workers);
    NamedInAnyOrder(left, Listing(left), Present(left));
    forall id ensures multiset(Bad(mine))[id] == Named(left, Present(left))[id] { BadCounts(mine, id); }
    assert multiset(Bad(mine)) == Named(left, Present(left)) == multiset(SurvivorsIn(left, Listing(left)));
    assert |multiset(mine)| == |mine| && |multiset(Bad(mine))| == |Bad(mine)|;
    assert |multiset(Slice(deferred, parent))| == |Slice(deferred, parent)|;
  }

  // ----- Workers that reported nothing -----

  /** The leg's summaries as its shards' parents write them. */
  function MergedLeg<D>(evaluable: seq<Result>, deferred: seq<D>, shards: nat, workers: nat, here: Presence): map<int, ShardSummary> {
    map i | i in Range(shards) :: Merged(Remaining(evaluable, deferred, Shard(i, shards), workers, here, workers), Some(Shard(i, shards)))
  }

  lemma {:induction false} RemainingAt<D>(evaluable: seq<Result>, deferred: seq<D>, parent: Shard, workers: nat, here: Presence, k: nat, w: nat)
    requires Legal(parent) && 1 <= w <= k <= workers
    ensures Legal(SubShard(Some(parent), w, workers))
    ensures Remaining(evaluable, deferred, parent, workers, here, k)[w - 1] ==
      if here(parent.index, w) then Some(WriteSummary(evaluable, deferred, SubShard(Some(parent), w, workers))) else None
  {
    hide WriteSummary, SubShard;
    SubShardIsLegal(Some(parent), w, workers);
    if w < k { RemainingAt(evaluable, deferred, parent, workers, here, k - 1, w); }
  }

  lemma {:induction false} PresentMeans(left: Left, w: nat)
    ensures w in Present(left) <==> Reported(left, w)
  {
    if left != [] {
      var init := left[..|left| - 1];
      PresentMeans(init, w);
      assert Reported(init, w) ==> init[w - 1] == left[w - 1];
    }
  }

  /** Nobody is named exactly when no worker that reported names anybody. */
  lemma NobodyMerged(left: Left, parent: Option<Shard>)
    ensures Merged(left, parent).survivors == [] <==> forall w | Reported(left, w) :: SurvivorsOf(left, w) == []
  {
    hide SurvivorsIn, Listing, TotalOf, Reported;
    forall w ensures w in Listing(left) <==> Reported(left, w) {
      PresentMeans(left, w);
      assert w in multiset(Listing(left)) <==> w in multiset(Present(left));
    }
    NobodyListed(left, Listing(left));
  }

  lemma {:induction false} NobodyListed(left: Left, order: seq<nat>)
    requires AllPresent(left, order)
    ensures SurvivorsIn(left, order) == [] <==> forall w | w in order :: SurvivorsOf(left, w) == []
  {
    hide SurvivorsOf, Reported;
    if order != [] {
      var init, w := order[..|order| - 1], order[|order| - 1];
      assert order == init + [w];
      NobodyListed(left, init);
    }
  }

  // ----- What exit 0 proves about the merged union -----

  /** The summary job ends with 0 on the leg its parents' merges describe. */
  ghost predicate CleanUnion<D>(evaluable: seq<Result>, deferred: seq<D>, shards: nat, workers: nat, here: Presence) {
    Complete(map["leg" := MergedLeg(evaluable, deferred, shards, workers, here)], [Expectation("leg", shards)])
  }

  function SliceOfWorker<T>(xs: seq<T>, shards: nat, workers: nat, i: nat, w: nat): seq<T>
    requires 1 <= i <= shards && 1 <= w <= workers
  {
    SubShardIsLegal(Some(Shard(i, shards)), w, workers);
    Slice(xs, SubShard(Some(Shard(i, shards)), w, workers))
  }

  /** Every worker that left a file found nothing alive. */
  ghost predicate NothingAliveSeen(evaluable: seq<Result>, shards: nat, workers: nat, here: Presence) {
    forall i, w | 1 <= i <= shards && 1 <= w <= workers && here(i, w) :: Bad(SliceOfWorker(evaluable, shards, workers, i, w)) == []
  }

  lemma LegShape<D>(evaluable: seq<Result>, deferred: seq<D>, shards: nat, workers: nat, here: Presence)
    ensures MergedLeg(evaluable, deferred, shards, workers, here).Keys == Range(shards)
    ensures forall i | 1 <= i <= shards :: MergedLeg(evaluable, deferred, shards, workers, here)[i].shards == Some(shards)
  {
    hide TotalOf, SurvivorsIn, Listing, Remaining;
  }

  /** The workers of shard `i` that left a file found nothing alive. */
  ghost predicate NothingAliveIn(evaluable: seq<Result>, shards: nat, workers: nat, here: Presence, i: nat)
    requires 1 <= i <= shards
  {
    forall w | 1 <= w <= workers && here(i, w) :: Bad(SliceOfWorker(evaluable, shards, workers, i, w)) == []
  }

  lemma CleanLeg<D>(evaluable: seq<Result>, deferred: seq<D>, shards: nat, workers: nat, here: Presence, i: nat)
    requires 1 <= i <= shards
    ensures MergedLeg(evaluable, deferred, shards, workers, here)[i].survivors == [] <==>
      NothingAliveIn(evaluable, shards, workers, here, i)
  {
    hide Merged, Slice, Bad, Complete, SubShard;
    var left := Remaining(evaluable, deferred, Shard(i, shards), workers, here, workers);
    NobodyMerged(left, Some(Shard(i, shards)));
    forall w | 1 <= w <= workers
      ensures Reported(left, w) <==> here(i, w)
      ensures here(i, w) ==> SurvivorsOf(left, w) == Bad(SliceOfWorker(evaluable, shards, workers, i, w))
    {
      RemainingAt(evaluable, deferred, Shard(i, shards), workers, here, workers, w);
    }
  }

  lemma ShardByShard(evaluable: seq<Result>, shards: nat, workers: nat, here: Presence)
    ensures NothingAliveSeen(evaluable, shards, workers, here) <==>
      forall i | 1 <= i <= shards :: NothingAliveIn(evaluable, shards, workers, here, i)
  {
    hide Bad, SliceOfWorker;
    if forall i | 1 <= i <= shards :: NothingAliveIn(evaluable, shards, workers, here, i) {
      forall i: nat, w: nat | 1 <= i <= shards && 1 <= w <= workers && here(i, w)
        ensures Bad(SliceOfWorker(evaluable, shards, workers, i, w)) == []
      {
        assert NothingAliveIn(evaluable, shards, workers, here, i);
      }
    }
  }

  lemma CleanUnionMeans<D>(evaluable: seq<Result>, deferred: seq<D>, shards: nat, workers: nat, here: Presence)
    ensures CleanUnion(evaluable, deferred, shards, workers, here) <==> NothingAliveSeen(evaluable, shards, workers, here)
  {
    hide Complete, MergedLeg, NothingAliveIn, NothingAliveSeen;
    var leg := MergedLeg(evaluable, deferred, shards, workers, here);
    LegShape(evaluable, deferred, shards, workers, here);
    forall i: nat | 1 <= i <= shards ensures leg[i].survivors == [] <==> NothingAliveIn(evaluable, shards, workers, here, i) {
      CleanLeg(evaluable, deferred, shards, workers, here, i);
    }
    OneLeg(leg, shards);
    ShardByShard(evaluable, shards, workers, here);
  }

  lemma OneLeg(leg: map<int, ShardSummary>, shards: nat)
    requires leg.Keys == Range(shards) && forall i | 1 <= i <= shards :: leg[i].shards == Some(shards)
    ensures Complete(map["leg" := leg], [Expectation("leg", shards)]) <==> forall i | 1 <= i <= shards :: leg[i].survivors == []
  {
    var reports, expected := map["leg" := leg], [Expectation("leg", shards)];
    assert expected[0].leg == "leg" && "leg" in reports && ShardsOf(reports, "leg") == leg;
    assert IsExpected("leg", expected);
    assert forall i :: i in leg <==> 1 <= i <= shards;
  }

  // ----- Which worker an entry falls to -----

  lemma Placed(j: nat, shards: nat, workers: nat) returns (i: nat, w: nat)
    requires shards >= 1 && workers >= 1
    ensures 1 <= i <= shards && 1 <= w <= workers && shards * workers >= 1
    ensures i + shards * (w - 1) == j % (shards * workers) + 1
  {
    var q, r := Divided(j, shards);
    var p, z := Divided(q, workers);
    i, w := r + 1, z + 1;
    Positive(shards, workers);
    Distributed(p, workers, z, shards);
    PlaceFits(shards, workers, i, w);
    ModUnique(j, shards * workers, p, shards * (w - 1) + (i - 1));
  }

  lemma Divided(j: nat, n: nat) returns (q: nat, r: nat)
    requires n >= 1
    ensures j == q * n + r && r < n
  {
    q, r := j / n, j % n;
  }

  lemma Distributed(p: int, m: int, r: int, n: int)
    ensures (p * m + r) * n == p * (n * m) + n * r
  {
  }

  lemma PlaceFits(shards: nat, workers: nat, i: nat, w: nat)
    requires 1 <= i <= shards && 1 <= w <= workers
    ensures 0 <= shards * (w - 1) + (i - 1) < shards * workers
  {
    NonNegative(shards, w - 1);
    NonNegative(shards, workers - w);
    assert shards * workers == shards * (w - 1) + shards + shards * (workers - w);
  }

  lemma PlacesDiffer(shards: nat, i: nat, w: nat, i': nat, w': nat)
    requires 1 <= i <= shards && 1 <= i' <= shards && w >= 1 && w' >= 1
    requires i + shards * (w - 1) == i' + shards * (w' - 1)
    ensures i == i' && w == w'
  {
    ModUnique(shards * (w - 1) + (i - 1), shards, w - 1, i - 1);
    ModUnique(shards * (w' - 1) + (i' - 1), shards, w' - 1, i' - 1);
  }

  lemma SliceMembers<T>(xs: seq<T>, s: Shard, x: T) returns (j: nat)
    requires Legal(s) && x in Slice(xs, s)
    ensures j < |xs| && xs[j] == x && s.index == j % s.count + 1
  {
    var k :| 0 <= k < |Slice(xs, s)| && Slice(xs, s)[k] == x;
    StrideAt(xs, s.index - 1, s.count, k);
    NonNegative(k, s.count);
    j := s.index - 1 + k * s.count;
    ModUnique(j, s.count, k, s.index - 1);
  }

  // ----- Exit 0 and the workers that never reported -----

  ghost predicate AllKilled(evaluable: seq<Result>) { forall r | r in evaluable :: r.killed }

  /** For every outcome of `n` entries: exit 0 means that all were killed. */
  ghost predicate Proves<D>(n: nat, deferred: seq<D>, shards: nat, workers: nat, here: Presence) {
    forall evaluable: seq<Result> | |evaluable| == n && CleanUnion(evaluable, deferred, shards, workers, here) :: AllKilled(evaluable)
  }

  /** Every worker that had an entry to judge left a file. */
  ghost predicate AllReported(n: nat, shards: nat, workers: nat, here: Presence) {
    forall i, w | 1 <= i <= shards && 1 <= w <= workers && i + shards * (w - 1) <= n :: here(i, w)
  }

  /** The union of merged summaries proves that all were killed exactly when every worker
      whose slice is not empty has reported: a crashed worker's slice vanishes silently. */
  lemma UnionProvesExactly<D>(n: nat, deferred: seq<D>, shards: nat, workers: nat, here: Presence)
    requires shards >= 1 && workers >= 1
    ensures Proves(n, deferred, shards, workers, here) <==> AllReported(n, shards, workers, here)
  {
    hide CleanUnion, NothingAliveSeen, AllKilled;
    if AllReported(n, shards, workers, here) {
      forall evaluable: seq<Result> | |evaluable| == n && CleanUnion(evaluable, deferred, shards, workers, here)
        ensures AllKilled(evaluable)
      {
        CleanUnionMeans(evaluable, deferred, shards, workers, here);
        ReportedMeansKilled(evaluable, shards, workers, here);
      }
    } else {
      NotProved(n, deferred, shards, workers, here);
    }
  }

  lemma NotProved<D>(n: nat, deferred: seq<D>, shards: nat, workers: nat, here: Presence)
    requires shards >= 1 && workers >= 1 && !AllReported(n, shards, workers, here)
    ensures !Proves(n, deferred, shards, workers, here)
  {
    hide CleanUnion, NothingAliveSeen, AllKilled, AliveAt;
    var i, w :| 1 <= i <= shards && 1 <= w <= workers && i + shards * (w - 1) <= n && !here(i, w);
    NonNegative(shards, w - 1);
    var evaluable := AliveAt(n, i + shards * (w - 1) - 1);
    SurvivorUnseen(n, shards, workers, here, i, w);
    CleanUnionMeans(evaluable, deferred, shards, workers, here);
    assert |evaluable| == n && CleanUnion(evaluable, deferred, shards, workers, here) && !AllKilled(evaluable);
  }

  lemma EntryHasWorker(evaluable: seq<Result>, j: nat, shards: nat, workers: nat) returns (i: nat, w: nat)
    requires shards >= 1 && workers >= 1 && j < |evaluable|
    ensures 1 <= i <= shards && 1 <= w <= workers && i + shards * (w - 1) <= |evaluable|
    ensures evaluable[j] in SliceOfWorker(evaluable, shards, workers, i, w)
  {
    hide Slice;
    i, w := Placed(j, shards, workers);
    QuotientNonNegative(j, shards * workers);
    SubShardIsLegal(Some(Shard(i, shards)), w, workers);
    InItsSlice(evaluable, j, SubShard(Some(Shard(i, shards)), w, workers));
  }

  lemma ReportedMeansKilled(evaluable: seq<Result>, shards: nat, workers: nat, here: Presence)
    requires shards >= 1 && workers >= 1 && AllReported(|evaluable|, shards, workers, here)
    requires NothingAliveSeen(evaluable, shards, workers, here)
    ensures AllKilled(evaluable)
  {
    hide SliceOfWorker, Bad;
    forall r | r in evaluable ensures r.killed {
      var j :| 0 <= j < |evaluable| && evaluable[j] == r;
      var i, w := EntryHasWorker(evaluable, j, shards, workers);
      assert here(i, w);
      NoBadAllKilled(SliceOfWorker(evaluable, shards, workers, i, w));
    }
  }

  /** All killed but one. */
  function AliveAt(n: nat, j: nat): (r: seq<Result>)
    ensures |r| == n && forall k | 0 <= k < n :: r[k].killed <==> k != j
  {
    seq(n, k => Result("", k != j))
  }

  lemma SurvivorUnseen(n: nat, shards: nat, workers: nat, here: Presence, i: nat, w: nat)
    requires 1 <= i <= shards && 1 <= w <= workers && 1 <= i + shards * (w - 1) <= n && !here(i, w)
    ensures NothingAliveSeen(AliveAt(n, i + shards * (w - 1) - 1), shards, workers, here)
    ensures !AllKilled(AliveAt(n, i + shards * (w - 1) - 1))
  {
    hide Slice, Bad, AliveAt;
    var j := i + shards * (w - 1) - 1;
    var evaluable := AliveAt(n, j);
    assert evaluable[j] in evaluable;
    forall i': nat, w': nat | 1 <= i' <= shards && 1 <= w' <= workers && here(i', w')
      ensures Bad(SliceOfWorker(evaluable, shards, workers, i', w')) == []
    {
      var s := SubShard(Some(Shard(i', shards)), w', workers);
      SubShardIsLegal(Some(Shard(i', shards)), w', workers);
      PlaceFits(shards, workers, i, w);
      ModUnique(j, shards * workers, 0, j);
      forall r | r in Slice(evaluable, s) ensures r.killed {
        var k := SliceMembers(evaluable, s, r);
        if k == j { PlacesDiffer(shards, i, w, i', w'); }
      }
      NoBadAllKilled(Slice(evaluable, s));
    }
  }

  /** Two entries, one shard, two workers, of which the second died with the survivor in
      its slice: the summary job ends with 0. */
  lemma CrashedWorkerUnnoticed(here: Presence)
    requires here(1, 1) && !here(1, 2)
    ensures CleanUnion<string>([Result("a", true), Result("b", false)], [], 1, 2, here)
  {
    hide CleanUnion;
    var evaluable := [Result("a", true), Result("b", false)];
    CleanUnionMeans<string>(evaluable, [], 1, 2, here);
    assert Stride(evaluable, 2, 2) == [];
    assert SliceOfWorker(evaluable, 1, 2, 1, 1) == [evaluable[0]];
    assert [evaluable[0]][1..] == [];
    assert forall i: nat, w: nat | 1 <= i <= 1 && 1 <= w <= 2 && here(i, w) :: i == 1 && w == 1;
  }
}
