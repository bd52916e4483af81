/** tools/summarizeFalsificationShards.py: the verdict over the shards' summaries fails closed. */
module Summary {
  import opened Numerals
  import opened Shards

  /** One shard's `shardSummary.json`. A missing count field reads as zero. */
  datatype ShardSummary = ShardSummary(shards: Option<int>, ran: int, killed: int, deferred: int, survivors: seq<string>)

  type Reports = map<string, map<int, ShardSummary>>

  datatype Expectation = Expectation(leg: string, shards: int)

  datatype Problem =
    | Missing(leg: string, absent: set<int>)
    | WrongSplit(leg: string, shard: int, claimed: Option<int>, expected: int)
    | Unexpected(leg: string)

  function ShardsOf(reports: Reports, leg: string): map<int, ShardSummary> {
    if leg in reports then reports[leg] else map[]
  }

  /** `set(range(1, n + 1))` */
  function Range(n: int): (r: set<int>)
    ensures forall i :: i in r <==> 1 <= i <= n
    decreases if n <= 0 then 0 else n
  {
    if n <= 0 then {} else Range(n - 1) + {n}
  }

  lemma NonEmpty(s: set<int>)
    requires s != {}
    ensures exists x :: x in s
  {
    assert (forall x :: x !in s) ==> s == {};
  }

  function Absent(reports: Reports, e: Expectation): set<int> {
    Range(e.shards) - ShardsOf(reports, e.leg).Keys
  }

  /** The sentences owed for one expected leg. */
  predicate OwedFor(p: Problem, reports: Reports, e: Expectation) {
    match p
    case Missing(leg, absent) => leg == e.leg && absent == Absent(reports, e) && absent != {}
    case WrongSplit(leg, shard, claimed, expected) =>
      leg == e.leg && expected == e.shards && shard in ShardsOf(reports, leg) &&
      claimed == ShardsOf(reports, leg)[shard].shards && claimed != Some(expected)
    case Unexpected(_) => false
  }

  predicate IsExpected(leg: string, expectations: seq<Expectation>) {
    exists i :: 0 <= i < |expectations| && expectations[i].leg == leg
  }

  predicate Owed(p: Problem, reports: Reports, expectations: seq<Expectation>) {
    if p.Unexpected? then p.leg in reports && !IsExpected(p.leg, expectations)
    else exists i :: 0 <= i < |expectations| && OwedFor(p, reports, expectations[i])
  }

  /** `_flistDescribeMissingShards`: exactly the owed sentences. */
  method DescribeMissingShards(reports: Reports, expectations: seq<Expectation>) returns (problems: seq<Problem>)
    ensures forall p :: p in problems <==> Owed(p, reports, expectations)
  {
    problems := [];
    for i := 0 to |expectations|
      invariant forall p :: p in problems <==> exists k :: 0 <= k < i && OwedFor(p, reports, expectations[k])
    {
      var more := DescribeLeg(reports, expectations[i]);
      problems := problems + more;
    }
    var unexpected := set leg | leg in reports && !IsExpected(leg, expectations);
    ghost var named := problems;
    while unexpected != {}
      invariant forall leg | leg in unexpected :: leg in reports && !IsExpected(leg, expectations)
      invariant forall p :: p in problems <==>
        p in named || (p.Unexpected? && p.leg in reports && !IsExpected(p.leg, expectations) && p.leg !in unexpected)
      decreases |unexpected|
    {
      var leg :| leg in unexpected;
      problems := problems + [Unexpected(leg)];
      unexpected := unexpected - {leg};
    }
  }

  method DescribeLeg(reports: Reports, e: Expectation) returns (problems: seq<Problem>)
    ensures forall p :: p in problems <==> OwedFor(p, reports, e)
  {
    problems := [];
    var shards := ShardsOf(reports, e.leg);
    var absent := Absent(reports, e);
    if absent != {} { problems := [Missing(e.leg, absent)]; }
    var left := shards.Keys;
    while left != {}
      invariant left <= shards.Keys
      invariant forall p :: p in problems <==>
        OwedFor(p, reports, e) && (p.WrongSplit? ==> p.shard !in left)
      decreases |left|
    {
      NonEmpty(left);
      var shard :| shard in left;
      if shards[shard].shards != Some(e.shards) {
        problems := problems + [WrongSplit(e.leg, shard, shards[shard].shards, e.shards)];
      }
      left := left - {shard};
    }
  }

  datatype Survivor = Survivor(leg: string, shard: int, nodeId: string)

  predicate Survived(s: Survivor, reports: Reports) {
    s.leg in reports && s.shard in reports[s.leg] && s.nodeId in reports[s.leg][s.shard].survivors
  }

  /** `_flistDescribeSurvivors`: every survivor of every leg, expected or not. */
  method DescribeSurvivors(reports: Reports) returns (survivors: seq<Survivor>)
    ensures forall s :: s in survivors <==> Survived(s, reports)
  {
    survivors := [];
    var legs := reports.Keys;
    while legs != {}
      invariant legs <= reports.Keys
      invariant forall s :: s in survivors <==> Survived(s, reports) && s.leg !in legs
      decreases |legs|
    {
      var leg :| leg in legs;
      var more := DescribeSurvivorsOf(reports, leg);
      survivors := survivors + more;
      legs := legs - {leg};
    }
  }

  method DescribeSurvivorsOf(reports: Reports, leg: string) returns (survivors: seq<Survivor>)
    requires leg in reports
    ensures forall s :: s in survivors <==> Survived(s, reports) && s.leg == leg
  {
    survivors := [];
    var left := reports[leg].Keys;
    while left != {}
      invariant left <= reports[leg].Keys
      invariant forall s :: s in survivors <==> Survived(s, reports) && s.leg == leg && s.shard !in left
      decreases |left|
    {
      NonEmpty(left);
      var shard :| shard in left;
      var names := reports[leg][shard].survivors;
      for i := 0 to |names|
        invariant forall s :: s in survivors <==>
          (Survived(s, reports) && s.leg == leg && s.shard !in left) || (s.leg == leg && s.shard == shard && s.nodeId in names[..i])
      {
        assert names[..i + 1] == names[..i] + [names[i]];
        survivors := survivors + [Survivor(leg, shard, names[i])];
      }
      assert names[..|names|] == names;
      left := left - {shard};
    }
  }

  /** Every expected leg reports all its shards with the right split, no other leg
      reports, and nothing survived. A shard beyond the split is not noticed. */
  ghost predicate Complete(reports: Reports, expectations: seq<Expectation>) {
    (forall k | 0 <= k < |expectations| :: forall i | 1 <= i <= expectations[k].shards ::
      i in ShardsOf(reports, expectations[k].leg)) &&
    (forall k | 0 <= k < |expectations| :: forall i | i in ShardsOf(reports, expectations[k].leg) ::
      ShardsOf(reports, expectations[k].leg)[i].shards == Some(expectations[k].shards)) &&
    (forall leg | leg in reports :: IsExpected(leg, expectations)) &&
    (forall leg | leg in reports :: forall i | i in reports[leg] :: reports[leg][i].survivors == [])
  }

  /** `fiSummarizeShards`: exit code 0 exactly for a complete union. */
  method SummarizeShards(reports: Reports, expectations: seq<Expectation>) returns (code: int)
    ensures code == 0 || code == 1
    ensures code == 0 <==> Complete(reports, expectations)
  {
    var problems := DescribeMissingShards(reports, expectations);
    var survivors := DescribeSurvivors(reports);
    CompleteMeansNothingOwed(reports, expectations);
    code := if problems != [] || survivors != [] then 1 else 0;
    if problems != [] { assert problems[0] in problems; }
    if survivors != [] { assert survivors[0] in survivors; }
  }

  lemma CompleteMeansNothingOwed(reports: Reports, expectations: seq<Expectation>)
    ensures Complete(reports, expectations) <==>
      (forall p :: !Owed(p, reports, expectations)) && (forall s :: !Survived(s, reports))
  {
    if (forall p :: !Owed(p, reports, expectations)) && (forall s :: !Survived(s, reports)) {
      NothingOwedIsComplete(reports, expectations);
    }
    if Complete(reports, expectations) {
      forall p ensures !Owed(p, reports, expectations) { NotOwed(p, reports, expectations); }
    }
  }

  lemma NotOwed(p: Problem, reports: Reports, expectations: seq<Expectation>)
    requires Complete(reports, expectations)
    ensures !Owed(p, reports, expectations)
  {
  }

  lemma NothingOwedIsComplete(reports: Reports, expectations: seq<Expectation>)
    requires (forall p :: !Owed(p, reports, expectations)) && (forall s :: !Survived(s, reports))
    ensures Complete(reports, expectations)
  {
    forall k | 0 <= k < |expectations|
      ensures forall i | 1 <= i <= expectations[k].shards :: i in ShardsOf(reports, expectations[k].leg)
      ensures forall i | i in ShardsOf(reports, expectations[k].leg) ::
        ShardsOf(reports, expectations[k].leg)[i].shards == Some(expectations[k].shards)
    {
      var e := expectations[k];
      assert !Owed(Missing(e.leg, Absent(reports, e)), reports, expectations);
      assert !OwedFor(Missing(e.leg, Absent(reports, e)), reports, e);
      forall i | 1 <= i <= e.shards ensures i in ShardsOf(reports, e.leg) {
        assert i !in Absent(reports, e);
      }
      forall i | i in ShardsOf(reports, e.leg) ensures ShardsOf(reports, e.leg)[i].shards == Some(e.shards) {
        var p := WrongSplit(e.leg, i, ShardsOf(reports, e.leg)[i].shards, e.shards);
        assert !Owed(p, reports, expectations);
        assert !OwedFor(p, reports, e);
      }
    }
    forall leg | leg in reports ensures IsExpected(leg, expectations) {
      assert !Owed(Unexpected(leg), reports, expectations);
    }
    forall leg, i | leg in reports && i in reports[leg] ensures reports[leg][i].survivors == [] {
      var names := reports[leg][i].survivors;
      if names != [] { assert Survived(Survivor(leg, i, names[0]), reports); }
    }
  }

  // ----- What a clean verdict is worth -----

  datatype Result = Result(nodeId: string, killed: bool)

  function Bad(results: seq<Result>): seq<string> {
    if results == [] then [] else (if results[0].killed then [] else [results[0].nodeId]) + Bad(results[1..])
  }

  /** `_fnWriteShardSummary` for one shard of a class's evaluable and deferred lists. */
  function WriteSummary<D>(evaluable: seq<Result>, deferred: seq<D>, s: Shard): ShardSummary
    requires Legal(s)
  {
    var results := Slice(evaluable, s);
    ShardSummary(Some(s.count), |results|, |results| - |Bad(results)|, |Slice(deferred, s)|, Bad(results))
  }

  /** The same summary, the survivors named in any order. */
  ghost predicate SameSummary(a: ShardSummary, b: ShardSummary) {
    a == b.(survivors := a.survivors) && multiset(a.survivors) == multiset(b.survivors)
  }

  /** Each summary of the leg says what the shard its key names found. */
  ghost predicate Honest<D>(shards: map<int, ShardSummary>, evaluable: seq<Result>, deferred: seq<D>) {
    forall i | i in shards :: shards[i].shards.Some? && 1 <= i <= shards[i].shards.value &&
      SameSummary(shards[i], WriteSummary(evaluable, deferred, Shard(i, shards[i].shards.value)))
  }

  lemma NobodyNamed(a: ShardSummary, b: ShardSummary)
    requires SameSummary(a, b) && a.survivors == []
    ensures b.survivors == []
  {
    assert |multiset(b.survivors)| == |b.survivors|;
  }

  lemma {:induction false} NoBadAllKilled(results: seq<Result>)
    ensures |Bad(results)| <= |results|
    ensures Bad(results) == [] <==> forall r | r in results :: r.killed
  {
    if results != [] { NoBadAllKilled(results[1..]); }
  }

  /** Exit 0 over honest summaries: every evaluable entry of the leg's class was killed. */
  lemma CleanVerdictMeansAllKilled<D>(reports: Reports, expectations: seq<Expectation>, k: nat,
                                      evaluable: seq<Result>, deferred: seq<D>)
    requires Complete(reports, expectations) && k < |expectations| && expectations[k].shards >= 1
    requires Honest(ShardsOf(reports, expectations[k].leg), evaluable, deferred)
    ensures forall r | r in evaluable :: r.killed
    ensures ShardsOf(reports, expectations[k].leg).Keys == Range(expectations[k].shards)
  {
    var e := expectations[k];
    var shards := ShardsOf(reports, e.leg);
    forall r | r in evaluable ensures r.killed {
      var j :| 0 <= j < |evaluable| && evaluable[j] == r;
      var i := j % e.shards + 1;
      assert i in shards;
      InItsSlice(evaluable, j, Shard(i, e.shards));
      NoBadAllKilled(Slice(evaluable, Shard(i, e.shards)));
      assert e.leg in reports;
      NobodyNamed(shards[i], WriteSummary(evaluable, deferred, Shard(i, e.shards)));
    }
  }

  lemma InItsSlice<T>(xs: seq<T>, j: nat, s: Shard)
    requires Legal(s) && j < |xs| && s.index == j % s.count + 1
    ensures xs[j] in Slice(xs, s)
  {
    var q := j / s.count;
    assert j == q * s.count + (s.index - 1);
    QuotientNonNegative(j, s.count);
    MultipleGrows(q, s.count);
    StrideAt(xs, s.index - 1, s.count, q);
    assert Slice(xs, s)[q] == xs[j];
  }

  // ----- The totals -----

  ghost function Sum(s: set<int>, f: int -> int): int {
    if s == {} then 0 else
      NonEmpty(s);
      var x :| x in s;
      f(x) + Sum(s - {x}, f)
  }

  lemma {:induction false} SumRemove(s: set<int>, x: int, f: int -> int)
    requires x in s
    ensures Sum(s, f) == f(x) + Sum(s - {x}, f)
  {
    var y :| y in s && Sum(s, f) == f(y) + Sum(s - {y}, f);
    if y != x {
      SumRemove(s - {y}, x, f);
      SumRemove(s - {x}, y, f);
      assert s - {y} - {x} == s - {x} - {y};
    }
  }

  /** `sum(d.get(field, 0) for d in dictShards.values())` */
  method Total(shards: map<int, ShardSummary>, field: ShardSummary -> int) returns (total: int)
    ensures total == Sum(shards.Keys, i => if i in shards then field(shards[i]) else 0)
  {
    ghost var f := i => if i in shards then field(shards[i]) else 0;
    total := 0;
    var left := shards.Keys;
    while left != {}
      invariant left <= shards.Keys
      invariant total + Sum(left, f) == Sum(shards.Keys, f)
      decreases |left|
    {
      NonEmpty(left);
      var i :| i in left;
      SumRemove(left, i, f);
      total := total + field(shards[i]);
      left := left - {i};
    }
  }

  ghost predicate SliceSizes<T>(xs: seq<T>, count: nat, k: nat, f: int -> int)
    requires k <= count
  {
    forall i | 1 <= i <= k :: f(i) == |Slice(xs, Shard(i, count))|
  }

  lemma {:induction false} SumOfSlices<T>(xs: seq<T>, count: nat, k: nat, f: int -> int)
    requires 1 <= count && k <= count && SliceSizes(xs, count, k, f)
    ensures Sum(Range(k), f) == |FirstShards(xs, count, k)|
  {
    hide *;
    if k == 0 {
      NoSlices(xs, count, f);
    } else {
      FewerSizes(xs, count, k, f);
      SumOfSlices(xs, count, k - 1, f);
      RangeStep(k, f);
      SliceSize(xs, count, k);
    }
  }

  lemma NoSlices<T>(xs: seq<T>, count: nat, f: int -> int)
    requires 1 <= count
    ensures Sum(Range(0), f) == |FirstShards(xs, count, 0)|
  {
  }

  lemma FewerSizes<T>(xs: seq<T>, count: nat, k: nat, f: int -> int)
    requires 1 <= k <= count && SliceSizes(xs, count, k, f)
    ensures SliceSizes(xs, count, k - 1, f) && f(k) == |Slice(xs, Shard(k, count))|
  {
    hide Slice;
  }

  lemma RangeStep(k: nat, f: int -> int)
    requires k >= 1
    ensures Sum(Range(k), f) == f(k) + Sum(Range(k - 1), f)
  {
    hide Sum;
    SumRemove(Range(k), k, f);
    assert Range(k) - {k} == Range(k - 1);
  }

  lemma SliceSize<T>(xs: seq<T>, count: nat, k: nat)
    requires 1 <= k <= count
    ensures |FirstShards(xs, count, k)| == |FirstShards(xs, count, k - 1)| + |Slice(xs, Shard(k, count))|
  {
    hide Slice;
    assert |multiset(Slice(xs, Shard(k, count)))| == |Slice(xs, Shard(k, count))|;
  }

  /** Over honest summaries of a complete union the leg's totals are the class's sizes:
      everything evaluable was run and killed, everything else is counted as deferred. */
  lemma TotalsAreTheClass<D>(reports: Reports, expectations: seq<Expectation>, k: nat, evaluable: seq<Result>,
                             deferred: seq<D>, ran: int -> int, killed: int -> int, put: int -> int)
    requires Complete(reports, expectations) && k < |expectations| && expectations[k].shards >= 1
    requires var shards := ShardsOf(reports, expectations[k].leg);
      Honest(shards, evaluable, deferred) &&
      (forall i | i in shards :: ran(i) == shards[i].ran && killed(i) == shards[i].killed && put(i) == shards[i].deferred)
    ensures var keys := ShardsOf(reports, expectations[k].leg).Keys;
      Sum(keys, ran) == |evaluable| && Sum(keys, killed) == |evaluable| && Sum(keys, put) == |deferred|
  {
    var e := expectations[k];
    var shards := ShardsOf(reports, e.leg);
    CleanVerdictMeansAllKilled(reports, expectations, k, evaluable, deferred);
    assert shards.Keys == Range(e.shards);
    forall i | 1 <= i <= e.shards
      ensures ran(i) == |Slice(evaluable, Shard(i, e.shards))| == killed(i)
      ensures put(i) == |Slice(deferred, Shard(i, e.shards))|
    {
      assert i in shards;
      assert e.leg in reports;
      NobodyNamed(shards[i], WriteSummary(evaluable, deferred, Shard(i, e.shards)));
    }
    SumOfSlices(evaluable, e.shards, e.shards, ran);
    SumOfSlices(evaluable, e.shards, e.shards, killed);
    SumOfSlices(deferred, e.shards, e.shards, put);
    ShardsPartition(evaluable, e.shards);
    ShardsPartition(deferred, e.shards);
    assert |multiset(evaluable)| == |evaluable| && |multiset(deferred)| == |deferred|;
  }

  /** Completeness alone does not bound the shards: one beyond the split passes unnoticed. */
  lemma ExtraShardPasses()
    ensures var s := ShardSummary(Some(1), 1, 1, 0, []);
      Complete(map["leg" := map[1 := s, 2 := s]], [Expectation("leg", 1)])
  {
    var e := [Expectation("leg", 1)];
    assert e[0].leg == "leg";
  }
}
