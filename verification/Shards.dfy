/** tools/reconfirmFalsification.py: contention classes, stride shards and worker slices. */
module Shards {
  import opened Numerals
  import opened Text

  // ----- Slicing: xs[start::step] -----

  function Stride<T>(xs: seq<T>, start: nat, step: nat): seq<T>
    requires step >= 1
    decreases |xs| - start
  {
    if start >= |xs| then [] else [xs[start]] + Stride(xs, start + step, step)
  }

  /** Element `k` of a stride slice is element `start + k * step` of the list. */
  lemma {:induction false} StrideAt<T>(xs: seq<T>, start: nat, step: nat, k: nat)
    requires step >= 1
    ensures k < |Stride(xs, start, step)| <==> start + k * step < |xs|
    ensures k < |Stride(xs, start, step)| ==> Stride(xs, start, step)[k] == xs[start + k * step]
    decreases k
  {
    if start < |xs| {
      if k > 0 {
        Successor(k - 1, step);
        StrideAt(xs, start + step, step, k - 1);
      }
    } else {
      NonNegative(k, step);
    }
  }

  lemma Successor(k: nat, step: nat)
    ensures (k + 1) * step == k * step + step
  {
  }

  lemma NonNegative(k: nat, step: nat)
    ensures k * step >= 0
  {
  }

  /** A slice of a slice is a slice: `xs[a::n][b::m] == xs[a + n*b::n*m]`. */
  lemma SliceOfSlice<T>(xs: seq<T>, a: nat, n: nat, b: nat, m: nat)
    requires n >= 1 && m >= 1
    ensures n * m >= 1 && a + n * b >= 0
    ensures Stride(Stride(xs, a, n), b, m) == Stride(xs, a + n * b, n * m)
  {
    Positive(n, m);
    NonNegative(n, b);
    var left, right := Stride(Stride(xs, a, n), b, m), Stride(xs, a + n * b, n * m);
    SliceOfSliceAt(xs, a, n, b, m, |left|);
    SliceOfSliceAt(xs, a, n, b, m, |right|);
    forall k | 0 <= k < |left| ensures left[k] == right[k] {
      SliceOfSliceAt(xs, a, n, b, m, k);
    }
  }

  lemma SliceOfSliceAt<T>(xs: seq<T>, a: nat, n: nat, b: nat, m: nat, k: nat)
    requires n >= 1 && m >= 1 && n * m >= 1 && a + n * b >= 0
    ensures var left, right := Stride(Stride(xs, a, n), b, m), Stride(xs, a + n * b, n * m);
      (k < |left| <==> k < |right|) && (k < |left| ==> left[k] == right[k])
  {
    hide Stride;
    StrideAt(Stride(xs, a, n), b, m, k);
    StrideAt(xs, a + n * b, n * m, k);
    NonNegative(k, m);
    StrideAt(xs, a, n, b + k * m);
    Regroup(a, n, b, m, k);
  }

  lemma Positive(n: nat, m: nat)
    requires n >= 1 && m >= 1
    ensures n * m >= 1
  {
  }

  lemma Regroup(a: nat, n: nat, b: nat, m: nat, k: nat)
    ensures a + (b + k * m) * n == (a + n * b) + k * (n * m)
  {
    assert (b + k * m) * n == b * n + k * m * n;
    assert k * m * n == k * (n * m);
  }

  // ----- Shards: I of N, 1-based -----

  datatype Shard = Shard(index: nat, count: nat)

  predicate Legal(s: Shard) { 1 <= s.index <= s.count }

  /** One list of `_tSelectShard`, which splits both its lists alike. */
  function Slice<T>(xs: seq<T>, s: Shard): seq<T>
    requires Legal(s)
  {
    Stride(xs, s.index - 1, s.count)
  }

  lemma StrideOfLonger<T>(xs: seq<T>, x: T, start: nat, step: nat)
    requires step >= 1
    ensures Stride(xs + [x], start, step) == Stride(xs, start, step) + if InStride(|xs|, start, step) then [x] else []
    decreases |xs| - start
  {
    if start < |xs| {
      StrideOfLonger(xs, x, start + step, step);
      StrideShift(|xs|, start, step);
      assert (xs + [x])[start] == xs[start];
    } else if start == |xs| {
      assert InStride(|xs|, start, step) by { assert (start - start) % step == 0; }
      assert Stride(xs + [x], start + step, step) == [];
    }
  }

  predicate InStride(j: nat, start: nat, step: nat)
    requires step >= 1
  {
    start <= j && (j - start) % step == 0
  }

  lemma StrideShift(j: nat, start: nat, step: nat)
    requires step >= 1 && start < j
    ensures InStride(j, start, step) <==> InStride(j, start + step, step)
  {
    var d := j - start;
    if d < step {
      assert d % step == d;
    } else {
      ModMinus(d, step);
    }
  }

  lemma ModMinus(d: nat, step: nat)
    requires step >= 1 && d >= step
    ensures (d - step) % step == d % step
  {
    var q, r := d / step, d % step;
    assert d == q * step + r;
    assert d - step == (q - 1) * step + r by { Successor(q - 1, step); }
    ModUnique(d - step, step, q - 1, r);
  }

  lemma ModUnique(d: int, step: nat, q: int, r: nat)
    requires step >= 1 && d == q * step + r && r < step
    ensures d % step == r && d / step == q
  {
    var q2, r2 := d / step, d % step;
    assert d == q2 * step + r2;
    assert (q2 - q) * step == q2 * step - q * step;
    MultipleGrows(q2 - q, step);
  }

  lemma MultipleGrows(a: int, step: int)
    requires step >= 1
    ensures a >= 1 ==> a * step >= step
    ensures a <= -1 ==> a * step <= -step
  {
  }

  /** Index `j` falls to exactly the shard `j % count + 1`. */
  lemma ShardOfIndex(j: nat, s: Shard)
    requires Legal(s)
    ensures InStride(j, s.index - 1, s.count) <==> s.index == j % s.count + 1
  {
    var n := s.count;
    var q, r := j / n, j % n;
    assert j == q * n + r;
    if s.index == r + 1 {
      QuotientNonNegative(j, n);
      ModUnique(j - r, n, q, 0);
    }
    if InStride(j, s.index - 1, n) {
      var q1 := (j - (s.index - 1)) / n;
      assert j == q1 * n + (s.index - 1);
      ModUnique(j, n, q1, s.index - 1);
    }
  }

  lemma QuotientNonNegative(j: nat, n: nat)
    requires n >= 1
    ensures (j / n) * n >= 0 && j % n <= j
  {
  }

  /** The first `k` of the shards, together. */
  function FirstShards<T>(xs: seq<T>, count: nat, k: nat): multiset<T>
    requires k <= count && count >= 1
  {
    if k == 0 then multiset{} else FirstShards(xs, count, k - 1) + multiset(Slice(xs, Shard(k, count)))
  }

  lemma {:induction false} FirstShardsOfLonger<T>(xs: seq<T>, x: T, count: nat, k: nat)
    requires k <= count && count >= 1
    ensures FirstShards(xs + [x], count, k) ==
      FirstShards(xs, count, k) + if |xs| % count + 1 <= k then multiset{x} else multiset{}
  {
    hide Stride;
    if k > 0 {
      FirstShardsOfLonger(xs, x, count, k - 1);
      SliceOfLonger(xs, x, Shard(k, count));
      hide Slice;
      var r := |xs| % count + 1;
      var before, slice := FirstShards(xs, count, k - 1), multiset(Slice(xs, Shard(k, count)));
      if r == k {
        assert before + (slice + multiset{x}) == before + slice + multiset{x};
      } else if r < k {
        assert before + multiset{x} + slice == before + slice + multiset{x};
      }
    }
  }

  lemma SliceOfLonger<T>(xs: seq<T>, x: T, s: Shard)
    requires Legal(s)
    ensures multiset(Slice(xs + [x], s)) ==
      multiset(Slice(xs, s)) + if |xs| % s.count + 1 == s.index then multiset{x} else multiset{}
  {
    hide Stride;
    StrideOfLonger(xs, x, s.index - 1, s.count);
    ShardOfIndex(|xs|, s);
  }

  lemma {:induction false} FirstShardsOfNone<T>(count: nat, k: nat)
    requires k <= count && count >= 1
    ensures FirstShards<T>([], count, k) == multiset{}
  {
    if k > 0 { FirstShardsOfNone<T>(count, k - 1); }
  }

  /** Every entry lands in exactly one shard: the shards together are the whole list. */
  lemma {:induction false} ShardsPartition<T>(xs: seq<T>, count: nat)
    requires count >= 1
    ensures FirstShards(xs, count, count) == multiset(xs)
  {
    if xs == [] {
      FirstShardsOfNone<T>(count, count);
    } else {
      var init, x := xs[..|xs| - 1], xs[|xs| - 1];
      assert xs == init + [x];
      ShardsPartition(init, count);
      FirstShardsOfLonger(init, x, count, count);
    }
  }

  // ----- Workers -----

  /** `_tSubShardForWorker` */
  function SubShard(parent: Option<Shard>, worker: nat, workers: nat): (s: Shard)
    requires parent.Some? ==> Legal(parent.value)
    requires 1 <= worker <= workers
  {
    var p := if parent.None? then Shard(1, 1) else parent.value;
    NonNegative(p.count, worker - 1);
    Shard(p.index + p.count * (worker - 1), p.count * workers)
  }

  lemma SubShardIsLegal(parent: Option<Shard>, worker: nat, workers: nat)
    requires parent.Some? ==> Legal(parent.value)
    requires 1 <= worker <= workers
    ensures Legal(SubShard(parent, worker, workers))
  {
    var n := if parent.None? then 1 else parent.value.count;
    assert n * (worker - 1) + n == n * worker;
    assert n * worker <= n * workers by { assert n * (workers - worker) >= 0; }
  }

  /** A worker's slice is the worker's slice of its parent's slice. */
  lemma WorkerSlice<T>(xs: seq<T>, parent: Shard, worker: nat, workers: nat)
    requires Legal(parent) && 1 <= worker <= workers
    ensures Legal(SubShard(Some(parent), worker, workers))
    ensures Slice(xs, SubShard(Some(parent), worker, workers)) == Slice(Slice(xs, parent), Shard(worker, workers))
  {
    SubShardIsLegal(Some(parent), worker, workers);
    SliceOfSlice(xs, parent.index - 1, parent.count, worker - 1, workers);
  }

  function FirstWorkers<T>(xs: seq<T>, parent: Shard, workers: nat, k: nat): multiset<T>
    requires Legal(parent) && k <= workers
  {
    if k == 0 then multiset{}
    else
      SubShardIsLegal(Some(parent), k, workers);
      FirstWorkers(xs, parent, workers, k - 1) + multiset(Slice(xs, SubShard(Some(parent), k, workers)))
  }

  /** The workers of a shard cover exactly that shard. */
  lemma WorkersPartition<T>(xs: seq<T>, parent: Shard, workers: nat)
    requires Legal(parent) && workers >= 1
    ensures FirstWorkers(xs, parent, workers, workers) == multiset(Slice(xs, parent))
  {
    WorkersAreShards(xs, parent, workers, workers);
    ShardsPartition(Slice(xs, parent), workers);
  }

  lemma {:induction false} WorkersAreShards<T>(xs: seq<T>, parent: Shard, workers: nat, k: nat)
    requires Legal(parent) && workers >= 1 && k <= workers
    ensures FirstWorkers(xs, parent, workers, k) == FirstShards(Slice(xs, parent), workers, k)
  {
    hide Slice, SubShard;
    if k > 0 {
      WorkersAreShards(xs, parent, workers, k - 1);
      WorkerSlice(xs, parent, k, workers);
    }
  }

  /** Without a parent's shard the workers split the whole list among them. */
  lemma WorkersOfWhole<T>(xs: seq<T>, worker: nat, workers: nat)
    requires 1 <= worker <= workers
    ensures Legal(SubShard(None, worker, workers)) && Slice(xs, SubShard(None, worker, workers)) == Slice(xs, Shard(worker, workers))
  {
    SubShardIsLegal(None, worker, workers);
  }

  // ----- Contention classes -----

  function Filter<T>(p: T -> bool, xs: seq<T>): seq<T> {
    if xs == [] then [] else (if p(xs[0]) then [xs[0]] else []) + Filter(p, xs[1..])
  }

  datatype Class = Exclusive | Shareable

  /** One list of `_tSelectContentionClass`. */
  function OfClass<T>(xs: seq<T>, isExclusive: T -> bool, c: Option<Class>): seq<T> {
    if c.None? then xs else Filter(x => isExclusive(x) == c.value.Exclusive?, xs)
  }

  lemma {:induction false} ClassesPartition<T>(xs: seq<T>, isExclusive: T -> bool)
    ensures multiset(OfClass(xs, isExclusive, Some(Exclusive))) + multiset(OfClass(xs, isExclusive, Some(Shareable))) == multiset(xs)
  {
    FilterSplit(x => isExclusive(x) == Exclusive.Exclusive?, x => isExclusive(x) == Shareable.Exclusive?, xs);
  }

  lemma {:induction false} FilterSplit<T>(p: T -> bool, q: T -> bool, xs: seq<T>)
    requires forall x | x in xs :: p(x) == !q(x)
    ensures multiset(Filter(p, xs)) + multiset(Filter(q, xs)) == multiset(xs)
  {
    if xs != [] {
      FilterSplit(p, q, xs[1..]);
      assert xs == [xs[0]] + xs[1..];
    }
  }

  /** The union, over the shards of each class, of what their workers run. */
  function CoveredByClass<T>(xs: seq<T>, count: nat, workers: nat, k: nat): multiset<T>
    requires count >= 1 && workers >= 1 && k <= count
  {
    if k == 0 then multiset{}
    else CoveredByClass(xs, count, workers, k - 1) + FirstWorkers(xs, Shard(k, count), workers, workers)
  }

  lemma {:induction false} CoveredIsShards<T>(xs: seq<T>, count: nat, workers: nat, k: nat)
    requires count >= 1 && workers >= 1 && k <= count
    ensures CoveredByClass(xs, count, workers, k) == FirstShards(xs, count, k)
  {
    hide FirstWorkers, Slice;
    if k > 0 {
      CoveredIsShards(xs, count, workers, k - 1);
      WorkersPartition(xs, Shard(k, count), workers);
    }
  }

  /** Class by shard by worker, the selections partition the registry. */
  lemma RegistryPartition<T>(registry: seq<T>, isExclusive: T -> bool, shards: nat, exclusiveShards: nat, workers: nat)
    requires shards >= 1 && exclusiveShards >= 1 && workers >= 1
    ensures CoveredByClass(OfClass(registry, isExclusive, Some(Shareable)), shards, workers, shards)
      + CoveredByClass(OfClass(registry, isExclusive, Some(Exclusive)), exclusiveShards, 1, exclusiveShards)
      == multiset(registry)
  {
    var a, b := OfClass(registry, isExclusive, Some(Shareable)), OfClass(registry, isExclusive, Some(Exclusive));
    CoveredIsShards(a, shards, workers, shards);
    CoveredIsShards(b, exclusiveShards, 1, exclusiveShards);
    ShardsPartition(a, shards);
    ShardsPartition(b, exclusiveShards);
    ClassesPartition(registry, isExclusive);
  }

  lemma {:induction false} FilterCount<T>(p: T -> bool, xs: seq<T>, x: T)
    ensures multiset(Filter(p, xs))[x] == if p(x) then multiset(xs)[x] else 0
  {
    if xs != [] {
      FilterCount(p, xs[1..], x);
      assert xs == [xs[0]] + xs[1..];
    }
  }

  lemma {:induction false} FilterKeepsOrder<T>(p: T -> bool, a: seq<T>, b: seq<T>)
    ensures Filter(p, a + b) == Filter(p, a) + Filter(p, b)
  {
    if a == [] {
      assert a + b == b;
    } else {
      var x, rest := a[0], a[1..];
      FilterKeepsOrder(p, rest, b);
      assert (a + b)[0] == x && (a + b)[1..] == rest + b;
      var first := if p(x) then [x] else [];
      assert first + (Filter(p, rest) + Filter(p, b)) == (first + Filter(p, rest)) + Filter(p, b);
    }
  }

  /** A class is a part of the registry in the registry's own order. */
  lemma ClassKeepsOrder<T>(a: seq<T>, b: seq<T>, isExclusive: T -> bool, c: Option<Class>)
    ensures OfClass(a + b, isExclusive, c) == OfClass(a, isExclusive, c) + OfClass(b, isExclusive, c)
  {
    if c.Some? { FilterKeepsOrder(x => isExclusive(x) == c.value.Exclusive?, a, b); }
  }

  /** The shards of the exclusive class run an exclusive entry as often as the registry has it
      and no other entry; those of the shareable class the others and no exclusive one; with
      no class asked for the registry is left as it is. */
  lemma EntriesRunInTheirClass<T>(registry: seq<T>, isExclusive: T -> bool, shards: nat, exclusiveShards: nat, workers: nat, x: T)
    requires shards >= 1 && exclusiveShards >= 1 && workers >= 1
    ensures CoveredByClass(OfClass(registry, isExclusive, Some(Exclusive)), exclusiveShards, 1, exclusiveShards)[x] ==
      if isExclusive(x) then multiset(registry)[x] else 0
    ensures CoveredByClass(OfClass(registry, isExclusive, Some(Shareable)), shards, workers, shards)[x] ==
      if isExclusive(x) then 0 else multiset(registry)[x]
    ensures OfClass(registry, isExclusive, None) == registry
  {
    var a, b := OfClass(registry, isExclusive, Some(Shareable)), OfClass(registry, isExclusive, Some(Exclusive));
    CoveredIsShards(a, shards, workers, shards);
    CoveredIsShards(b, exclusiveShards, 1, exclusiveShards);
    ShardsPartition(a, shards);
    ShardsPartition(b, exclusiveShards);
    FilterCount(y => isExclusive(y) == Exclusive.Exclusive?, registry, x);
    FilterCount(y => isExclusive(y) == Shareable.Exclusive?, registry, x);
  }

  // ----- The I/N argument -----

  datatype Argument = Absent | Refused | Given(shard: Shard)

  /** `_tParseShardArgument` */
  function ParseShardArgument(s: string): (r: Argument)
    ensures r.Given? ==> Legal(r.shard)
  {
    if s == "" then Absent
    else
      match Find(s, "/")
      case None => Refused
      case Some(k) =>
        var i, n := ParseInt(s[..k]), ParseInt(s[k + 1..]);
        if i.None? || n.None? then Refused
        else if n.value < 1 || !(1 <= i.value <= n.value) then Refused
        else Given(Shard(i.value, n.value))
  }

  /** Which arguments are taken, and for which shard: two numbers with the first slash between
      them, the first from one up to the second. Only the empty argument asks for no shard. */
  lemma ShardArgumentMeans(s: string, index: nat, count: nat)
    ensures ParseShardArgument(s) == Absent <==> s == ""
    ensures ParseShardArgument(s) == Given(Shard(index, count)) <==>
      1 <= index <= count &&
      exists a, b :: s == a + "/" + b && '/' !in a && ParseInt(a) == Some(index) && ParseInt(b) == Some(count)
  {
    hide ParseInt, StartsWith;
    if ParseShardArgument(s) == Given(Shard(index, count)) {
      var k := Find(s, "/").value;
      StartsWithSlash(s[k..]);
      assert s == s[..k] + "/" + s[k + 1..];
      assert '/' !in s[..k] by {
        forall j | 0 <= j < k ensures s[j] != '/' {
          assert s[j..][0] == s[j];
          if s[j] == '/' { SlashStarts(s[j..]); }
        }
      }
    }
    forall a, b | s == a + "/" + b && '/' !in a && ParseInt(a) == Some(index) && ParseInt(b) == Some(count) && 1 <= index <= count
      ensures ParseShardArgument(s) == Given(Shard(index, count))
    {
      FirstSlash(a, b);
      assert s[..|a|] == a && s[|a| + 1..] == b;
    }
  }

  lemma SlashStarts(t: string)
    requires t != "" && t[0] == '/'
    ensures StartsWith(t, "/")
  {
    assert t[..1] == "/";
  }

  lemma FirstSlash(a: string, rest: string)
    requires '/' !in a
    ensures Find(a + "/" + rest, "/") == Some(|a|)
  {
    var s := a + "/" + rest;
    SlashStarts(s[|a|..]);
    forall j | 0 <= j < |a| ensures !StartsWith(s[j..], "/") {
      assert s[j..][0] == a[j];
      StartsWithSlash(s[j..]);
    }
    FindIs(s, "/", |a|);
  }

  /** What a parent writes on a worker's command line. */
  function ShardArgument(s: Shard): string { Decimal(s.index) + "/" + Decimal(s.count) }

  lemma StartsWithSlash(t: string)
    ensures StartsWith(t, "/") ==> t != [] && t[0] == '/'
  {
    if StartsWith(t, "/") { assert t[..1][0] == '/'; }
  }

  /** A worker reads back exactly the slice its parent gave it. */
  lemma ArgumentRoundTrip(s: Shard)
    requires Legal(s)
    ensures ParseShardArgument(ShardArgument(s)) == Given(s)
  {
    var a, b := Decimal(s.index), Decimal(s.count);
    var t := a + "/" + b;
    assert '/' !in a;
    FirstSlash(a, b);
    assert t[..|a|] == a && t[|a| + 1..] == b;
    ParsePaddedDecimal(s.index, []);
    ParsePaddedDecimal(s.count, []);
    assert a + [] == a && b + [] == b;
  }

  lemma WorkersReadTheirSlices(parent: Option<Shard>, worker: nat, workers: nat)
    requires parent.Some? ==> Legal(parent.value)
    requires 1 <= worker <= workers
    ensures ParseShardArgument(ShardArgument(SubShard(parent, worker, workers))) == Given(SubShard(parent, worker, workers))
  {
    SubShardIsLegal(parent, worker, workers);
    ArgumentRoundTrip(SubShard(parent, worker, workers));
  }
}
