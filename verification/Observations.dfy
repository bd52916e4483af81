/** tools/mutationAttribution.py: merging observations by row, and the rows left for manual tracing. */
module Observations {
  import opened Orders
  import opened Inventory

  /** One observed effect; the row key is empty when it could not be attributed. */
  datatype Observation = Observation(
    rowKey: string, mode: string, lane: string, declaration: string, invocation: string, primitive: string)

  datatype Entry = Entry(
    modes: set<string>, carriers: set<string>, lanes: set<string>, declarations: set<string>,
    invocations: set<string>, count: nat)

  const CARRIER_OF_MODE := map["synchronousCommit" := "synchronous", "lockHeldAsync" := "lock-held", "durableTask" := "durable"]

  function KeyOf(o: Observation): string { o.rowKey }

  predicate Attributed(o: Observation) { o.rowKey != "" }

  /** What the observations of one row add up to, said without an order. */
  function EntryFor(observations: seq<Observation>, key: string): Entry {
    Entry(
      set o | o in observations && o.rowKey == key :: o.mode,
      set o | o in observations && o.rowKey == key && o.mode in CARRIER_OF_MODE :: CARRIER_OF_MODE[o.mode],
      set o | o in observations && o.rowKey == key :: o.lane,
      set o | o in observations && o.rowKey == key :: o.declaration,
      set o | o in observations && o.rowKey == key :: o.invocation,
      multiset(Project(KeyOf, observations))[key])
  }

  function AttributedKeys(observations: seq<Observation>): set<string> {
    set o | o in observations && Attributed(o) :: o.rowKey
  }

  function Merged(observations: seq<Observation>): map<string, Entry> {
    map key | key in AttributedKeys(observations) :: EntryFor(observations, key)
  }

  const NOTHING := Entry({}, {}, {}, {}, {}, 0)

  /** `dictMerged.setdefault(key, empty)` */
  function Existing(merged: map<string, Entry>, key: string): Entry { if key in merged then merged[key] else NOTHING }

  function Add(e: Entry, o: Observation): Entry {
    Entry(e.modes + {o.mode}, e.carriers + (if o.mode in CARRIER_OF_MODE then {CARRIER_OF_MODE[o.mode]} else {}),
      e.lanes + {o.lane}, e.declarations + {o.declaration}, e.invocations + {o.invocation}, e.count + 1)
  }

  lemma ProjectLast(xs: seq<Observation>, o: Observation)
    ensures Project(KeyOf, xs + [o]) == Project(KeyOf, xs) + [o.rowKey]
  {
  }

  lemma EntryGrows(xs: seq<Observation>, o: Observation)
    ensures EntryFor(xs + [o], o.rowKey) == Add(EntryFor(xs, o.rowKey), o)
  {
    ProjectLast(xs, o);
    hide Project;
    var a, b := EntryFor(xs + [o], o.rowKey), Add(EntryFor(xs, o.rowKey), o);
    assert a.modes == b.modes;
    assert a.carriers == b.carriers;
    assert a.lanes == b.lanes;
    assert a.declarations == b.declarations;
    assert a.invocations == b.invocations;
  }

  lemma EntryStays(xs: seq<Observation>, o: Observation, key: string)
    requires o.rowKey != key
    ensures EntryFor(xs + [o], key) == EntryFor(xs, key)
  {
    ProjectLast(xs, o);
    hide Project;
    var a, b := EntryFor(xs + [o], key), EntryFor(xs, key);
    assert a.modes == b.modes;
    assert a.carriers == b.carriers;
    assert a.lanes == b.lanes;
    assert a.declarations == b.declarations;
    assert a.invocations == b.invocations;
  }

  lemma EntryUnseen(xs: seq<Observation>, key: string)
    requires forall o | o in xs :: o.rowKey != key
    ensures EntryFor(xs, key) == NOTHING
  {
    assert key !in Project(KeyOf, xs);
  }

  lemma MergedGrows(xs: seq<Observation>, o: Observation)
    ensures !Attributed(o) ==> Merged(xs + [o]) == Merged(xs)
    ensures Attributed(o) ==> Merged(xs + [o]) == Merged(xs)[o.rowKey := Add(Existing(Merged(xs), o.rowKey), o)]
  {
    hide EntryFor, Add;
    assert AttributedKeys(xs + [o]) == AttributedKeys(xs) + if Attributed(o) then {o.rowKey} else {};
    forall key | key in AttributedKeys(xs) && key != o.rowKey ensures EntryFor(xs + [o], key) == EntryFor(xs, key) {
      EntryStays(xs, o, key);
    }
    EntryGrows(xs, o);
    if o.rowKey !in AttributedKeys(xs) && Attributed(o) { EntryUnseen(xs, o.rowKey); }
  }

  /** `fdictMergeObservationsByRow` */
  method MergeObservations(observations: seq<Observation>) returns (merged: map<string, Entry>)
    ensures merged == Merged(observations)
  {
    hide EntryFor, Add, AttributedKeys;
    merged := map[];
    NoneMerged();
    for i := 0 to |observations|
      invariant merged == Merged(observations[..i])
    {
      var o := observations[i];
      assert observations[..i + 1] == observations[..i] + [o];
      MergedGrows(observations[..i], o);
      if o.rowKey == "" { continue; }
      merged := merged[o.rowKey := Add(Existing(merged, o.rowKey), o)];
    }
    assert observations[..|observations|] == observations;
  }

  lemma NoneMerged()
    ensures Merged([]) == map[]
  {
    assert AttributedKeys([]) == {};
  }

  lemma SameMembers(xs: seq<Observation>, ys: seq<Observation>)
    requires multiset(xs) == multiset(ys)
    ensures forall o :: o in xs <==> o in ys
  {
    assert forall o :: o in xs <==> o in multiset(xs);
  }

  /** The record does not depend on which observation arrived last. */
  lemma MergeIgnoresOrder(xs: seq<Observation>, ys: seq<Observation>)
    requires multiset(xs) == multiset(ys)
    ensures Merged(xs) == Merged(ys)
  {
    SameMembers(xs, ys);
    ProjectMultiset(KeyOf, xs, ys);
    hide Project;
    assert AttributedKeys(xs) == AttributedKeys(ys);
    forall key ensures EntryFor(xs, key) == EntryFor(ys, key) {
      var a, b := EntryFor(xs, key), EntryFor(ys, key);
      assert a.modes == b.modes;
      assert a.carriers == b.carriers;
      assert a.lanes == b.lanes;
      assert a.declarations == b.declarations;
      assert a.invocations == b.invocations;
    }
  }

  // ----- The counts -----

  function CountSum(merged: map<string, Entry>, keys: seq<string>): nat {
    if keys == [] then 0
    else CountSum(merged, keys[..|keys| - 1]) + if keys[|keys| - 1] in merged then merged[keys[|keys| - 1]].count else 0
  }

  /** How many observations have one of these keys. */
  function WithKey(observations: seq<Observation>, keys: set<string>): nat {
    if observations == [] then 0
    else WithKey(observations[..|observations| - 1], keys) + if observations[|observations| - 1].rowKey in keys then 1 else 0
  }

  function AttributedCount(observations: seq<Observation>): nat {
    if observations == [] then 0
    else AttributedCount(observations[..|observations| - 1]) + if Attributed(observations[|observations| - 1]) then 1 else 0
  }

  lemma {:induction false} OneKeyCount(xs: seq<Observation>, key: string)
    ensures WithKey(xs, {key}) == multiset(Project(KeyOf, xs))[key]
  {
    if xs != [] {
      var rest, o := xs[..|xs| - 1], xs[|xs| - 1];
      OneKeyCount(rest, key);
      ProjectLast(rest, o);
      assert rest + [o] == xs;
    }
  }

  lemma {:induction false} KeysAddUp(xs: seq<Observation>, keys: set<string>, key: string)
    requires key !in keys
    ensures WithKey(xs, keys + {key}) == WithKey(xs, keys) + WithKey(xs, {key})
  {
    if xs != [] { KeysAddUp(xs[..|xs| - 1], keys, key); }
  }

  lemma {:induction false} NoKeys(xs: seq<Observation>)
    ensures WithKey(xs, {}) == 0
  {
    if xs != [] { NoKeys(xs[..|xs| - 1]); }
  }

  lemma {:induction false} CountSumIs(xs: seq<Observation>, keys: seq<string>)
    requires Distinct(keys) && forall k | k in keys :: k in AttributedKeys(xs)
    ensures CountSum(Merged(xs), keys) == WithKey(xs, set k | k in keys)
  {
    hide Project, AttributedKeys;
    if keys == [] {
      assert (set k | k in keys) == {};
      NoKeys(xs);
    } else {
      var rest, key := keys[..|keys| - 1], keys[|keys| - 1];
      assert keys == rest + [key];
      CountSumIs(xs, rest);
      OneKeyCount(xs, key);
      KeysAddUp(xs, (set k | k in rest), key);
      assert (set k | k in keys) == (set k | k in rest) + {key};
    }
  }

  lemma {:induction false} AllAttributed(xs: seq<Observation>, keys: set<string>)
    requires forall o | o in xs :: o.rowKey in keys <==> Attributed(o)
    ensures WithKey(xs, keys) == AttributedCount(xs)
  {
    if xs != [] {
      assert xs[|xs| - 1] in xs;
      AllAttributed(xs[..|xs| - 1], keys);
    }
  }

  /** The counts of the merged rows sum to the number of attributed observations: none lost, none counted twice. */
  lemma CountsSumToAttributed(xs: seq<Observation>, keys: seq<string>)
    requires Distinct(keys) && forall k :: k in keys <==> k in Merged(xs)
    ensures CountSum(Merged(xs), keys) == AttributedCount(xs)
  {
    hide EntryFor, CountSum;
    CountSumIs(xs, keys);
    AllAttributed(xs, set k | k in keys);
  }

  // ----- Manual tracing -----

  datatype Pending = Pending(rowKey: string, fingerprint: string, seenUnattributed: bool)

  function SeenUnattributed(observations: seq<Observation>): set<string> {
    set o | o in observations && !Attributed(o) :: o.primitive
  }

  function PendingFor(rows: seq<Row>, observations: seq<Observation>): seq<Pending> {
    if rows == [] then []
    else
      var r := rows[|rows| - 1];
      PendingFor(rows[..|rows| - 1], observations) +
      if RowKey(r) in Merged(observations) then []
      else [Pending(RowKey(r), r.fingerprint, r.primitive in SeenUnattributed(observations))]
  }

  /** `flistSelectRowsForManualTracing`: the rows no merged entry exists for, in their order. */
  method SelectForTracing(rows: seq<Row>, observations: seq<Observation>) returns (pending: seq<Pending>)
    ensures pending == PendingFor(rows, observations)
  {
    hide RowKey, EntryFor;
    var attributed := set o | o in observations && o.rowKey != "" :: o.rowKey;
    assert attributed == Merged(observations).Keys;
    var seen := SeenUnattributed(observations);
    pending := [];
    for i := 0 to |rows|
      invariant pending == PendingFor(rows[..i], observations)
    {
      assert rows[..i + 1][..i] == rows[..i];
      var key := RowKey(rows[i]);
      if key in attributed { continue; }
      pending := pending + [Pending(key, rows[i].fingerprint, rows[i].primitive in seen)];
    }
    assert rows[..|rows|] == rows;
  }

  /** A row is pending exactly when no observation was attributed to it; its neighbours play no part. */
  lemma {:induction false} PendingExactly(rows: seq<Row>, observations: seq<Observation>, key: string)
    ensures (exists p | p in PendingFor(rows, observations) :: p.rowKey == key) <==>
      (exists r | r in rows :: RowKey(r) == key) && forall o | o in observations && Attributed(o) :: o.rowKey != key
  {
    hide RowKey, EntryFor;
    if rows != [] {
      var rest, r := rows[..|rows| - 1], rows[|rows| - 1];
      PendingExactly(rest, observations, key);
      assert rows == rest + [r];
      assert RowKey(r) in Merged(observations) <==> exists o | o in observations && Attributed(o) :: o.rowKey == RowKey(r);
      if RowKey(r) !in Merged(observations) {
        var p := Pending(RowKey(r), r.fingerprint, r.primitive in SeenUnattributed(observations));
        assert PendingFor(rows, observations) == PendingFor(rest, observations) + [p];
      }
    }
  }
}
