/** tools/generateMutationInventory.py: merging a scan with the record, and reporting drift. */
module InventoryDrift {
  import opened Numerals
  import opened Orders
  import opened Inventory
  import opened Records

  // ----- Merging -----

  function Get(review: map<string, Value>, field: string): Value {
    if field in review then review[field] else Scalar(UNCLASSIFIED)
  }

  /** The review a surviving row ends with: each reviewer field from the record, other fields its own. */
  function Carried(own: map<string, Value>, previous: map<string, Value>, fields: seq<string>): map<string, Value> {
    map f | f in own.Keys + (set g | g in fields) :: if f in fields then Get(previous, f) else own[f]
  }

  predicate Survives(row: Row, recorded: seq<Row>) {
    var previous := Lookup(RowKey, recorded, RowKey(row));
    previous.Some? && previous.value.fingerprint == row.fingerprint
  }

  /** One row of the built inventory. */
  function Merged(row: Row, recorded: seq<Row>): Row {
    if Survives(row, recorded) then
      row.(review := Carried(row.review, Lookup(RowKey, recorded, RowKey(row)).value.review, REVIEWER_FIELDS))
    else row
  }

  function Built(scanned: seq<Row>, recorded: seq<Row>): (r: seq<Row>)
    ensures |r| == |scanned|
  {
    seq(|scanned|, i requires 0 <= i < |scanned| => Merged(scanned[i], recorded))
  }

  lemma CarriedStep(own: map<string, Value>, previous: map<string, Value>, fields: seq<string>, i: nat)
    requires i < |fields|
    ensures Carried(own, previous, fields[..i + 1]) == Carried(own, previous, fields[..i])[fields[i] := Get(previous, fields[i])]
  {
    hide Get;
    assert fields[..i + 1] == fields[..i] + [fields[i]];
  }

  /** The inner loop of the merge: one reviewer field after the other. */
  method CarryReview(own: map<string, Value>, previous: map<string, Value>, fields: seq<string>)
    returns (review: map<string, Value>)
    ensures review == Carried(own, previous, fields)
  {
    review := own;
    assert Carried(own, previous, []) == own;
    hide Carried;
    for i := 0 to |fields|
      invariant review == Carried(own, previous, fields[..i])
    {
      CarriedStep(own, previous, fields, i);
      review := review[fields[i] := Get(previous, fields[i])];
    }
    assert fields[..|fields|] == fields;
  }

  /** `_fdictBuildInventory`: the scanned rows take the surviving reviews, in place. */
  method MergeReviews(rows: array<Row>, recorded: seq<Row>)
    modifies rows
    ensures rows[..] == Built(old(rows[..]), recorded)
  {
    ghost var before := rows[..];
    hide *;
    var index := IndexBy(RowKey, recorded);
    NoneMerged(before, recorded);
    for i := 0 to rows.Length
      invariant MergedUpTo(rows[..], before, recorded, i)
    {
      ghost var was := rows[..];
      var row := MergeRow(index, rows[i], recorded);
      rows[i] := row;
      assert rows[..] == was[i := row];
      OneMoreMerged(was, before, recorded, i, row);
    }
    AllMerged(rows[..], before, recorded);
  }

  /** The first `n` rows are merged, the others as they were. */
  ghost predicate MergedUpTo(rows: seq<Row>, before: seq<Row>, recorded: seq<Row>, n: nat) {
    && |rows| == |before|
    && (forall k | 0 <= k < n && k < |rows| :: rows[k] == Merged(before[k], recorded))
    && (forall k | n <= k < |rows| :: rows[k] == before[k])
  }

  lemma NoneMerged(before: seq<Row>, recorded: seq<Row>)
    ensures MergedUpTo(before, before, recorded, 0)
  {
  }

  lemma OneMoreMerged(was: seq<Row>, before: seq<Row>, recorded: seq<Row>, i: nat, row: Row)
    requires MergedUpTo(was, before, recorded, i) && i < |was| && row == Merged(was[i], recorded)
    ensures MergedUpTo(was[i := row], before, recorded, i + 1)
  {
    hide Merged;
  }

  method MergeRow(index: map<string, Row>, row: Row, ghost recorded: seq<Row>) returns (merged: Row)
    requires IsIndex(RowKey, index, recorded)
    ensures merged == Merged(row, recorded)
  {
    hide *;
    MergedBy(index, recorded, row);
    merged := row;
    if RowKey(row) in index && index[RowKey(row)].fingerprint == row.fingerprint {
      var review := CarryReview(row.review, index[RowKey(row)].review, REVIEWER_FIELDS);
      merged := row.(review := review);
    }
  }

  lemma MergedBy(index: map<string, Row>, recorded: seq<Row>, row: Row)
    requires IsIndex(RowKey, index, recorded)
    ensures Merged(row, recorded) ==
      if RowKey(row) in index && index[RowKey(row)].fingerprint == row.fingerprint
      then row.(review := Carried(row.review, index[RowKey(row)].review, REVIEWER_FIELDS)) else row
  {
    hide RowKey, Carried, Lookup;
    assert Lookup(RowKey, recorded, RowKey(row)) == if RowKey(row) in index then Some(index[RowKey(row)]) else None;
  }

  lemma AllMerged(after: seq<Row>, before: seq<Row>, recorded: seq<Row>)
    requires MergedUpTo(after, before, recorded, |after|)
    ensures after == Built(before, recorded)
  {
    hide Merged;
  }

  // ----- Drift -----

  datatype Drift = Drift(
    added: seq<string>, removed: seq<string>, duplicated: seq<string>,
    edited: seq<string>, altered: seq<(string, seq<string>)>, countMismatch: bool)

  predicate Clean(d: Drift) {
    d.added == [] && d.removed == [] && d.duplicated == [] && d.edited == [] && d.altered == [] && !d.countMismatch
  }

  /** The machine-derived fields on which a recorded row disagrees. */
  function Disagreeing(was: Row, now: Row): seq<string> {
    (if was.fingerprint != now.fingerprint then ["sFingerprint"] else [])
    + (if was.access != now.access then ["sAccess"] else [])
    + (if was.mutationCapable != now.mutationCapable then ["bMutationCapable"] else [])
    + (if was.insideGateway != now.insideGateway then ["bInsideGateway"] else [])
  }

  /** What each part of the drift report means. */
  ghost predicate Reports(d: Drift, recorded: seq<Row>, scanned: seq<Row>) {
    && InOrder(d.added) && InOrder(d.removed) && InOrder(d.duplicated) && InOrder(d.edited) && InOrder(AlteredKeys(d.altered))
    && (forall k :: k in d.added <==> OnlyIn(scanned, recorded, k))
    && (forall k :: k in d.removed <==> OnlyIn(recorded, scanned, k))
    && (forall k :: k in d.duplicated <==> Count(RowKey, recorded, k) > 1)
    && (forall k :: k in d.edited <==> IsEdited(recorded, scanned, k))
    && (forall p :: p in d.altered <==> IsAltered(recorded, scanned, p))
    && d.countMismatch == (|recorded| != |scanned|)
  }

  ghost predicate OnlyIn(here: seq<Row>, there: seq<Row>, k: string) {
    Lookup(RowKey, here, k).Some? && Lookup(RowKey, there, k).None?
  }

  ghost predicate IsEdited(recorded: seq<Row>, scanned: seq<Row>, k: string) {
    var was, now := Lookup(RowKey, recorded, k), Lookup(RowKey, scanned, k);
    was.Some? && now.Some? && was.value.fingerprint != now.value.fingerprint
  }

  ghost predicate IsAltered(recorded: seq<Row>, scanned: seq<Row>, p: (string, seq<string>)) {
    var was, now := Lookup(RowKey, recorded, p.0), Lookup(RowKey, scanned, p.0);
    was.Some? && now.Some? && IsAlteration(was.value, now.value, p.1)
  }

  predicate IsAlteration(was: Row, now: Row, fields: seq<string>) {
    was.fingerprint == now.fingerprint && fields != [] && fields == Disagreeing(was, now)
  }

  /** A reported alteration lists, in a fixed order, exactly the fields in which the row differs
      though its fingerprint does not. */
  lemma AlterationMeans(was: Row, now: Row, fields: seq<string>)
    requires IsAlteration(was, now, fields)
    ensures was.fingerprint == now.fingerprint && fields != []
    ensures forall name :: name in fields <==>
      (name == "sAccess" && was.access != now.access) ||
      (name == "bMutationCapable" && was.mutationCapable != now.mutationCapable) ||
      (name == "bInsideGateway" && was.insideGateway != now.insideGateway)
    ensures forall i, j | 0 <= i < j < |fields| :: Place(fields[i]) < Place(fields[j])
  {
  }

  function Place(name: string): nat {
    if name == "sAccess" then 0 else if name == "bMutationCapable" then 1 else 2
  }

  function AlteredKeys(altered: seq<(string, seq<string>)>): (r: seq<string>)
    ensures |r| == |altered| && forall i | 0 <= i < |altered| :: r[i] == altered[i].0
  {
    seq(|altered|, i requires 0 <= i < |altered| => altered[i].0)
  }

  ghost predicate Altered(altered: seq<(string, seq<string>)>, keys: seq<string>, was: map<string, Row>, now: map<string, Row>)
    requires forall k | k in keys :: k in was && k in now
  {
    InOrder(AlteredKeys(altered)) && forall p :: p in altered <==> p.0 in keys && IsAlteration(was[p.0], now[p.0], p.1)
  }

  ghost predicate Edited(edited: seq<string>, keys: seq<string>, was: map<string, Row>, now: map<string, Row>)
    requires forall k | k in keys :: k in was && k in now
  {
    InOrder(edited) && forall k :: k in edited <==> k in keys && was[k].fingerprint != now[k].fingerprint
  }

  /** The loop over the common keys: a changed fingerprint hides the other disagreements. */
  method CompareCommon(keys: seq<string>, was: map<string, Row>, now: map<string, Row>)
    returns (edited: seq<string>, altered: seq<(string, seq<string>)>)
    requires InOrder(keys)
    requires forall k | k in keys :: k in was && k in now
    ensures Edited(edited, keys, was, now) && Altered(altered, keys, was, now)
  {
    hide StringLe, Disagreeing, InOrder;
    edited, altered := [], [];
    NothingInOrder();
    for i := 0 to |keys|
      invariant Edited(edited, keys[..i], was, now)
      invariant Altered(altered, keys[..i], was, now)
    {
      var k := keys[i];
      assert keys[..i + 1] == keys[..i] + [k];
      FreshKey(keys, i);
      if was[k].fingerprint != now[k].fingerprint {
        StaysInOrder(edited, keys, i);
        edited := edited + [k];
      } else {
        var disagreeing := Disagreeing(was[k], now[k]);
        if disagreeing != [] {
          AlteredInOrder(altered, keys, i, disagreeing);
          altered := altered + [(k, disagreeing)];
        }
      }
    }
    assert keys[..|keys|] == keys;
  }

  lemma NothingInOrder()
    ensures InOrder([]) && AlteredKeys([]) == []
  {
  }

  lemma AlteredInOrder(altered: seq<(string, seq<string>)>, keys: seq<string>, i: nat, fields: seq<string>)
    requires InOrder(AlteredKeys(altered)) && InOrder(keys) && i < |keys|
    requires forall p | p in altered :: p.0 in keys[..i]
    ensures InOrder(AlteredKeys(altered + [(keys[i], fields)]))
  {
    hide InOrder;
    assert AlteredKeys(altered + [(keys[i], fields)]) == AlteredKeys(altered) + [keys[i]];
    forall k | k in AlteredKeys(altered) ensures k in keys[..i] {
      var j :| 0 <= j < |altered| && AlteredKeys(altered)[j] == k;
      assert altered[j] in altered;
    }
    StaysInOrder(AlteredKeys(altered), keys, i);
  }

  lemma FreshKey(keys: seq<string>, i: nat)
    requires i < |keys| && InOrder(keys)
    ensures keys[i] !in keys[..i]
  {
  }

  lemma AppendSorted<T, K(!new)>(key: T -> K, le: (K, K) -> bool, xs: seq<T>, ys: seq<T>, i: nat)
    requires SortedOn(key, le, xs) && SortedOn(key, le, ys) && i < |ys|
    requires forall x | x in xs :: x in ys[..i]
    ensures SortedOn(key, le, xs + [ys[i]])
  {
    forall a, b | 0 <= a < b < |xs| + 1 ensures le(key((xs + [ys[i]])[a]), key((xs + [ys[i]])[b])) {
      assert xs[a] in ys[..i];
      var j :| 0 <= j < i && ys[j] == xs[a];
    }
  }

  lemma StaysInOrder(edited: seq<string>, keys: seq<string>, i: nat)
    requires InOrder(edited) && InOrder(keys) && i < |keys|
    requires forall k | k in edited :: k in keys[..i]
    ensures InOrder(edited + [keys[i]])
  {
    hide StringLe, SortedOn;
    AppendSorted(Self, StringLe, edited, keys, i);
    FreshKey(keys, i);
    DistinctAppend(edited, keys[i]);
  }

  lemma DistinctAppend<T>(xs: seq<T>, x: T)
    requires Distinct(xs) && x !in xs
    ensures Distinct(xs + [x])
  {
  }

  /** `fdictCompareAgainstSource`, the row part. */
  method CompareRows(recorded: seq<Row>, scanned: seq<Row>) returns (d: Drift)
    ensures Reports(d, recorded, scanned)
  {
    hide *;
    var was := IndexBy(RowKey, recorded);
    var now := IndexBy(RowKey, scanned);
    var duplicated := DuplicatedKeys(RowKey, recorded);
    var common := SortedKeys(was.Keys * now.Keys);
    var edited, altered := CompareCommon(common, was, now);
    var added := SortedKeys(now.Keys - was.Keys);
    var removed := SortedKeys(was.Keys - now.Keys);
    d := Drift(added, removed, duplicated, edited, altered, |recorded| != |scanned|);
    MapsGiveReport(d, common, was, now, recorded, scanned);
  }

  lemma MapsGiveReport(d: Drift, common: seq<string>, was: map<string, Row>, now: map<string, Row>, recorded: seq<Row>, scanned: seq<Row>)
    requires IsIndex(RowKey, was, recorded) && IsIndex(RowKey, now, scanned)
    requires InOrder(d.added) && InOrder(d.removed) && InOrder(d.duplicated)
    requires forall k :: k in common <==> k in was.Keys * now.Keys
    requires Edited(d.edited, common, was, now) && Altered(d.altered, common, was, now)
    requires forall k :: k in d.added <==> k in now.Keys - was.Keys
    requires forall k :: k in d.removed <==> k in was.Keys - now.Keys
    requires forall k :: k in d.duplicated <==> Count(RowKey, recorded, k) > 1
    requires d.countMismatch == (|recorded| != |scanned|)
    ensures Reports(d, recorded, scanned)
  {
    hide OnlyIn, Edited, Altered, IsEdited, IsAltered, InOrder, IsIndex, Count, Lookup, RowKey;
    forall k ensures OnlyIn(scanned, recorded, k) <==> k in now.Keys - was.Keys { IndexOnly(now, was, scanned, recorded, k); }
    forall k ensures OnlyIn(recorded, scanned, k) <==> k in was.Keys - now.Keys { IndexOnly(was, now, recorded, scanned, k); }
    EditedReport(d, common, was, now, recorded, scanned);
    AlteredReport(d, common, was, now, recorded, scanned);
  }

  lemma IndexOnly(here: map<string, Row>, there: map<string, Row>, rows: seq<Row>, others: seq<Row>, k: string)
    requires IsIndex(RowKey, here, rows) && IsIndex(RowKey, there, others)
    ensures OnlyIn(rows, others, k) <==> k in here.Keys - there.Keys
  {
    hide RowKey, Lookup;
  }

  lemma EditedReport(d: Drift, common: seq<string>, was: map<string, Row>, now: map<string, Row>, recorded: seq<Row>, scanned: seq<Row>)
    requires IsIndex(RowKey, was, recorded) && IsIndex(RowKey, now, scanned)
    requires forall k :: k in common <==> k in was.Keys * now.Keys
    requires Edited(d.edited, common, was, now)
    ensures InOrder(d.edited) && forall k :: k in d.edited <==> IsEdited(recorded, scanned, k)
  {
    hide RowKey, Lookup, InOrder;
  }

  lemma AlteredReport(d: Drift, common: seq<string>, was: map<string, Row>, now: map<string, Row>, recorded: seq<Row>, scanned: seq<Row>)
    requires IsIndex(RowKey, was, recorded) && IsIndex(RowKey, now, scanned)
    requires forall k :: k in common <==> k in was.Keys * now.Keys
    requires Altered(d.altered, common, was, now)
    ensures forall p :: p in d.altered <==> IsAltered(recorded, scanned, p)
    ensures InOrder(AlteredKeys(d.altered))
  {
    hide RowKey, Lookup, IsAlteration, InOrder;
  }

  // ----- What a clean report means -----

  /** The machine-derived part of a row. */
  function MachineFields(r: Row): (string, Option<string>, Option<bool>, Option<bool>) {
    (r.fingerprint, r.access, r.mutationCapable, r.insideGateway)
  }

  lemma CleanIsAgreement(d: Drift, recorded: seq<Row>, scanned: seq<Row>)
    requires Reports(d, recorded, scanned) && UniqueKeys(RowKey, scanned)
    ensures Clean(d) <==> Agrees(RowKey, MachineFields, recorded, scanned)
  {
    hide RowKey, Lookup, UniqueKeys, SortedOn;
    if Clean(d) {
      forall k ensures Lookup(RowKey, recorded, k).Some? <==> Lookup(RowKey, scanned, k).Some? {
        assert k !in d.added && k !in d.removed;
      }
      forall k ensures Count(RowKey, recorded, k) <= 1 { assert k !in d.duplicated; }
      forall k ensures SameFace(RowKey, MachineFields, recorded, scanned, k) {
        assert k !in d.edited;
        NotAltered(d, recorded, scanned, k);
      }
    }
    if Agrees(RowKey, MachineFields, recorded, scanned) {
      AgreementFixesLength(RowKey, MachineFields, recorded, scanned);
      Silent(d, recorded, scanned);
    }
  }

  lemma NotAltered(d: Drift, recorded: seq<Row>, scanned: seq<Row>, k: string)
    requires Reports(d, recorded, scanned) && d.altered == [] && d.edited == []
    ensures SameFace(RowKey, MachineFields, recorded, scanned, k)
  {
    hide RowKey, Lookup, InOrder;
    var was, now := Lookup(RowKey, recorded, k), Lookup(RowKey, scanned, k);
    if was.Some? && now.Some? {
      assert k !in d.edited;
      assert (k, Disagreeing(was.value, now.value)) !in d.altered;
    }
  }

  lemma NothingListed<T>(xs: seq<T>)
    requires forall x :: x !in xs
    ensures xs == []
  {
    HeadIsListed(xs);
  }

  lemma HeadIsListed<T>(xs: seq<T>)
    ensures xs == [] || xs[0] in xs
  {
  }

  lemma Silent(d: Drift, recorded: seq<Row>, scanned: seq<Row>)
    requires Reports(d, recorded, scanned) && |recorded| == |scanned|
    requires Agrees(RowKey, MachineFields, recorded, scanned)
    ensures Clean(d)
  {
    hide RowKey, Lookup, InOrder;
    forall k ensures !IsEdited(recorded, scanned, k) { assert SameFace(RowKey, MachineFields, recorded, scanned, k); }
    forall p ensures !IsAltered(recorded, scanned, p) { assert SameFace(RowKey, MachineFields, recorded, scanned, p.0); }
    NothingListed(d.added);
    NothingListed(d.removed);
    NothingListed(d.duplicated);
    assert forall k :: k !in d.edited;
    NothingListed(d.edited);
    assert forall p :: p !in d.altered;
    NothingListed(d.altered);
  }

  /** No drift is reported exactly when record and scan agree row for row on the machine-derived fields. */
  lemma CleanExactlyWhenRowsAgree(d: Drift, recorded: seq<Row>, rows: seq<Row>)
    requires forall r | r in rows :: KeyFields(r)
    requires Reports(d, recorded, NumberOrdinals(rows))
    ensures Clean(d) <==>
      multiset(Faces(RowKey, MachineFields, recorded)) == multiset(Faces(RowKey, MachineFields, NumberOrdinals(rows)))
  {
    hide *;
    NumberedAreUnique(rows);
    CleanIsAgreement(d, recorded, NumberOrdinals(rows));
    SilenceIsAgreement(RowKey, MachineFields, recorded, NumberOrdinals(rows));
  }

  lemma NumberedAreUnique(rows: seq<Row>)
    requires forall r | r in rows :: KeyFields(r)
    ensures UniqueKeys(RowKey, NumberOrdinals(rows))
  {
    hide RowKey, NumberOrdinals;
    NumberedKeysDiffer(rows);
  }

  lemma BuiltFaces(scanned: seq<Row>, recorded: seq<Row>)
    ensures Faces(RowKey, MachineFields, Built(scanned, recorded)) == Faces(RowKey, MachineFields, scanned)
  {
    hide Lookup, Carried;
    assert forall i | 0 <= i < |scanned| :: RowKey(Built(scanned, recorded)[i]) == RowKey(scanned[i]);
  }

  /** An inventory built from a scan and any earlier record compares clean with that scan. */
  lemma FreshBuildIsClean(d: Drift, rows: seq<Row>, recorded: seq<Row>)
    requires forall r | r in rows :: KeyFields(r)
    requires Reports(d, Built(NumberOrdinals(rows), recorded), NumberOrdinals(rows))
    ensures Clean(d)
  {
    hide *;
    BuiltFaces(NumberOrdinals(rows), recorded);
    CleanExactlyWhenRowsAgree(d, Built(NumberOrdinals(rows), recorded), rows);
  }

  // ----- Reviews -----

  /** A row as the scanner leaves it: every reviewer field is the sentinel. */
  predicate Unreviewed(r: Row) {
    forall f | f in REVIEWER_FIELDS :: f in r.review && (r.review[f] == Scalar(UNCLASSIFIED) || r.review[f] == Several([UNCLASSIFIED]))
  }

  /** A recorded row with a complete review that says something. */
  predicate Reviewed(r: Row) {
    && (forall f | f in REVIEWER_FIELDS :: f in r.review)
    && exists f | f in REVIEWER_FIELDS :: r.review[f] != Scalar(UNCLASSIFIED) && r.review[f] != Several([UNCLASSIFIED])
  }

  ghost predicate Keeps(rows: seq<Row>, p: Row) {
    exists b | b in rows :: RowKey(b) == RowKey(p) && SameReview(b, p)
  }

  predicate SameReview(b: Row, p: Row) {
    forall f | f in REVIEWER_FIELDS :: f in b.review && f in p.review && b.review[f] == p.review[f]
  }

  ghost predicate Unchanged(scanned: seq<Row>, p: Row) {
    exists r | r in scanned :: RowKey(r) == RowKey(p) && r.fingerprint == p.fingerprint
  }

  /** A recorded review is in the rebuilt inventory exactly when its site is still there unchanged. */
  lemma ReviewSurvivesExactly(scanned: seq<Row>, recorded: seq<Row>, p: Row)
    requires UniqueKeys(RowKey, recorded) && p in recorded && Reviewed(p)
    requires forall r | r in scanned :: Unreviewed(r)
    ensures Keeps(Built(scanned, recorded), p) <==> Unchanged(scanned, p)
  {
    hide RowKey, Lookup, Reviewed, Unreviewed;
    var i :| 0 <= i < |recorded| && recorded[i] == p;
    LookupUnique(RowKey, recorded, i);
    if Unchanged(scanned, p) {
      var r :| r in scanned && RowKey(r) == RowKey(p) && r.fingerprint == p.fingerprint;
      var j :| 0 <= j < |scanned| && scanned[j] == r;
      CarriedReview(r, recorded, p);
      assert Built(scanned, recorded)[j] == Merged(r, recorded);
    }
    if Keeps(Built(scanned, recorded), p) {
      var b :| b in Built(scanned, recorded) && RowKey(b) == RowKey(p) && SameReview(b, p);
      var j :| 0 <= j < |scanned| && Built(scanned, recorded)[j] == b;
      MergedKeepsKey(scanned[j], recorded);
      if !Survives(scanned[j], recorded) { FreshSaysNothing(scanned[j], p); }
      assert RowKey(scanned[j]) == RowKey(p) && scanned[j].fingerprint == p.fingerprint;
    }
  }

  lemma MergedKeepsKey(r: Row, recorded: seq<Row>)
    ensures RowKey(Merged(r, recorded)) == RowKey(r)
  {
  }

  lemma CarriedReview(r: Row, recorded: seq<Row>, p: Row)
    requires Lookup(RowKey, recorded, RowKey(r)) == Some(p) && p.fingerprint == r.fingerprint && Reviewed(p)
    ensures RowKey(Merged(r, recorded)) == RowKey(r) && SameReview(Merged(r, recorded), p)
  {
    hide Lookup;
  }

  lemma FreshSaysNothing(r: Row, p: Row)
    requires Unreviewed(r) && Reviewed(p)
    ensures !SameReview(r, p)
  {
  }

  /** Building again from the same scan changes nothing. */
  lemma RebuildIsIdempotent(scanned: seq<Row>, recorded: seq<Row>)
    requires UniqueKeys(RowKey, scanned)
    requires forall r | r in scanned :: Unreviewed(r)
    ensures Built(scanned, Built(scanned, recorded)) == Built(scanned, recorded)
  {
    hide RowKey, Lookup, Carried, Unreviewed;
    var built := Built(scanned, recorded);
    forall i | 0 <= i < |built| ensures RowKey(built[i]) == RowKey(scanned[i]) { MergedKeepsKey(scanned[i], recorded); }
    forall i | 0 <= i < |built| ensures Built(scanned, built)[i] == built[i] {
      LookupUnique(RowKey, built, i);
      MergeTwice(scanned[i], recorded, built);
    }
  }

  lemma MergeTwice(r: Row, recorded: seq<Row>, built: seq<Row>)
    requires Unreviewed(r) && Lookup(RowKey, built, RowKey(r)) == Some(Merged(r, recorded))
    ensures Merged(r, built) == Merged(r, recorded)
  {
    hide RowKey, Lookup;
    var b := Merged(r, recorded);
    assert forall f | f in REVIEWER_FIELDS :: f in b.review;
    assert Carried(r.review, b.review, REVIEWER_FIELDS) == b.review;
  }

  // ----- Blind spots and acquisitions -----

  /** A declared-unreadable site or an acquisition; a recorded one may lack its scope fingerprint. */
  datatype Site = Site(file: string, function_: string, kind: string, ordinal: nat,
    fingerprint: Option<string>, scopeFingerprint: Option<string>)

  function SiteKey(s: Site): string { s.file + "|" + (s.function_ + "|" + (s.kind + "|" + Decimal(s.ordinal))) }

  function SiteFields(s: Site): (Option<string>, Option<string>) { (s.fingerprint, s.scopeFingerprint) }

  datatype SiteMessage = SiteAdded(key: string) | SiteRemoved(key: string) | SiteDuplicated(key: string)
    | SiteEdited(key: string) | SiteCountDiffers

  ghost predicate SiteSays(m: SiteMessage, recorded: seq<Site>, scanned: seq<Site>) {
    match m
    case SiteAdded(k) => Lookup(SiteKey, scanned, k).Some? && Lookup(SiteKey, recorded, k).None?
    case SiteRemoved(k) => Lookup(SiteKey, recorded, k).Some? && Lookup(SiteKey, scanned, k).None?
    case SiteDuplicated(k) => Count(SiteKey, recorded, k) > 1
    case SiteEdited(k) => !SameFace(SiteKey, SiteFields, recorded, scanned, k)
    case SiteCountDiffers => |recorded| != |(set s | s in scanned :: SiteKey(s))|
  }

  lemma {:induction false} KeyCount(scanned: seq<Site>)
    requires UniqueKeys(SiteKey, scanned)
    ensures |(set s | s in scanned :: SiteKey(s))| == |scanned|
  {
    hide SiteKey;
    if scanned == [] {
      assert (set s | s in scanned :: SiteKey(s)) == {};
    } else {
      var rest := scanned[..|scanned| - 1];
      KeyCount(rest);
      var keys := set s | s in rest :: SiteKey(s);
      assert scanned == rest + [scanned[|scanned| - 1]];
      assert (set s | s in scanned :: SiteKey(s)) == keys + {SiteKey(scanned[|scanned| - 1])};
    }
  }

  function MessagesFor(say: string -> SiteMessage, keys: seq<string>): (r: seq<SiteMessage>)
    ensures forall m :: m in r <==> exists k | k in keys :: m == say(k)
  {
    if keys == [] then []
    else
      assert keys == [keys[0]] + keys[1..];
      [say(keys[0])] + MessagesFor(say, keys[1..])
  }

  /** `_flistBlindSpotDrift`, and `_flistAcquisitionDrift` with its own key: the same steps on the same fields. */
  method SiteDrift(recorded: seq<Site>, scanned: seq<Site>) returns (drift: seq<SiteMessage>)
    ensures forall m :: m in drift <==> SiteSays(m, recorded, scanned)
  {
    hide SiteKey, SiteFields, Lookup, Count, InOrder, SiteSays, IsIndex, MessagesFor;
    var was := IndexBy(SiteKey, recorded);
    var now := IndexBy(SiteKey, scanned);
    var added := SortedKeys(now.Keys - was.Keys);
    var removed := SortedKeys(was.Keys - now.Keys);
    var duplicated := DuplicatedKeys(SiteKey, recorded);
    drift := MessagesFor(k => SiteAdded(k), added) + MessagesFor(k => SiteRemoved(k), removed)
      + MessagesFor(k => SiteDuplicated(k), duplicated);
    if |recorded| != |now| { drift := drift + [SiteCountDiffers]; }
    var common := SortedKeys(was.Keys * now.Keys);
    var edited := EditedSites(common, was, now);
    drift := drift + MessagesFor(k => SiteEdited(k), edited);
    SiteKeyCount(scanned, now);
    forall m ensures m in drift <==> SiteSays(m, recorded, scanned) {
      SiteMessageMeaning(m, was, now, recorded, scanned);
    }
  }

  method EditedSites(common: seq<string>, was: map<string, Site>, now: map<string, Site>) returns (edited: seq<string>)
    requires forall k | k in common :: k in was && k in now
    ensures forall k :: k in edited <==> k in common && SiteFields(was[k]) != SiteFields(now[k])
  {
    edited := [];
    for i := 0 to |common|
      invariant forall k :: k in edited <==> k in common[..i] && SiteFields(was[k]) != SiteFields(now[k])
    {
      assert common[..i + 1] == common[..i] + [common[i]];
      if SiteFields(was[common[i]]) != SiteFields(now[common[i]]) { edited := edited + [common[i]]; }
    }
    assert common[..|common|] == common;
  }

  ghost predicate MapsSay(m: SiteMessage, was: map<string, Site>, now: map<string, Site>, recorded: seq<Site>) {
    match m
    case SiteAdded(k) => k in now.Keys - was.Keys
    case SiteRemoved(k) => k in was.Keys - now.Keys
    case SiteDuplicated(k) => Count(SiteKey, recorded, k) > 1
    case SiteEdited(k) => k in was.Keys * now.Keys && SiteFields(was[k]) != SiteFields(now[k])
    case SiteCountDiffers => |recorded| != |now|
  }

  /** What one message means, read off the two dictionaries. */
  lemma SiteMessageMeaning(m: SiteMessage, was: map<string, Site>, now: map<string, Site>, recorded: seq<Site>, scanned: seq<Site>)
    requires IsIndex(SiteKey, was, recorded) && IsIndex(SiteKey, now, scanned)
    requires |now| == |(set s | s in scanned :: SiteKey(s))|
    ensures SiteSays(m, recorded, scanned) == MapsSay(m, was, now, recorded)
  {
    hide SiteKey, Lookup, Count;
  }

  lemma SiteKeyCount(scanned: seq<Site>, now: map<string, Site>)
    requires IsIndex(SiteKey, now, scanned)
    ensures |now| == |(set s | s in scanned :: SiteKey(s))|
  {
    hide SiteKey, Lookup;
    forall k ensures k in now <==> exists s | s in scanned :: SiteKey(s) == k {
      assert Lookup(SiteKey, scanned, k).None? <==> k !in now;
    }
    assert now.Keys == set s | s in scanned :: SiteKey(s);
  }

  /** The site check has nothing to say exactly when both lists hold the same keys and fingerprints. */
  lemma SiteSilenceIsAgreement(recorded: seq<Site>, scanned: seq<Site>)
    requires UniqueKeys(SiteKey, scanned)
    ensures (forall m :: !SiteSays(m, recorded, scanned)) <==>
      multiset(Faces(SiteKey, SiteFields, recorded)) == multiset(Faces(SiteKey, SiteFields, scanned))
  {
    hide SiteKey, Lookup, UniqueKeys, Faces, Count;
    SilenceIsAgreement(SiteKey, SiteFields, recorded, scanned);
    KeyCount(scanned);
    if forall m :: !SiteSays(m, recorded, scanned) {
      forall k ensures Lookup(SiteKey, recorded, k).Some? <==> Lookup(SiteKey, scanned, k).Some? {
        assert !SiteSays(SiteAdded(k), recorded, scanned) && !SiteSays(SiteRemoved(k), recorded, scanned);
      }
      forall k ensures Count(SiteKey, recorded, k) <= 1 { assert !SiteSays(SiteDuplicated(k), recorded, scanned); }
      forall k ensures SameFace(SiteKey, SiteFields, recorded, scanned, k) { assert !SiteSays(SiteEdited(k), recorded, scanned); }
    }
    if Agrees(SiteKey, SiteFields, recorded, scanned) {
      AgreementFixesLength(SiteKey, SiteFields, recorded, scanned);
    }
  }
}
