/** Comparing a recorded list with a rescanned one, both read as dictionaries by key. */
module Records {
  import opened Numerals
  import opened Orders

  /** `{key(row): row for row in rows}.get(k)`: the last row with the key. */
  function Lookup<T>(key: T -> string, rows: seq<T>, k: string): (r: Option<T>)
    ensures r.Some? ==> r.value in rows && key(r.value) == k
    ensures r.None? <==> forall x | x in rows :: key(x) != k
  {
    if rows == [] then None
    else if key(rows[|rows| - 1]) == k then Some(rows[|rows| - 1])
    else
      assert rows == rows[..|rows| - 1] + [rows[|rows| - 1]];
      Lookup(key, rows[..|rows| - 1], k)
  }

  ghost predicate UniqueKeys<T>(key: T -> string, rows: seq<T>) {
    forall i, j | 0 <= i < j < |rows| :: key(rows[i]) != key(rows[j])
  }

  lemma LookupUnique<T>(key: T -> string, rows: seq<T>, i: nat)
    requires i < |rows| && UniqueKeys(key, rows)
    ensures Lookup(key, rows, key(rows[i])) == Some(rows[i])
  {
    var found := Lookup(key, rows, key(rows[i]));
    assert rows[i] in rows;
    assert found.Some?;
    var j :| 0 <= j < |rows| && rows[j] == found.value;
  }

  function Count<T>(key: T -> string, rows: seq<T>, k: string): nat {
    if rows == [] then 0
    else Count(key, rows[..|rows| - 1], k) + if key(rows[|rows| - 1]) == k then 1 else 0
  }

  lemma {:induction false} CountUpTo<T>(key: T -> string, rows: seq<T>, k: string, n: nat)
    requires n <= |rows|
    ensures Count(key, rows[..n], k) <= Count(key, rows, k)
    decreases |rows| - n
  {
    if n < |rows| {
      CountUpTo(key, rows, k, n + 1);
      assert rows[..n + 1][..n] == rows[..n];
    } else {
      assert rows[..n] == rows;
    }
  }

  lemma CountStep<T>(key: T -> string, rows: seq<T>, k: string, n: nat)
    requires n < |rows|
    ensures Count(key, rows[..n + 1], k) == Count(key, rows[..n], k) + if key(rows[n]) == k then 1 else 0
  {
    assert rows[..n + 1][..n] == rows[..n];
  }

  lemma {:induction false} CountPositive<T>(key: T -> string, rows: seq<T>, k: string)
    ensures Count(key, rows, k) > 0 <==> Lookup(key, rows, k).Some?
  {
    if rows != [] {
      CountPositive(key, rows[..|rows| - 1], k);
    }
  }

  lemma {:induction false} RepeatedKey<T>(key: T -> string, rows: seq<T>, k: string) returns (i: nat, j: nat)
    requires Count(key, rows, k) > 1
    ensures i < j < |rows| && key(rows[i]) == key(rows[j]) == k
  {
    var rest := rows[..|rows| - 1];
    if key(rows[|rows| - 1]) == k {
      CountPositive(key, rest, k);
      var x := Lookup(key, rest, k).value;
      i :| 0 <= i < |rest| && rest[i] == x;
      j := |rest|;
    } else {
      i, j := RepeatedKey(key, rest, k);
    }
  }

  /** No key is counted twice exactly when the keys are pairwise different. */
  lemma NothingRepeated<T>(key: T -> string, rows: seq<T>)
    ensures (forall k :: Count(key, rows, k) <= 1) <==> UniqueKeys(key, rows)
  {
    if !(forall k :: Count(key, rows, k) <= 1) {
      var k :| Count(key, rows, k) > 1;
      var i, j := RepeatedKey(key, rows, k);
    }
    forall i, j | 0 <= i < j < |rows| && key(rows[i]) == key(rows[j]) ensures Count(key, rows, key(rows[i])) > 1 {
      var k := key(rows[i]);
      CountStep(key, rows, k, i);
      CountUpTo(key, rows[..j], k, i + 1);
      assert rows[..j][..i + 1] == rows[..i + 1];
      CountStep(key, rows, k, j);
      CountUpTo(key, rows, k, j + 1);
    }
  }

  // ----- Agreement -----

  /** The comparison finds nothing: same keys, none repeated in the record, same faces under each key. */
  ghost predicate Agrees<T, F>(key: T -> string, face: T -> F, recorded: seq<T>, scanned: seq<T>) {
    && (forall k :: Lookup(key, recorded, k).Some? <==> Lookup(key, scanned, k).Some?)
    && (forall k :: Count(key, recorded, k) <= 1)
    && (forall k :: SameFace(key, face, recorded, scanned, k))
  }

  ghost predicate SameFace<T, F>(key: T -> string, face: T -> F, recorded: seq<T>, scanned: seq<T>, k: string) {
    var was, now := Lookup(key, recorded, k), Lookup(key, scanned, k);
    was.Some? && now.Some? ==> face(was.value) == face(now.value)
  }

  /** Key and face of one row. */
  ghost function Sides<T, F>(key: T -> string, face: T -> F): (T -> (string, F)) {
    x => (key(x), face(x))
  }

  ghost function Faces<T, F>(key: T -> string, face: T -> F, rows: seq<T>): (r: seq<(string, F)>)
    ensures |r| == |rows|
    ensures forall i | 0 <= i < |rows| :: r[i] == (key(rows[i]), face(rows[i]))
  {
    Project(Sides(key, face), rows)
  }

  lemma FacesCover<T, F>(key: T -> string, face: T -> F, xs: seq<T>, ys: seq<T>)
    requires UniqueKeys(key, xs) && UniqueKeys(key, ys) && Agrees(key, face, xs, ys)
    ensures forall p :: p in Faces(key, face, xs) ==> p in Faces(key, face, ys)
    ensures forall p :: p in Faces(key, face, ys) ==> p in Faces(key, face, xs)
  {
    hide Lookup, Count;
    forall p | p in Faces(key, face, xs) ensures p in Faces(key, face, ys) {
      var i :| 0 <= i < |xs| && Faces(key, face, xs)[i] == p;
      LookupUnique(key, xs, i);
      FaceFound(key, face, xs, ys, p.0);
    }
    forall p | p in Faces(key, face, ys) ensures p in Faces(key, face, xs) {
      var i :| 0 <= i < |ys| && Faces(key, face, ys)[i] == p;
      LookupUnique(key, ys, i);
      FaceFound(key, face, xs, ys, p.0);
    }
  }

  lemma FaceFound<T, F>(key: T -> string, face: T -> F, xs: seq<T>, ys: seq<T>, k: string)
    requires Lookup(key, xs, k).Some? && Lookup(key, ys, k).Some? && SameFace(key, face, xs, ys, k)
    ensures (k, face(Lookup(key, xs, k).value)) in Faces(key, face, ys)
    ensures (k, face(Lookup(key, ys, k).value)) in Faces(key, face, xs)
  {
    hide Lookup, Faces;
    var x, y := Lookup(key, xs, k).value, Lookup(key, ys, k).value;
    var i :| 0 <= i < |xs| && xs[i] == x;
    var j :| 0 <= j < |ys| && ys[j] == y;
    assert Faces(key, face, xs)[i] == (k, face(x)) && Faces(key, face, ys)[j] == (k, face(y));
  }

  lemma DistinctFaces<T, F>(key: T -> string, face: T -> F, rows: seq<T>)
    requires UniqueKeys(key, rows)
    ensures Distinct(Faces(key, face, rows))
  {
    hide Faces;
  }

  lemma FirstOfFaces<T, F>(key: T -> string, face: T -> F, rows: seq<T>)
    ensures Project((p: (string, F)) => p.0, Faces(key, face, rows)) == Project(key, rows)
  {
  }

  lemma UniqueIsDistinct<T>(key: T -> string, rows: seq<T>)
    ensures UniqueKeys(key, rows) <==> Distinct(Project(key, rows))
  {
    var keys := Project(key, rows);
    if Distinct(keys) {
      forall i, j | 0 <= i < j < |rows| ensures key(rows[i]) != key(rows[j]) { assert keys[i] != keys[j]; }
    }
  }

  lemma UniqueAcross<T, F>(key: T -> string, face: T -> F, xs: seq<T>, ys: seq<T>)
    requires UniqueKeys(key, ys)
    requires multiset(Faces(key, face, xs)) == multiset(Faces(key, face, ys))
    ensures UniqueKeys(key, xs)
  {
    hide Faces, Distinct, UniqueKeys;
    var first := (p: (string, F)) => p.0;
    ProjectMultiset(first, Faces(key, face, ys), Faces(key, face, xs));
    FirstOfFaces(key, face, xs);
    FirstOfFaces(key, face, ys);
    UniqueIsDistinct(key, ys);
    DistinctFromMultiset(Project(key, ys), Project(key, xs));
    UniqueIsDistinct(key, xs);
  }

  /** Equal faces in bulk give, for a row found in one list, its counterpart in the other. */
  lemma FaceAcross<T, F>(key: T -> string, face: T -> F, xs: seq<T>, ys: seq<T>, k: string)
    requires UniqueKeys(key, ys) && Lookup(key, xs, k).Some?
    requires multiset(Faces(key, face, xs)) == multiset(Faces(key, face, ys))
    ensures Lookup(key, ys, k).Some? && face(Lookup(key, ys, k).value) == face(Lookup(key, xs, k).value)
  {
    hide Lookup, Faces;
    var x := Lookup(key, xs, k).value;
    var i :| 0 <= i < |xs| && xs[i] == x;
    InSameMultiset(Faces(key, face, xs), Faces(key, face, ys), Faces(key, face, xs)[i]);
    var j :| 0 <= j < |ys| && Faces(key, face, ys)[j] == (k, face(x));
    LookupUnique(key, ys, j);
  }

  /** The comparison is silent exactly when record and scan hold the same faces, each as often. */
  lemma SilenceIsAgreement<T, F>(key: T -> string, face: T -> F, recorded: seq<T>, scanned: seq<T>)
    requires UniqueKeys(key, scanned)
    ensures Agrees(key, face, recorded, scanned) <==> multiset(Faces(key, face, recorded)) == multiset(Faces(key, face, scanned))
  {
    hide Lookup, Faces, UniqueKeys, Distinct;
    NothingRepeated(key, recorded);
    if Agrees(key, face, recorded, scanned) {
      FacesCover(key, face, recorded, scanned);
      DistinctFaces(key, face, recorded);
      DistinctFaces(key, face, scanned);
      SameElementsSameMultiset(Faces(key, face, recorded), Faces(key, face, scanned));
    }
    if multiset(Faces(key, face, recorded)) == multiset(Faces(key, face, scanned)) {
      UniqueAcross(key, face, recorded, scanned);
      forall k ensures Lookup(key, recorded, k).Some? <==> Lookup(key, scanned, k).Some? {
        FacesBothWays(key, face, recorded, scanned, k);
      }
      forall k ensures SameFace(key, face, recorded, scanned, k) { FacesBothWays(key, face, recorded, scanned, k); }
      assert forall k :: Count(key, recorded, k) <= 1;
      assert Agrees(key, face, recorded, scanned);
    }
  }

  lemma FacesBothWays<T, F>(key: T -> string, face: T -> F, xs: seq<T>, ys: seq<T>, k: string)
    requires UniqueKeys(key, xs) && UniqueKeys(key, ys)
    requires multiset(Faces(key, face, xs)) == multiset(Faces(key, face, ys))
    ensures Lookup(key, xs, k).Some? <==> Lookup(key, ys, k).Some?
    ensures SameFace(key, face, xs, ys, k)
  {
    hide Lookup, Faces, UniqueKeys;
    if Lookup(key, xs, k).Some? { FaceAcross(key, face, xs, ys, k); }
    if Lookup(key, ys, k).Some? { FaceAcross(key, face, ys, xs, k); }
  }

  /** Silence also fixes the length, so the separate length check never speaks alone. */
  lemma AgreementFixesLength<T, F>(key: T -> string, face: T -> F, recorded: seq<T>, scanned: seq<T>)
    requires UniqueKeys(key, scanned) && Agrees(key, face, recorded, scanned)
    ensures |recorded| == |scanned|
  {
    hide Lookup, Faces;
    SilenceIsAgreement(key, face, recorded, scanned);
    assert |multiset(Faces(key, face, recorded))| == |multiset(Faces(key, face, scanned))|;
  }

  // ----- The tools' dictionaries and sorted sets -----

  ghost predicate IsIndex<T>(key: T -> string, index: map<string, T>, rows: seq<T>) {
    forall k :: Lookup(key, rows, k) == if k in index then Some(index[k]) else None
  }

  /** `{key(row): row for row in rows}` */
  method IndexBy<T>(key: T -> string, rows: seq<T>) returns (index: map<string, T>)
    ensures IsIndex(key, index, rows)
  {
    index := map[];
    for i := 0 to |rows|
      invariant IsIndex(key, index, rows[..i])
    {
      assert rows[..i + 1][..i] == rows[..i];
      index := index[key(rows[i]) := rows[i]];
    }
    assert rows[..|rows|] == rows;
  }

  function Self(k: string): string { k }

  /** What `sorted` of a set of keys looks like. */
  ghost predicate InOrder(keys: seq<string>) { Distinct(keys) && SortedOn(Self, StringLe, keys) }

  /** `sorted(keys)` for a set of keys. */
  method SortedKeys(keys: set<string>) returns (r: seq<string>)
    ensures InOrder(r) && forall k :: k in r <==> k in keys
  {
    var left, picked := keys, [];
    while left != {}
      invariant left <= keys && Distinct(picked)
      invariant forall k :: k in picked <==> k in keys - left
    {
      var k :| k in left;
      assert k !in picked;
      picked, left := picked + [k], left - {k};
    }
    r := SortOn(Self, StringLe, picked);
    SortedPick(keys, picked);
  }

  lemma SortedPick(keys: set<string>, picked: seq<string>)
    requires Distinct(picked) && forall k :: k in picked <==> k in keys
    ensures var r := SortOn(Self, StringLe, picked); InOrder(r) && forall k :: k in r <==> k in keys
  {
    hide StringLe, SortOn;
    StringLeIsTotal();
    var r := SortOn(Self, StringLe, picked);
    SortOnSorts(Self, StringLe, picked);
    DistinctFromMultiset(picked, r);
    forall k ensures k in r <==> k in keys { assert k in multiset(r) <==> k in multiset(picked); }
  }

  /** The keys that occur more than once. */
  method DuplicatedKeys<T>(key: T -> string, rows: seq<T>) returns (r: seq<string>)
    ensures InOrder(r) && forall k :: k in r <==> Count(key, rows, k) > 1
  {
    hide InOrder;
    var seen: map<string, nat> := map[];
    for i := 0 to |rows|
      invariant forall k :: Count(key, rows[..i], k) == if k in seen then seen[k] else 0
    {
      assert rows[..i + 1][..i] == rows[..i];
      var k := key(rows[i]);
      seen := seen[k := if k in seen then seen[k] + 1 else 1];
    }
    assert rows[..|rows|] == rows;
    r := SortedKeys(set k | k in seen && seen[k] > 1);
  }
}
