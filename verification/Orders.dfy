/** Total orders, lexicographic orders and Python's stable `sorted`. */
module Orders {

  ghost predicate TotalOrder<T(!new)>(le: (T, T) -> bool) {
    && (forall a, b :: le(a, b) || le(b, a))
    && (forall a, b :: le(a, b) && le(b, a) ==> a == b)
    && (forall a, b, c :: le(a, b) && le(b, c) ==> le(a, c))
  }

  lemma Associative<T>(a: seq<T>, b: seq<T>, c: seq<T>)
    ensures a + (b + c) == (a + b) + c
  {
  }

  // ----- Lexicographic order on sequences -----

  predicate LexLe<T(==)>(le: (T, T) -> bool, a: seq<T>, b: seq<T>) {
    if a == [] then true
    else if b == [] then false
    else if a[0] == b[0] then LexLe(le, a[1..], b[1..])
    else le(a[0], b[0])
  }

  lemma {:induction false} LexTotal<T(!new)>(le: (T, T) -> bool, a: seq<T>, b: seq<T>)
    requires TotalOrder(le)
    ensures LexLe(le, a, b) || LexLe(le, b, a)
  {
    if a != [] && b != [] && a[0] == b[0] {
      LexTotal(le, a[1..], b[1..]);
    }
  }

  lemma {:induction false} LexAntisymmetric<T(!new)>(le: (T, T) -> bool, a: seq<T>, b: seq<T>)
    requires TotalOrder(le)
    requires LexLe(le, a, b) && LexLe(le, b, a)
    ensures a == b
  {
    if a != [] && b != [] {
      assert a[0] == b[0];
      LexAntisymmetric(le, a[1..], b[1..]);
      assert a == [a[0]] + a[1..] && b == [b[0]] + b[1..];
    }
  }

  lemma {:induction false} LexTransitive<T(!new)>(le: (T, T) -> bool, a: seq<T>, b: seq<T>, c: seq<T>)
    requires TotalOrder(le)
    requires LexLe(le, a, b) && LexLe(le, b, c)
    ensures LexLe(le, a, c)
  {
    if a != [] && b != [] && c != [] && a[0] == b[0] == c[0] {
      LexTransitive(le, a[1..], b[1..], c[1..]);
    }
  }

  predicate CharLe(a: char, b: char) { a <= b }

  /** Python's comparison of strings: by code point, shorter prefix first. */
  predicate StringLe(a: string, b: string) { LexLe(CharLe, a, b) }

  /** Python's comparison of tuples of strings. */
  predicate TupleLe(a: seq<string>, b: seq<string>) { LexLe(StringLe, a, b) }

  lemma StringLeIsTotal()
    ensures TotalOrder(StringLe)
  {
    assert TotalOrder(CharLe);
    forall a, b ensures StringLe(a, b) || StringLe(b, a) { LexTotal(CharLe, a, b); }
    forall a, b | StringLe(a, b) && StringLe(b, a) ensures a == b { LexAntisymmetric(CharLe, a, b); }
    forall a, b, c | StringLe(a, b) && StringLe(b, c) ensures StringLe(a, c) { LexTransitive(CharLe, a, b, c); }
  }

  lemma TupleLeIsTotal()
    ensures TotalOrder(TupleLe)
  {
    StringLeIsTotal();
    forall a, b ensures TupleLe(a, b) || TupleLe(b, a) { LexTotal(StringLe, a, b); }
    forall a, b | TupleLe(a, b) && TupleLe(b, a) ensures a == b { LexAntisymmetric(StringLe, a, b); }
    forall a, b, c | TupleLe(a, b) && TupleLe(b, c) ensures TupleLe(a, c) { LexTransitive(StringLe, a, b, c); }
  }

  /** At the first place where the two differ `a` has the smaller character, or ends. */
  ghost predicate ComesBefore(a: string, b: string) {
    exists i :: 0 <= i <= |a| && i < |b| && a[..i] == b[..i] && (i < |a| ==> a[i] < b[i])
  }

  lemma {:induction false} StringLeMeans(a: string, b: string)
    ensures StringLe(a, b) <==> a == b || ComesBefore(a, b)
  {
    if a == "" {
      if b != "" { assert a[..0] == b[..0]; }
    } else if b != "" && a[0] == b[0] {
      StringLeMeans(a[1..], b[1..]);
      assert a == [a[0]] + a[1..] && b == [b[0]] + b[1..];
      if ComesBefore(a[1..], b[1..]) {
        var i :| 0 <= i <= |a[1..]| && i < |b[1..]| && a[1..][..i] == b[1..][..i] && (i < |a[1..]| ==> a[1..][i] < b[1..][i]);
        assert a[..i + 1] == [a[0]] + a[1..][..i] && b[..i + 1] == [b[0]] + b[1..][..i];
      }
      if ComesBefore(a, b) {
        var i :| 0 <= i <= |a| && i < |b| && a[..i] == b[..i] && (i < |a| ==> a[i] < b[i]);
        assert a[1..][..i - 1] == a[..i][1..] && b[1..][..i - 1] == b[..i][1..];
      }
    } else if b != "" {
      assert forall i | 0 < i <= |a| && i <= |b| :: a[..i][0] == a[0] && b[..i][0] == b[0];
      assert a[..0] == b[..0];
    }
  }

  /** Tuples of texts compare at the first place where they differ. */
  ghost predicate TupleBefore(a: seq<string>, b: seq<string>) {
    exists k :: 0 <= k <= |a| && k < |b| && a[..k] == b[..k] && (k < |a| ==> ComesBefore(a[k], b[k]))
  }

  lemma {:induction false} TupleLeMeans(a: seq<string>, b: seq<string>)
    ensures TupleLe(a, b) <==> a == b || TupleBefore(a, b)
  {
    hide ComesBefore, StringLe;
    if a == [] {
      if b != [] { assert a[..0] == b[..0]; }
    } else if b != [] && a[0] == b[0] {
      assert TupleLe(a, b) <==> TupleLe(a[1..], b[1..]);
      hide TupleLe;
      TupleLeMeans(a[1..], b[1..]);
      assert a == [a[0]] + a[1..] && b == [b[0]] + b[1..];
      if TupleBefore(a[1..], b[1..]) {
        var k :| 0 <= k <= |a[1..]| && k < |b[1..]| && a[1..][..k] == b[1..][..k] && (k < |a[1..]| ==> ComesBefore(a[1..][k], b[1..][k]));
        assert a[..k + 1] == [a[0]] + a[1..][..k] && b[..k + 1] == [b[0]] + b[1..][..k];
      }
      if TupleBefore(a, b) {
        var k :| 0 <= k <= |a| && k < |b| && a[..k] == b[..k] && (k < |a| ==> ComesBefore(a[k], b[k]));
        if k == 0 { BeforeIsStrict(a[0], b[0]); }
        assert a[1..][..k - 1] == a[..k][1..] && b[1..][..k - 1] == b[..k][1..];
      }
    } else if b != [] {
      StringLeMeans(a[0], b[0]);
      assert forall k | 0 < k <= |a| && k <= |b| :: a[..k][0] == a[0] && b[..k][0] == b[0];
      assert a[..0] == b[..0];
    }
  }

  lemma BeforeIsStrict(a: string, b: string)
    requires ComesBefore(a, b)
    ensures a != b && !StringLe(b, a)
  {
    StringLeMeans(a, b);
    StringLeIsTotal();
  }

  /** Tuples that agree up to their last text are ordered by it. */
  lemma {:induction false} LastDecides(a: seq<string>, b: seq<string>)
    requires |a| == |b| > 0 && forall i | 0 <= i < |a| - 1 :: a[i] == b[i]
    ensures TupleLe(a, b) <==> StringLe(a[|a| - 1], b[|b| - 1])
  {
    if |a| == 1 {
      StringLeMeans(a[0], b[0]);
      assert a[1..] == [] && LexLe(StringLe, a[1..], b[1..]);
    } else {
      LastDecides(a[1..], b[1..]);
    }
  }

  // ----- sorted(xs, key=key) -----

  ghost predicate SortedOn<T, K(!new)>(key: T -> K, le: (K, K) -> bool, xs: seq<T>) {
    forall i, j | 0 <= i < j < |xs| :: le(key(xs[i]), key(xs[j]))
  }

  function Insert<T, K>(key: T -> K, le: (K, K) -> bool, x: T, ys: seq<T>): (r: seq<T>)
    ensures multiset(r) == multiset{x} + multiset(ys)
    ensures |r| == |ys| + 1
  {
    if ys == [] then [x]
    else if le(key(x), key(ys[0])) then [x] + ys
    else
      assert ys == [ys[0]] + ys[1..];
      [ys[0]] + Insert(key, le, x, ys[1..])
  }

  /** `sorted(xs, key=key)`: stable, because an element is put before its equals. */
  function SortOn<T, K>(key: T -> K, le: (K, K) -> bool, xs: seq<T>): (r: seq<T>)
    ensures multiset(r) == multiset(xs)
    ensures |r| == |xs|
  {
    if xs == [] then []
    else
      assert xs == [xs[0]] + xs[1..];
      Insert(key, le, xs[0], SortOn(key, le, xs[1..]))
  }

  lemma {:induction false} InsertKeepsSorted<T, K(!new)>(key: T -> K, le: (K, K) -> bool, x: T, ys: seq<T>)
    requires TotalOrder(le) && SortedOn(key, le, ys)
    ensures SortedOn(key, le, Insert(key, le, x, ys))
  {
    if ys != [] && !le(key(x), key(ys[0])) {
      var rest := Insert(key, le, x, ys[1..]);
      InsertKeepsSorted(key, le, x, ys[1..]);
      forall z | z in rest ensures le(key(ys[0]), key(z)) {
        assert z in multiset(rest);
        assert z == x || z in ys[1..];
      }
    }
  }

  lemma {:induction false} SortOnSorts<T, K(!new)>(key: T -> K, le: (K, K) -> bool, xs: seq<T>)
    requires TotalOrder(le)
    ensures SortedOn(key, le, SortOn(key, le, xs))
  {
    if xs != [] {
      SortOnSorts(key, le, xs[1..]);
      InsertKeepsSorted(key, le, xs[0], SortOn(key, le, xs[1..]));
    }
  }

  lemma InSameMultiset<T>(xs: seq<T>, ys: seq<T>, x: T)
    requires multiset(xs) == multiset(ys) && x in xs
    ensures x in ys
  {
    assert x in multiset(xs);
  }

  /** Two sorted lists of the same elements are the same list. */
  lemma {:induction false} SortedIsUnique<K(!new)>(le: (K, K) -> bool, xs: seq<K>, ys: seq<K>)
    requires TotalOrder(le)
    requires SortedOn((k: K) => k, le, xs) && SortedOn((k: K) => k, le, ys)
    requires multiset(xs) == multiset(ys)
    ensures xs == ys
  {
    if xs == [] {
      assert |multiset(ys)| == 0;
    } else {
      assert |multiset(xs)| == |xs| && |multiset(ys)| == |ys|;
      InSameMultiset(xs, ys, xs[0]);
      InSameMultiset(ys, xs, ys[0]);
      assert le(xs[0], ys[0]) && le(ys[0], xs[0]);
      WithoutHead(xs);
      WithoutHead(ys);
      SortedIsUnique(le, xs[1..], ys[1..]);
    }
  }

  lemma WithoutHead<T>(xs: seq<T>)
    requires xs != []
    ensures xs == [xs[0]] + xs[1..] && multiset(xs[1..]) == multiset(xs) - multiset{xs[0]}
  {
    assert xs == [xs[0]] + xs[1..];
  }

  /** The image of a list under a projection. */
  function Project<T, K>(key: T -> K, xs: seq<T>): (r: seq<K>)
    ensures |r| == |xs|
    ensures forall i | 0 <= i < |xs| :: r[i] == key(xs[i])
  {
    seq(|xs|, i requires 0 <= i < |xs| => key(xs[i]))
  }

  lemma ProjectMiddle<T, K>(key: T -> K, a: seq<T>, x: T, b: seq<T>)
    ensures multiset(Project(key, a + [x] + b)) == multiset{key(x)} + multiset(Project(key, a + b))
  {
    assert Project(key, a + [x] + b) == Project(key, a) + [key(x)] + Project(key, b);
    assert Project(key, a + b) == Project(key, a) + Project(key, b);
  }

  lemma RemoveOne<T>(x: T, t: seq<T>, a: seq<T>, b: seq<T>)
    requires multiset([x] + t) == multiset(a + [x] + b)
    ensures multiset(t) == multiset(a + b)
  {
    assert multiset(t) == multiset([x] + t) - multiset{x};
    assert multiset(a + b) == multiset(a + [x] + b) - multiset{x};
  }

  lemma {:induction false} ProjectMultiset<T, K>(key: T -> K, xs: seq<T>, ys: seq<T>)
    requires multiset(xs) == multiset(ys)
    ensures multiset(Project(key, xs)) == multiset(Project(key, ys))
  {
    if xs == [] {
      assert |multiset(ys)| == 0;
    } else {
      var x, t := xs[0], xs[1..];
      assert xs == [x] + t;
      InSameMultiset(xs, ys, x);
      var i :| 0 <= i < |ys| && ys[i] == x;
      var a, b := ys[..i], ys[i + 1..];
      assert ys == a + [x] + b;
      RemoveOne(x, t, a, b);
      ProjectMultiset(key, t, a + b);
      ProjectSplit(key, x, t, a, b);
    }
  }

  lemma ProjectSplit<T, K>(key: T -> K, x: T, t: seq<T>, a: seq<T>, b: seq<T>)
    requires multiset(Project(key, t)) == multiset(Project(key, a + b))
    ensures multiset(Project(key, [x] + t)) == multiset(Project(key, a + [x] + b))
  {
    ProjectMiddle(key, [], x, t);
    assert [x] + t == [] + [x] + t && t == [] + t;
    ProjectMiddle(key, a, x, b);
  }

  /** The keys of a sorted list depend only on which elements were sorted. */
  lemma SortedKeysIgnoreOrder<T, K(!new)>(key: T -> K, le: (K, K) -> bool, xs: seq<T>, ys: seq<T>)
    requires TotalOrder(le)
    requires multiset(Project(key, xs)) == multiset(Project(key, ys))
    ensures Project(key, SortOn(key, le, xs)) == Project(key, SortOn(key, le, ys))
  {
    SortOnSorts(key, le, xs);
    SortOnSorts(key, le, ys);
    var a, b := SortOn(key, le, xs), SortOn(key, le, ys);
    ProjectMultiset(key, a, xs);
    ProjectMultiset(key, b, ys);
    SortedIsUnique(le, Project(key, a), Project(key, b));
  }

  ghost predicate Distinct<T>(xs: seq<T>) {
    forall i, j | 0 <= i < j < |xs| :: xs[i] != xs[j]
  }

  lemma {:induction false} DistinctMultiset<T>(xs: seq<T>)
    requires Distinct(xs)
    ensures multiset(xs) == multiset(set x | x in xs)
  {
    if xs != [] {
      DistinctMultiset(xs[1..]);
      assert xs == [xs[0]] + xs[1..];
      assert (set x | x in xs) == {xs[0]} + (set x | x in xs[1..]);
    } else {
      assert (set x | x in xs) == {};
    }
  }

  lemma {:induction false} SameElementsSameMultiset<T>(xs: seq<T>, ys: seq<T>)
    requires Distinct(xs) && Distinct(ys)
    requires forall x :: x in xs <==> x in ys
    ensures multiset(xs) == multiset(ys)
  {
    DistinctMultiset(xs);
    DistinctMultiset(ys);
    assert (set x | x in xs) == (set x | x in ys);
  }

  lemma {:induction false} DistinctFromMultiset<T>(xs: seq<T>, ys: seq<T>)
    requires Distinct(xs) && multiset(xs) == multiset(ys)
    ensures Distinct(ys)
  {
    DistinctMultiset(xs);
    forall i, j | 0 <= i < j < |ys| ensures ys[i] != ys[j] {
      assert ys == ys[..i] + [ys[i]] + ys[i + 1..j] + [ys[j]] + ys[j + 1..];
      assert multiset(ys)[ys[i]] <= 1;
    }
  }
}
