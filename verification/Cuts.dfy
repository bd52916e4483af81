/** Joining two sequences with a separator that one side does not hold can be undone. */
module Cuts {

  /** The place of the first `c`, or the length when there is none. */
  function FirstIndex<T(==)>(s: seq<T>, c: T): (n: nat)
    ensures n <= |s|
  {
    if s == [] || s[0] == c then 0 else 1 + FirstIndex(s[1..], c)
  }

  lemma {:induction false} FirstIndexOfJoin<T>(a: seq<T>, c: T, b: seq<T>)
    requires c !in a
    ensures FirstIndex(a + [c] + b, c) == |a|
  {
    var s := a + [c] + b;
    if a != [] {
      assert s[1..] == a[1..] + [c] + b;
      FirstIndexOfJoin(a[1..], c, b);
    }
  }

  /** How many elements follow the last `c`, or the length when there is none. */
  function AfterLastIndex<T(==)>(s: seq<T>, c: T): (n: nat)
    ensures n <= |s|
  {
    if s == [] || s[|s| - 1] == c then 0 else 1 + AfterLastIndex(s[..|s| - 1], c)
  }

  lemma {:induction false} AfterLastIndexOfJoin<T>(a: seq<T>, c: T, b: seq<T>)
    requires c !in b
    ensures AfterLastIndex(a + [c] + b, c) == |b|
  {
    var s := a + [c] + b;
    if b == [] {
      assert s[|s| - 1] == c;
    } else {
      assert s[..|s| - 1] == a + [c] + b[..|b| - 1];
      AfterLastIndexOfJoin(a, c, b[..|b| - 1]);
    }
  }

  lemma JoinParts<T>(a: seq<T>, c: T, b: seq<T>)
    ensures var s := a + [c] + b; s[..|a|] == a && s[|a| + 1..] == b
  {
  }

  /** The left parts hold no separator: both parts are determined. */
  lemma CutFirst<T>(a: seq<T>, b: seq<T>, a': seq<T>, b': seq<T>, c: T)
    requires c !in a && c !in a' && a + [c] + b == a' + [c] + b'
    ensures a == a' && b == b'
  {
    FirstIndexOfJoin(a, c, b);
    FirstIndexOfJoin(a', c, b');
    JoinParts(a, c, b);
    JoinParts(a', c, b');
  }

  /** The right parts hold no separator: both parts are determined. */
  lemma CutLast<T>(a: seq<T>, b: seq<T>, a': seq<T>, b': seq<T>, c: T)
    requires c !in b && c !in b' && a + [c] + b == a' + [c] + b'
    ensures a == a' && b == b'
  {
    AfterLastIndexOfJoin(a, c, b);
    AfterLastIndexOfJoin(a', c, b');
    JoinParts(a, c, b);
    JoinParts(a', c, b');
  }
}
