/** Python string operations shared by the text tools. */
module Text {
  import opened Numerals

  predicate StartsWith(s: string, p: string) { |p| <= |s| && s[..|p|] == p }

  predicate EndsWith(s: string, suffix: string) { |s| >= |suffix| && s[|s| - |suffix|..] == suffix }

  /** `text.find(p)`; None where Python gives -1. */
  function Find(s: string, p: string): (r: Option<nat>)
    ensures r.Some? ==> r.value + |p| <= |s| && StartsWith(s[r.value..], p)
    ensures r.Some? ==> forall k | 0 <= k < r.value :: !StartsWith(s[k..], p)
    ensures r.None? ==> forall k | 0 <= k <= |s| :: !StartsWith(s[k..], p)
  {
    if StartsWith(s, p) then assert s[0..] == s; Some(0)
    else if s == [] then None
    else
      var rest := Find(s[1..], p);
      assert forall k | 1 <= k <= |s| :: s[k..] == s[1..][k - 1..];
      if rest.None? then None else Some(rest.value + 1)
  }

  lemma {:induction false} FindIs(s: string, p: string, k: nat)
    requires k <= |s| && StartsWith(s[k..], p)
    requires forall j | 0 <= j < k :: !StartsWith(s[j..], p)
    ensures Find(s, p) == Some(k)
  {
  }

  /** The pattern stands at place `j`. */
  predicate Occurs(s: string, p: string, j: nat) { j + |p| <= |s| && s[j..j + |p|] == p }

  /** It stands there and nowhere before. */
  predicate FirstAt(s: string, p: string, k: nat) { Occurs(s, p, k) && forall j: nat | j < k :: !Occurs(s, p, j) }

  lemma OccursIsStart(s: string, p: string, j: nat)
    requires j <= |s|
    ensures Occurs(s, p, j) <==> StartsWith(s[j..], p)
  {
    if j + |p| <= |s| { assert s[j..][..|p|] == s[j..j + |p|]; }
  }

  lemma FirstIsFound(s: string, p: string, k: nat)
    ensures FirstAt(s, p, k) <==> Find(s, p) == Some(k)
  {
    hide Occurs, StartsWith;
    forall j: nat | j <= |s| ensures Occurs(s, p, j) <==> StartsWith(s[j..], p) { OccursIsStart(s, p, j); }
    if FirstAt(s, p, k) {
      OccurrenceFits(s, p, k);
      FindIs(s, p, k);
    }
  }

  lemma OccurrenceFits(s: string, p: string, k: nat)
    requires Occurs(s, p, k)
    ensures k <= |s|
  {
  }

  /** `text.count(p)`: occurrences that do not overlap. */
  function Count(s: string, p: string): nat
    decreases |s|
  {
    if p == "" then |s| + 1
    else
      var k := Find(s, p);
      if k.None? then 0 else 1 + Count(s[k.value + |p|..], p)
  }

  /** `text.replace(p, r)` */
  function Replace(s: string, p: string, r: string): string
    requires p != ""
    decreases |s|
  {
    var k := Find(s, p);
    if k.None? then s else s[..k.value] + r + Replace(s[k.value + |p|..], p, r)
  }

  /** `text.replace(p, r, limit)` */
  function ReplaceUpTo(s: string, p: string, r: string, limit: nat): string
    decreases limit
  {
    if limit == 0 then s
    else if p == "" then if s == [] then r else r + [s[0]] + ReplaceUpTo(s[1..], p, r, limit - 1)
    else
      var k := Find(s, p);
      if k.None? then s else s[..k.value] + r + ReplaceUpTo(s[k.value + |p|..], p, r, limit - 1)
  }

  function Spaces(n: nat): (s: string)
    ensures |s| == n && forall i | 0 <= i < n :: s[i] == ' '
  {
    seq(n, i => ' ')
  }

  /** `sep.join(parts)` */
  function Join(sep: string, parts: seq<string>): string {
    if parts == [] then ""
    else if |parts| == 1 then parts[0]
    else parts[0] + sep + Join(sep, parts[1..])
  }

  /** `text.split(c)` for a one-character separator. */
  function SplitChar(s: string, c: char): (r: seq<string>)
    ensures |r| >= 1
  {
    if s == [] then [""]
    else
      var rest := SplitChar(s[1..], c);
      if s[0] == c then [""] + rest else [[s[0]] + rest[0]] + rest[1..]
  }

  function Flatten(parts: seq<string>): string {
    if parts == [] then "" else parts[0] + Flatten(parts[1..])
  }

  lemma {:induction false} FlattenAppend(a: seq<string>, b: seq<string>)
    ensures Flatten(a + b) == Flatten(a) + Flatten(b)
  {
    if a == [] {
      assert a + b == b;
    } else {
      assert (a + b)[1..] == a[1..] + b;
      FlattenAppend(a[1..], b);
    }
  }

  function Lower(c: char): (r: char)
    ensures !('A' <= r <= 'Z')
  {
    if 'A' <= c <= 'Z' then (c as int + 32) as char else c
  }

  function Upper(c: char): char {
    if 'a' <= c <= 'z' then (c as int - 32) as char else c
  }

  function LowerAll(s: string): (r: string)
    ensures |r| == |s| && forall i | 0 <= i < |s| :: r[i] == Lower(s[i])
  {
    if s == [] then [] else [Lower(s[0])] + LowerAll(s[1..])
  }

  function UpperAll(s: string): (r: string)
    ensures |r| == |s| && forall i | 0 <= i < |s| :: r[i] == Upper(s[i])
  {
    if s == [] then [] else [Upper(s[0])] + UpperAll(s[1..])
  }
}
