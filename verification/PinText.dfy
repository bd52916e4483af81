/** The string operations of tools/checkToolchainPinDrift.py, and where a rewrite can create a match. */
module PinText {
  import opened Numerals
  import opened Text

  /** `s.replace(p, r, 1)` */
  function ReplaceFirst(s: string, p: string, r: string): string {
    var k := Find(s, p);
    if k.None? then s else s[..k.value] + r + s[k.value + |p|..]
  }

  predicate OccursAt(s: string, p: string, k: nat) { k <= |s| && StartsWith(s[k..], p) }

  lemma OccursMeans(s: string, p: string, k: nat)
    ensures OccursAt(s, p, k) <==> k + |p| <= |s| && s[k..k + |p|] == p
  {
    if k + |p| <= |s| { assert s[k..][..|p|] == s[k..k + |p|]; }
  }

  lemma FoundBefore(s: string, p: string, k: nat)
    requires OccursAt(s, p, k)
    ensures Find(s, p).Some? && Find(s, p).value <= k && OccursAt(s, p, Find(s, p).value)
  {
  }

  lemma FindIsFirst(s: string, p: string, k: nat)
    requires OccursAt(s, p, k) && forall j | 0 <= j < k :: !OccursAt(s, p, j)
    ensures Find(s, p) == Some(k)
  {
    FoundBefore(s, p, k);
    assert !(Find(s, p).value < k);
  }

  lemma OccursInside(c: string, p: string, d: string)
    ensures OccursAt(c + p + d, p, |c|)
  {
    assert (c + p + d)[|c|..|c| + |p|] == p;
    OccursMeans(c + p + d, p, |c|);
  }

  lemma CharOfMatch(s: string, t: string, k: nat, j: nat)
    requires k + |t| <= |s| && s[k..k + |t|] == t && j < |t|
    ensures t[j] == s[k + j]
  {
  }

  /** A match that starts in `c` and ends beyond it covers the last character of `c`. */
  lemma CoversLast(c: string, p: string, d: string, k: nat)
    requires OccursAt(c + p + d, p, k) && k < |c| < k + |p|
    ensures c[|c| - 1] in p
  {
    OccursMeans(c + p + d, p, k);
    CharOfMatch(c + p + d, p, k, |c| - 1 - k);
  }

  lemma CountedTwice(c: string, p: string, d: string, k: nat)
    requires p != "" && Find(c + p + d, p) == Some(k) && k + |p| <= |c|
    ensures Count(c + p + d, p) >= 2
  {
    hide StartsWith, Find;
    var s, c' := c + p + d, c[k + |p|..];
    assert s[k + |p|..] == c' + p + d;
    OccursInside(c', p, d);
    FoundBefore(c' + p + d, p, |c'|);
    CountedOnce(c' + p + d, p);
  }

  lemma CountedOnce(s: string, p: string)
    requires p != "" && Find(s, p).Some?
    ensures Count(s, p) >= 1
  {
  }

  /** An occurrence that a character outside the pattern precedes, and the only one counted, is where replacement happens. */
  lemma OnlyOccurrence(c: string, p: string, d: string, r: string)
    requires p != "" && Count(c + p + d, p) == 1
    requires c == "" || c[|c| - 1] !in p
    ensures Find(c + p + d, p) == Some(|c|) && Replace(c + p + d, p, r) == c + r + d
  {
    hide StartsWith;
    var s := c + p + d;
    OccursInside(c, p, d);
    FoundBefore(s, p, |c|);
    var k := Find(s, p).value;
    if k < |c| < k + |p| { CoversLast(c, p, d, k); }
    if k + |p| <= |c| { CountedTwice(c, p, d, k); }
    assert k == |c| && s[..k] == c && s[k + |p|..] == d;
    assert Find(d, p).None?;
  }

  // ----- Rewriting one value -----

  /** The text matched for does not begin inside a value, and nothing but a space follows its inner `=`. */
  predicate Guarded(t: string, value: string) {
    && t != "" && t[0] !in value && ' ' !in value && value != ""
    && forall j | 0 <= j < |t| - 1 && t[j] == '=' :: t[j + 1] == ' '
  }

  /** After `=`, putting one value for another creates no new match of a guarded text:
      every match lies wholly before or wholly after the value, and was there already. */
  lemma NoNewMatch(a: string, was: string, now: string, b: string, t: string, k: nat)
    requires a != "" && a[|a| - 1] == '=' && Guarded(t, now)
    requires OccursAt(a + now + b, t, k)
    ensures (k + |t| <= |a| && OccursAt(a + was + b, t, k)) || (k >= |a| + |now| && OccursAt(a + was + b, t, k - |now| + |was|))
  {
    var s, s' := a + was + b, a + now + b;
    OccursMeans(s', t, k);
    if k + |t| <= |a| {
      assert s[k..k + |t|] == s'[k..k + |t|];
      OccursMeans(s, t, k);
    } else if k >= |a| + |now| {
      var m := k - |now| + |was|;
      assert s[m..m + |t|] == s'[k..k + |t|];
      OccursMeans(s, t, m);
    } else {
      Straddles(a, now, b, t, k);
    }
  }

  /** A match across the start of the value has `=` inside it, followed by the value's first character. */
  lemma AcrossStart(a: string, now: string, b: string, t: string, k: nat)
    requires a != "" && now != "" && k + |t| <= |a + now + b| && (a + now + b)[k..k + |t|] == t
    requires k < |a| < k + |t|
    ensures t[|a| - 1 - k] == a[|a| - 1] && t[|a| - k] in now
  {
    CharOfMatch(a + now + b, t, k, |a| - 1 - k);
    CharOfMatch(a + now + b, t, k, |a| - k);
    assert (a + now + b)[|a|] == now[0];
  }

  lemma InsideValue(a: string, now: string, b: string, t: string, k: nat)
    requires t != "" && k + |t| <= |a + now + b| && (a + now + b)[k..k + |t|] == t
    requires |a| <= k < |a| + |now|
    ensures t[0] in now
  {
    CharOfMatch(a + now + b, t, k, 0);
    assert (a + now + b)[k] == now[k - |a|];
  }

  lemma Straddles(a: string, now: string, b: string, t: string, k: nat)
    requires a != "" && a[|a| - 1] == '=' && Guarded(t, now)
    requires k + |t| <= |a + now + b| && (a + now + b)[k..k + |t|] == t
    ensures k + |t| <= |a| || k >= |a| + |now|
  {
    if k < |a| < k + |t| {
      AcrossStart(a, now, b, t, k);
    } else if |a| <= k < |a| + |now| {
      InsideValue(a, now, b, t, k);
    }
  }

  /** A match wholly before the value stays where it is; one wholly after it moves with the text. */
  lemma MatchStays(a: string, was: string, now: string, b: string, t: string, k: nat)
    requires OccursAt(a + was + b, t, k)
    ensures k + |t| <= |a| ==> OccursAt(a + now + b, t, k)
    ensures k >= |a| + |was| ==> OccursAt(a + now + b, t, k - |was| + |now|)
  {
    var s, s' := a + was + b, a + now + b;
    OccursMeans(s, t, k);
    if k + |t| <= |a| {
      assert s[k..k + |t|] == s'[k..k + |t|];
      OccursMeans(s', t, k);
    }
    if k >= |a| + |was| {
      var m := k - |was| + |now|;
      assert s[k..k + |t|] == s'[m..m + |t|];
      OccursMeans(s', t, m);
    }
  }

  /** Where a match moves to. */
  function Moved(a: string, was: string, now: string, t: string, k: nat): int {
    if k + |t| <= |a| then k else k - |was| + |now|
  }

  lemma NotEarlier(a: string, was: string, now: string, b: string, t: string, k: nat, j: nat)
    requires a != "" && a[|a| - 1] == '=' && Guarded(t, now)
    requires Find(a + was + b, t) == Some(k) && (k + |t| <= |a| || k >= |a| + |was|)
    requires OccursAt(a + now + b, t, j)
    ensures j >= Moved(a, was, now, t, k)
  {
    hide StartsWith, OccursAt, Guarded, Find;
    NoNewMatch(a, was, now, b, t, j);
    if j + |t| <= |a| && OccursAt(a + was + b, t, j) {
      FoundBefore(a + was + b, t, j);
    } else {
      FoundBefore(a + was + b, t, j - |now| + |was|);
    }
  }

  /** The first match is still the first, in place or moved. */
  lemma FirstMatchKept(a: string, was: string, now: string, b: string, t: string)
    requires a != "" && a[|a| - 1] == '=' && Guarded(t, now) && Find(a + was + b, t).Some?
    requires var k := Find(a + was + b, t).value; k + |t| <= |a| || k >= |a| + |was|
    ensures Moved(a, was, now, t, Find(a + was + b, t).value) >= 0
    ensures Find(a + now + b, t) == Some(Moved(a, was, now, t, Find(a + was + b, t).value))
  {
    var k := Find(a + was + b, t).value;
    MatchMoves(a, was, now, b, t, k);
    hide StartsWith, OccursAt, Guarded, Find, Moved;
    var m := Moved(a, was, now, t, k);
    forall j | 0 <= j < m ensures !OccursAt(a + now + b, t, j) {
      if OccursAt(a + now + b, t, j) { NotEarlier(a, was, now, b, t, k, j); }
    }
    FindIsFirst(a + now + b, t, m);
  }

  lemma MatchMoves(a: string, was: string, now: string, b: string, t: string, k: nat)
    requires Find(a + was + b, t) == Some(k) && (k + |t| <= |a| || k >= |a| + |was|)
    ensures Moved(a, was, now, t, k) >= 0 && OccursAt(a + now + b, t, Moved(a, was, now, t, k))
  {
    hide StartsWith, Find, OccursAt;
    FoundOccurs(a + was + b, t, k);
    MatchStays(a, was, now, b, t, k);
    MovedFits(a, was, now, t, k);
  }

  lemma FoundOccurs(s: string, t: string, k: nat)
    requires Find(s, t) == Some(k)
    ensures OccursAt(s, t, k)
  {
    hide StartsWith;
  }

  lemma MovedFits(a: string, was: string, now: string, t: string, k: nat)
    requires k + |t| <= |a| || k >= |a| + |was|
    ensures Moved(a, was, now, t, k) >= 0
    ensures k + |t| > |a| ==> Moved(a, was, now, t, k) == k - |was| + |now|
  {
  }

  // ----- Lines -----

  lemma {:induction false} SplitAlone(x: string)
    requires '\n' !in x
    ensures SplitChar(x, '\n') == [x]
  {
    if x != "" {
      SplitAlone(x[1..]);
      assert [x[0]] + x[1..] == x;
    }
  }

  lemma {:induction false} SplitCons(x: string, rest: string)
    requires '\n' !in x
    ensures SplitChar(x + "\n" + rest, '\n') == [x] + SplitChar(rest, '\n')
  {
    var s := x + "\n" + rest;
    if x == "" {
      assert s[0] == '\n' && s[1..] == rest;
    } else {
      assert s[0] == x[0] && s[1..] == x[1..] + "\n" + rest;
      SplitCons(x[1..], rest);
      assert [x[0]] + x[1..] == x;
    }
  }

  /** The first line of a text and what follows its line break. */
  lemma FirstLine(s: string) returns (x: string, rest: string)
    requires '\n' in s
    ensures '\n' !in x && s == x + "\n" + rest && SplitChar(s, '\n') == [x] + SplitChar(rest, '\n')
    decreases |s|
  {
    if s[0] == '\n' {
      x, rest := "", s[1..];
      assert s == "" + "\n" + rest;
    } else {
      assert s == [s[0]] + s[1..];
      var y;
      y, rest := FirstLine(s[1..]);
      x := [s[0]] + y;
      assert s == x + "\n" + rest;
    }
    SplitCons(x, rest);
  }

  /** Line `i` with the text before and after it: any other line can stand in its place. */
  ghost predicate LineAt(s: string, i: nat, u: string, w: string) {
    && i < |SplitChar(s, '\n')| && s == u + SplitChar(s, '\n')[i] + w
    && forall x: string :: '\n' !in x ==> SplitChar(u + x + w, '\n') == SplitChar(s, '\n')[i := x]
  }

  lemma LinesHoldNoBreak(s: string)
    ensures forall l | l in SplitChar(s, '\n') :: '\n' !in l
    decreases |s|
  {
    if '\n' in s {
      var x, rest := FirstLine(s);
      LinesHoldNoBreak(rest);
    } else {
      SplitAlone(s);
    }
  }

  lemma {:induction false} CutLine(s: string, i: nat) returns (u: string, w: string)
    requires i < |SplitChar(s, '\n')|
    ensures LineAt(s, i, u, w)
    decreases |s|
  {
    if '\n' !in s {
      SplitAlone(s);
      u, w := "", "";
      assert s == "" + s + "";
      forall x: string | '\n' !in x ensures SplitChar("" + x + "", '\n') == [s][0 := x] {
        assert "" + x + "" == x;
        SplitAlone(x);
      }
    } else {
      var l, rest := FirstLine(s);
      if i == 0 {
        u, w := "", "\n" + rest;
        assert s == "" + l + w;
        forall x: string | '\n' !in x ensures SplitChar("" + x + w, '\n') == SplitChar(s, '\n')[0 := x] {
          assert "" + x + w == x + "\n" + rest;
          SplitCons(x, rest);
        }
      } else {
        var v;
        v, w := CutLine(rest, i - 1);
        u := l + "\n" + v;
        LineLater(s, l, rest, i, v, w);
      }
    }
  }

  lemma LineLater(s: string, l: string, rest: string, i: nat, v: string, w: string)
    requires '\n' !in l && s == l + "\n" + rest && SplitChar(s, '\n') == [l] + SplitChar(rest, '\n')
    requires i > 0 && LineAt(rest, i - 1, v, w)
    ensures LineAt(s, i, l + "\n" + v, w)
  {
    hide SplitChar;
    var u, lines := l + "\n" + v, SplitChar(rest, '\n');
    FourParts(l, v, lines[i - 1], w);
    forall x: string | '\n' !in x ensures SplitChar(u + x + w, '\n') == SplitChar(s, '\n')[i := x] {
      FourParts(l, v, x, w);
      SplitCons(l, v + x + w);
      LaterLine(l, lines, i, x);
    }
  }

  lemma FourParts(l: string, v: string, x: string, w: string)
    ensures (l + "\n" + v) + x + w == l + "\n" + (v + x + w)
  {
  }

  lemma LaterLine(l: string, lines: seq<string>, i: nat, x: string)
    requires 0 < i <= |lines|
    ensures ([l] + lines)[i := x] == [l] + lines[i - 1 := x]
  {
  }
}
