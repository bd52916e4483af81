/** Where the text of the second block is met when it is replaced, and what follows from it. */
module PinPlaces {
  import opened Numerals
  import opened Text
  import opened PinText
  import opened PinLines
  import opened PinBumps

  // ----- One replacement is right only in the block's own place -----

  predicate IsPrefix(a: string, b: string) { |a| <= |b| && b[..|a|] == a }

  /** The first place where two texts differ, when neither begins with the other. */
  function FirstDifference(a: string, b: string): (e: nat)
    requires !IsPrefix(a, b) && !IsPrefix(b, a)
    ensures e < |a| && e < |b| && a[e] != b[e] && a[..e] == b[..e]
  {
    if a[0] != b[0] then 0
    else
      assert a == [a[0]] + a[1..] && b == [b[0]] + b[1..];
      assert !IsPrefix(a[1..], b[1..]) && !IsPrefix(b[1..], a[1..]);
      var e := FirstDifference(a[1..], b[1..]);
      assert a[..e + 1] == [a[0]] + a[1..][..e] && b[..e + 1] == [b[0]] + b[1..][..e];
      e + 1
  }

  /** Replacing an occurrence before the block's own place shows at the first difference. */
  lemma DifferenceShows(before: string, arm: string, arm': string, v: string, k: nat)
    requires !IsPrefix(arm, arm') && !IsPrefix(arm', arm) && k < |before| && OccursAt(before + arm + v, arm, k)
    ensures k + |arm| <= |before + arm + v|
    ensures (before + arm + v)[..k] + arm' + (before + arm + v)[k + |arm|..] != before + arm' + v
  {
    var text, e := before + arm + v, FirstDifference(arm, arm');
    OccursMeans(text, arm, k);
    var result := text[..k] + arm' + text[k + |arm|..];
    assert result[k + e] == arm'[e];
    assert arm[e] == text[k..k + |arm|][e] == text[k + e];
    if k + e < |before| {
      assert (before + arm' + v)[k + e] == before[k + e] == text[k + e];
    } else {
      var j := k + e - |before|;
      assert text[k + e] == arm[j] && arm[j] == arm[..e][j] && arm'[j] == arm'[..e][j];
      assert (before + arm' + v)[k + e] == arm'[j];
    }
  }

  /** How far from the end the last `=` stands. */
  function LastEquals(s: string): (d: nat)
    requires '=' in s
    ensures 1 <= d <= |s| && s[|s| - d] == '=' && forall i | |s| - d < i < |s| :: s[i] != '='
  {
    if s[|s| - 1] == '=' then 1 else
      assert s == s[..|s| - 1] + [s[|s| - 1]];
      1 + LastEquals(s[..|s| - 1])
  }

  lemma LastEqualsIs(s: string, d: nat)
    requires 1 <= d <= |s| && s[|s| - d] == '=' && forall i | |s| - d < i < |s| :: s[i] != '='
    ensures '=' in s && LastEquals(s) == d
  {
    assert s[|s| - d] in s;
    var c := LastEquals(s);
    assert !(|s| - d < |s| - c < |s|);
    assert !(|s| - c < |s| - d < |s|);
  }

  lemma LastEqualsOf(front: string, s: string)
    requires '=' in s
    ensures LastEquals(front + s) == LastEquals(s)
  {
    var t, d := front + s, LastEquals(s);
    assert t[|t| - d] == s[|s| - d];
    forall i | |t| - d < i < |t| ensures t[i] != '=' { assert t[i] == s[i - |front|]; }
    LastEqualsIs(t, d);
  }

  lemma LastEqualsBefore(s: string, back: string)
    requires '=' in s && '=' !in back
    ensures '=' in s + back && LastEquals(s + back) == LastEquals(s) + |back|
  {
    var t, d := s + back, LastEquals(s) + |back|;
    assert t[|t| - d] == s[|s| - LastEquals(s)];
    forall i | |t| - d < i < |t| ensures t[i] != '=' {
      if i < |s| { assert t[i] == s[i]; } else { assert t[i] == back[i - |s|]; }
    }
    LastEqualsIs(t, d);
  }

  /** A text that ends like one block is told from one that ends in the other by its last `=`. */
  lemma EndsTellApart(front: string, arm: string, arm': string, rest: string, head: string, before: string)
    requires '=' in arm && '=' in arm' && LastEquals(arm) != LastEquals(arm')
    requires head + rest == before + arm && rest != ""
    ensures '=' in front + arm' + rest && '=' in before + arm'
    ensures LastEquals(front + arm' + rest) != LastEquals(before + arm')
  {
    hide LastEquals;
    LastEqualsOf(before, arm');
    LastEqualsOf(before, arm);
    LastEqualsOf(front, arm');
    if '=' in rest {
      LastEqualsOf(head, rest);
      LastEqualsOf(front + arm', rest);
    } else {
      LastEqualsBefore(front + arm', rest);
    }
  }

  lemma SameEnd(a: string, b: string, v: string)
    requires a + v == b + v
    ensures a == b
  {
    assert |a| == |b| && (a + v)[..|a|] == a && (b + v)[..|b|] == b;
  }

  lemma WholeTextsDiffer(front: string, arm: string, arm': string, rest: string, head: string, before: string, v: string)
    requires '=' in arm && '=' in arm' && LastEquals(arm) != LastEquals(arm')
    requires head + rest == before + arm && rest != ""
    ensures front + arm' + (rest + v) != before + arm' + v
  {
    hide LastEquals;
    EndsTellApart(front, arm, arm', rest, head, before);
    assert front + arm' + (rest + v) == (front + arm' + rest) + v;
    if (front + arm' + rest) + v == (before + arm') + v { SameEnd(front + arm' + rest, before + arm', v); }
  }

  /** The same when one block's text begins with the other's. */
  lemma LengthShows(before: string, arm: string, arm': string, v: string, k: nat)
    requires '=' in arm && '=' in arm' && LastEquals(arm) != LastEquals(arm')
    requires k < |before| && k + |arm| <= |before + arm + v|
    ensures (before + arm + v)[..k] + arm' + (before + arm + v)[k + |arm|..] != before + arm' + v
  {
    hide LastEquals;
    var whole := before + arm;
    var head, rest := whole[..k + |arm|], whole[k + |arm|..];
    assert head + rest == whole;
    assert (whole + v)[k + |arm|..] == rest + v;
    WholeTextsDiffer((whole + v)[..k], arm, arm', rest, head, before, v);
  }

  // ----- A bump moves no `=` -----

  function EqualSigns(s: string): nat {
    if s == "" then 0 else EqualSigns(s[..|s| - 1]) + if s[|s| - 1] == '=' then 1 else 0
  }

  lemma {:induction false} EqualSignsAppend(a: string, b: string)
    ensures EqualSigns(a + b) == EqualSigns(a) + EqualSigns(b)
  {
    if b == "" {
      assert a + b == a;
    } else {
      assert (a + b)[..|a + b| - 1] == a + b[..|b| - 1];
      EqualSignsAppend(a, b[..|b| - 1]);
    }
  }

  lemma {:induction false} NoEqualSigns(s: string)
    ensures EqualSigns(s) == 0 <==> '=' !in s
  {
    if s != "" {
      NoEqualSigns(s[..|s| - 1]);
      assert s == s[..|s| - 1] + [s[|s| - 1]];
    }
  }

  lemma OneValueSigns(s: string, s': string, a: string, was: string, now: string, b: string)
    requires OneValue(s, s', a, was, now, b) && '=' !in was && '=' !in now
    ensures EqualSigns(s) == EqualSigns(s') && EqualSigns(s) > 0
  {
    hide EqualSigns;
    EqualSignsAppend(a + was, b);
    EqualSignsAppend(a, was);
    EqualSignsAppend(a + now, b);
    EqualSignsAppend(a, now);
    NoEqualSigns(was);
    NoEqualSigns(now);
    NoEqualSigns(a);
    assert a[|a| - 1] in a;
  }

  ghost predicate PlainOld(bumps: seq<Bump>) { forall b | b in bumps :: '=' !in b.was }

  lemma {:induction false} SignsKept(block: string, bumps: seq<Bump>)
    requires TidyBlock(block) && Fits(block, bumps) && PlainOld(bumps) && BumpBlock(block, bumps).Some?
    ensures EqualSigns(BumpBlock(block, bumps).value) == EqualSigns(block)
    ensures BumpBlock(block, bumps).value != block ==> EqualSigns(block) > 0
  {
    hide TidyBlock, Fits, Mentions, OneValue, DebianVersion, Follows, Count, Replace, EqualSigns, PinsOf, ShapedIn, EndsWith;
    if bumps != [] {
      assert bumps[|bumps| - 1] in bumps && forall b | b in bumps[..|bumps| - 1] :: b in bumps;
      FitsPrefix(block, bumps);
      var r := BumpBlock(block, bumps[..|bumps| - 1]).value;
      SignsKept(block, bumps[..|bumps| - 1]);
      BumpsFollow(block, bumps[..|bumps| - 1]);
      if Mentions(r, bumps[|bumps| - 1].package) {
        var a, w := BumpEffect(block, r, bumps);
        VersionIsPlain(bumps[|bumps| - 1].now);
        OneValueSigns(r, BumpOne(r, bumps[|bumps| - 1]).value, a, bumps[|bumps| - 1].was, bumps[|bumps| - 1].now, w);
      }
    }
  }

  lemma LongerTellsApart(s: string, t: string)
    requires IsPrefix(s, t) && s != t && EqualSigns(s) == EqualSigns(t) && EqualSigns(s) > 0
    ensures '=' in s && '=' in t && LastEquals(s) != LastEquals(t)
  {
    hide EqualSigns, LastEquals;
    var more := t[|s|..];
    assert t == s + more;
    EqualSignsAppend(s, more);
    NoEqualSigns(more);
    NoEqualSigns(s);
    LastEqualsBefore(s, more);
  }

  // ----- The second stage, exactly -----

  lemma ElsewhereIsWrong(before: string, arm: string, arm': string, v: string, k: nat)
    requires arm != arm' && EqualSigns(arm) == EqualSigns(arm') && EqualSigns(arm) > 0
    requires k < |before| && Find(before + arm + v, arm) == Some(k)
    ensures ReplaceFirst(before + arm + v, arm, arm') != before + arm' + v
  {
    hide Find, EqualSigns, IsPrefix;
    assert OccursAt(before + arm + v, arm, k);
    OccursMeans(before + arm + v, arm, k);
    if IsPrefix(arm, arm') {
      LongerTellsApart(arm, arm');
      LengthShows(before, arm, arm', v, k);
    } else if IsPrefix(arm', arm) {
      LongerTellsApart(arm', arm);
      LengthShows(before, arm, arm', v, k);
    } else {
      DifferenceShows(before, arm, arm', v, k);
    }
  }

  /** In a laid-out file whose second block is changed by the bumps, the second stage gives the promised
      text exactly when the block's text is first met in the block's own place. */
  lemma SecondStageExactly(u: string, amd: string, between: string, arm: string, v: string, bumps: seq<Bump>)
    requires LaidOut(u, amd, between, arm, v) && TidyBlock(arm) && Fits(arm, bumps) && PlainOld(bumps)
    requires BumpBlock(arm, bumps).Some? && BumpBlock(arm, bumps).value != arm
    ensures BumpArchitecture(u + amd + between + arm + v, "arm64", bumps) == Some(u + amd + between + BumpBlock(arm, bumps).value + v)
      <==> OwnPlace(u + amd + between + arm + v, arm, |u + amd + between|)
  {
    hide Find, LaidOut, TidyBlock, Fits, BumpBlock, ReplaceFirst, Extract, EqualSigns;
    var before, arm' := u + amd + between, BumpBlock(arm, bumps).value;
    SignsKept(arm, bumps);
    ExtractsBlocks(u, amd, between, arm, v);
    OccursInside(before, arm, v);
    FoundBefore(before + arm + v, arm, |before|);
    var k := Find(before + arm + v, arm).value;
    if k < |before| { ElsewhereIsWrong(before, arm, arm', v, k); } else { ReplacesBlock(before, arm, arm', v); }
  }

  /** Where a copy of the second block's text stands before both blocks, the whole rewriting goes wrong:
      whatever it returns is not the promised text. */
  lemma EarlierCopyMisleads(u: string, amd: string, between: string, arm: string, v: string, bumps: seq<Bump>, k: nat)
    requires LaidOut(u, amd, between, arm, v) && TidyBlock(amd) && TidyBlock(arm) && Fits(amd, bumps) && Fits(arm, bumps)
    requires PlainOld(bumps) && OwnPlace(u + amd + between + arm + v, amd, |u|)
    requires BumpBlock(amd, bumps).Some? && BumpBlock(arm, bumps).Some? && BumpBlock(arm, bumps).value != arm
    requires k + |arm| <= |u| && u[k..k + |arm|] == arm && arm != ""
    ensures Bumped(u + amd + between + arm + v, bumps) !=
      Some(u + BumpBlock(amd, bumps).value + between + BumpBlock(arm, bumps).value + v)
  {
    hide Find, LaidOut, TidyBlock, Fits, BumpBlock, BumpArchitecture;
    var amd' := BumpBlock(amd, bumps).value;
    FirstStage(u, amd, between, arm, v, bumps);
    FirstStaysLaidOut(u, amd, between, arm, v, bumps);
    SecondStageExactly(u, amd', between, arm, v, bumps);
    var text := u + amd' + between + arm + v;
    assert text == u + (amd' + between + arm + v);
    TwoParts(u, amd' + between + arm + v);
    assert text[k..k + |arm|] == text[..|u|][k..k + |arm|];
    OccursMeans(text, arm, k);
    FoundBefore(text, arm, k);
  }

  // ----- The place, told from the file as it was -----

  function Key(name: string): string { " " + name + "=" }

  predicate ValueEnds(rest: string) { rest == "" || !VersionChar(rest[0]) }

  predicate ReadsAs(after: string, version: string) { StartsWith(after, version) && ValueEnds(after[|version|..]) }

  /** Wherever the block mentions the package it pins it at the old version. */
  ghost predicate MentionsPlainly(block: string, b: Bump) {
    PackageName(b.package) && DebianVersion(b.was) &&
    forall q | 0 <= q <= |block| && OccursAt(block, Key(b.package), q) :: ReadsAs(block[q + |Key(b.package)|..], b.was)
  }

  ghost predicate PinsPlainly(block: string, bumps: seq<Bump>) { forall b | b in bumps :: MentionsPlainly(block, b) }

  lemma KeyChars(name: string)
    requires PackageName(name)
    ensures Key(name)[0] == ' ' && Key(name)[|name| + 1] == '=' && forall i | 1 <= i < |Key(name)| :: Key(name)[i] != ' '
    ensures forall i | 0 <= i < |name| + 1 :: Key(name)[i] != '='
  {
    NameHasNoEquals(name);
    assert forall i | 1 <= i < |name| + 1 :: Key(name)[i] == name[i - 1];
  }

  /** Where the mention a text ends in begins. */
  lemma SpaceBeforeKey(a: string, name: string)
    requires PackageName(name) && EndsWith(a, Key(name))
    ensures |a| >= |name| + 2 && a[|a| - |name| - 2] == ' ' && a[|a| - 1] == '='
    ensures forall i | |a| - |name| - 1 <= i < |a| :: a[i] != ' '
  {
    KeyChars(name);
    assert a[|a| - |Key(name)|..] == Key(name);
    forall i | |a| - |name| - 1 <= i < |a| ensures a[i] != ' ' { assert a[i] == Key(name)[i - (|a| - |Key(name)|)]; }
    assert a[|a| - |name| - 2] == Key(name)[0];
  }

  /** A text ends in the mention of one package only. */
  lemma KeysDiffer(a: string, y: string, z: string)
    requires PackageName(y) && PackageName(z) && EndsWith(a, Key(y)) && EndsWith(a, Key(z))
    ensures y == z
  {
    hide Key, EndsWith;
    SpaceBeforeKey(a, y);
    SpaceBeforeKey(a, z);
    KeyIs(a, y);
    KeyIs(a, z);
  }

  lemma KeyIs(a: string, y: string)
    requires EndsWith(a, Key(y))
    ensures |a| >= |y| + 2 && a[|a| - |y| - 1..|a| - 1] == y
  {
    assert a[|a| - |Key(y)|..] == Key(y);
    assert Key(y)[1..|y| + 1] == y;
    assert a[|a| - |y| - 1..|a| - 1] == a[|a| - |Key(y)|..][1..|y| + 1];
  }

  /** Two values after the same text: what is read as the old one in both is there in the old text too. */
  lemma SameReading(was: string, now: string, b: string, after: string)
    requires DebianVersion(was) && DebianVersion(now) && ValueEnds(b)
    requires ReadsAs(after, was) && StartsWith(now + b, after)
    ensures StartsWith(was + b, after)
  {
    var rest := after[|was|..];
    assert after == was + rest;
    if rest == "" {
      assert after == was && (was + b)[..|was|] == was;
    } else {
      var s := now + b;
      forall j | 0 <= j < |after| ensures s[j] == after[j] { assert s[..|after|][j] == after[j]; }
      assert s[|was|] == rest[0];
      assert |was| >= |now|;
      assert b != "" ==> s[|now|] == b[0];
      assert |was| <= |now|;
      assert was == now by { assert forall j | 0 <= j < |now| :: s[j] == now[j]; }
    }
  }

  /** A copy of the second block that the rewritten value takes part in was there before. */
  lemma NoNewCopy(a: string, b: string, bump: Bump, arm: string, k: nat)
    requires EndsWith(a, Key(bump.package)) && DebianVersion(bump.now) && ValueEnds(b)
    requires arm != "" && arm[0] == ' ' && MentionsPlainly(arm, bump) && OccursAt(a + bump.now + b, arm, k)
    ensures k < |a| ==> OccursAt(a + bump.was + b, arm, k)
    ensures k >= |a| ==> k >= |a| + |bump.now| && OccursAt(a + bump.was + b, arm, k - |bump.now| + |bump.was|)
  {
    hide MentionsPlainly, Key, StartsWith;
    var s := a + bump.now + b;
    OccursMeans(s, arm, k);
    if k >= |a| {
      VersionIsPlain(bump.now);
      if k < |a| + |bump.now| { InsideValue(a, bump.now, b, arm, k); }
      MatchStays(a, bump.now, bump.was, b, arm, k);
    } else if k + |arm| <= |a| {
      MatchStays(a, bump.now, bump.was, b, arm, k);
    } else {
      CopyAcross(a, b, bump, arm, k);
    }
  }

  lemma PartOf(s: string, arm: string, k: nat, i: nat, j: nat)
    requires k + |arm| <= |s| && s[k..k + |arm|] == arm && i <= j <= |arm|
    ensures arm[i..j] == s[k + i..k + j]
  {
    forall x | i <= x < j ensures arm[x] == s[k + x] { assert s[k..k + |arm|][x] == s[k + x]; }
  }

  lemma TwoParts(a: string, rest: string)
    ensures (a + rest)[..|a|] == a && (a + rest)[|a|..] == rest
  {
  }

  lemma CopyAcross(a: string, b: string, bump: Bump, arm: string, k: nat)
    requires EndsWith(a, Key(bump.package)) && DebianVersion(bump.now) && ValueEnds(b)
    requires arm != "" && arm[0] == ' ' && MentionsPlainly(arm, bump) && OccursAt(a + bump.now + b, arm, k)
    requires k < |a| < k + |arm|
    ensures OccursAt(a + bump.was + b, arm, k)
  {
    hide Key, OccursAt, DebianVersion;
    var key := Key(bump.package);
    var s := a + bump.now + b;
    assert s == a + (bump.now + b);
    TwoParts(a, bump.now + b);
    OccursMeans(s, arm, k);
    StartsAtKey(a, bump.package, arm, k, s);
    var q := |a| - |key| - k;
    PartOf(s, arm, k, q, q + |key|);
    assert s[|a| - |key|..|a|] == s[..|a|][|a| - |key|..];
    OccursMeans(arm, key, q);
    var after := arm[q + |key|..];
    assert ReadsAs(after, bump.was);
    PartOf(s, arm, k, q + |key|, |arm|);
    assert s[|a|..k + |arm|] == s[|a|..][..|after|];
    SameReading(bump.was, bump.now, b, after);
    CopyBack(a, bump.now, bump.was, b, arm, k, after);
  }

  lemma StartsAtKey(a: string, name: string, arm: string, k: nat, s: string)
    requires EndsWith(a, Key(name)) && PackageName(name) && IsPrefix(a, s) && k < |a|
    requires k + |arm| <= |s| && s[k..k + |arm|] == arm && arm != "" && arm[0] == ' '
    ensures k <= |a| - |Key(name)|
  {
    SpaceBeforeKey(a, name);
    assert arm[0] == s[k] == a[k];
  }

  lemma CopyBack(a: string, now: string, was: string, b: string, arm: string, k: nat, after: string)
    requires k < |a| < k + |arm| <= |a + now + b| && (a + now + b)[k..k + |arm|] == arm
    requires after == arm[|a| - k..] && StartsWith(was + b, after)
    ensures OccursAt(a + was + b, arm, k)
  {
    var s, t := a + now + b, a + was + b;
    assert t[|a|..] == was + b && |a| + |after| == k + |arm|;
    assert t[k..k + |arm|] == t[k..|a|] + t[|a|..][..|after|];
    assert arm == arm[..|a| - k] + after && arm[..|a| - k] == s[k..|a|] == t[k..|a|];
    OccursMeans(t, arm, k);
  }

  // ----- Bumping one package leaves the mentions of the others -----

  lemma StaysPlain(r: string, r': string, a: string, w: string, y: Bump, z: Bump)
    requires OneValue(r, r', a, y.was, y.now, w) && EndsWith(a, Key(y.package)) && GoodBump(y)
    requires y.package != z.package && MentionsPlainly(r, z)
    ensures MentionsPlainly(r', z)
  {
    hide Key;
    var key := Key(z.package);
    KeyIsGuarded(z.package, y.now);
    forall q | 0 <= q <= |r'| && OccursAt(r', key, q) ensures ReadsAs(r'[q + |key|..], z.was) {
      NoNewMatch(a, y.was, y.now, w, key, q);
      if q + |key| <= |a| && OccursAt(r, key, q) {
        ReadBefore(r, r', a, w, y, z, q);
      } else {
        var p := q - |y.now| + |y.was|;
        assert r'[q + |key|..] == r[p + |key|..];
      }
    }
  }

  lemma KeyIsGuarded(name: string, now: string)
    requires PackageName(name) && DebianVersion(now)
    ensures Guarded(Key(name), now)
  {
    VersionIsPlain(now);
    KeyChars(name);
  }

  lemma ReadBefore(r: string, r': string, a: string, w: string, y: Bump, z: Bump, q: nat)
    requires OneValue(r, r', a, y.was, y.now, w) && EndsWith(a, Key(y.package)) && GoodBump(y)
    requires y.package != z.package && MentionsPlainly(r, z)
    requires q + |Key(z.package)| <= |a| && OccursAt(r, Key(z.package), q)
    ensures ReadsAs(r'[q + |Key(z.package)|..], z.was)
  {
    var key := Key(z.package);
    var at := q + |key|;
    OccursMeans(r, key, q);
    if at == |a| {
      assert r[..|a|] == a && r[q..at] == r[..|a|][q..] == a[q..];
      KeysDiffer(a, y.package, z.package);
    }
    assert ReadsAs(r[at..], z.was);
    assert r[at..][..|z.was|] == z.was;
    if at + |z.was| > |a| - 1 { assert z.was[|a| - 1 - at] == r[at..][|a| - 1 - at] == a[|a| - 1]; }
    VersionIsPlain(z.was);
    assert at + |z.was| <= |a| - 1;
    assert r'[at..][..|z.was|] == r[at..][..|z.was|];
    assert r'[at..][|z.was|..][0] == r[at..][|z.was|..][0];
  }

  lemma {:induction false} BumpsKeepPlain(block: string, bumps: seq<Bump>, z: Bump)
    requires TidyBlock(block) && Fits(block, bumps) && BumpBlock(block, bumps).Some?
    requires MentionsPlainly(block, z) && forall b | b in bumps :: b.package != z.package
    ensures MentionsPlainly(BumpBlock(block, bumps).value, z)
  {
    hide TidyBlock, Fits, Mentions, MentionsPlainly, OneValue, DebianVersion, Follows, Count, Replace, PinsOf, ShapedIn, EndsWith;
    if bumps != [] {
      assert bumps[|bumps| - 1] in bumps && forall b | b in bumps[..|bumps| - 1] :: b in bumps;
      FitsPrefix(block, bumps);
      var r := BumpBlock(block, bumps[..|bumps| - 1]).value;
      BumpsKeepPlain(block, bumps[..|bumps| - 1], z);
      BumpsFollow(block, bumps[..|bumps| - 1]);
      if Mentions(r, bumps[|bumps| - 1].package) {
        var a, w := BumpEffect(block, r, bumps);
        StaysPlain(r, BumpOne(r, bumps[|bumps| - 1]).value, a, w, bumps[|bumps| - 1], z);
      }
    }
  }

  // ----- The second block stays in its place -----

  /** The value just rewritten ends where the block's text goes on. */
  lemma ValueEndsHere(r: string, a: string, w: string, y: Bump, rest: string)
    requires r == a + y.was + w && EndsWith(a, Key(y.package)) && MentionsPlainly(r, y)
    requires rest != "" && !VersionChar(rest[0])
    ensures ValueEnds(w + rest)
  {
    var key := Key(y.package);
    var q := |a| - |key|;
    assert r[q..q + |key|] == a[|a| - |key|..];
    OccursMeans(r, key, q);
    assert r[q + |key|..] == y.was + w && (y.was + w)[|y.was|..] == w;
  }

  lemma PlaceMoves(a: string, b: string, bump: Bump, arm: string, at: nat)
    requires EndsWith(a, Key(bump.package)) && DebianVersion(bump.now) && ValueEnds(b)
    requires arm != "" && arm[0] == ' ' && MentionsPlainly(arm, bump)
    requires OwnPlace(a + bump.was + b, arm, at) && at >= |a| + |bump.was|
    ensures at - |bump.was| + |bump.now| >= 0 && OwnPlace(a + bump.now + b, arm, at - |bump.was| + |bump.now|)
  {
    hide MentionsPlainly, Key, Find, StartsWith, EndsWith;
    var s, t, to := a + bump.was + b, a + bump.now + b, at - |bump.was| + |bump.now|;
    assert OccursAt(s, arm, at);
    MatchStays(a, bump.was, bump.now, b, arm, at);
    forall j | 0 <= j < to ensures !OccursAt(t, arm, j) {
      if OccursAt(t, arm, j) {
        NoNewCopy(a, b, bump, arm, j);
        FoundBefore(s, arm, if j < |a| then j else j - |bump.now| + |bump.was|);
      }
    }
    FindIsFirst(t, arm, to);
  }

  lemma BetweenStarts(amd: string, between: string, rest: string)
    requires Closes(amd + (between + rest), |amd|) && |between| >= |THEN|
    ensures between[0] == ';'
  {
    var s := amd + (between + rest);
    OccursMeans(s, THEN, |amd|);
    assert s[|amd|] == THEN[0] == between[0];
  }

  /** All that is asked, of the file as it was and of its two blocks. */
  ghost predicate Readable(u: string, amd: string, between: string, arm: string, v: string, bumps: seq<Bump>) {
    && LaidOut(u, amd, between, arm, v) && TidyBlock(amd) && TidyBlock(arm) && Fits(amd, bumps) && Fits(arm, bumps)
    && PinsPlainly(amd, bumps) && PinsPlainly(arm, bumps) && arm != "" && arm[0] == ' '
    && OwnPlace(u + amd + between + arm + v, amd, |u|) && OwnPlace(u + amd + between + arm + v, arm, |u + amd + between|)
  }

  lemma ReadablePrefix(u: string, amd: string, between: string, arm: string, v: string, bumps: seq<Bump>)
    requires Readable(u, amd, between, arm, v, bumps) && bumps != []
    ensures Readable(u, amd, between, arm, v, bumps[..|bumps| - 1])
  {
    hide LaidOut, TidyBlock, Fits, MentionsPlainly, OwnPlace;
    FitsPrefix(amd, bumps);
    FitsPrefix(arm, bumps);
  }

  lemma {:induction false} PlaceKept(u: string, amd: string, between: string, arm: string, v: string, bumps: seq<Bump>)
    requires Readable(u, amd, between, arm, v, bumps) && BumpBlock(amd, bumps).Some?
    ensures OwnPlace(u + BumpBlock(amd, bumps).value + between + arm + v, arm, |u + BumpBlock(amd, bumps).value + between|)
  {
    hide Readable, OwnPlace, BumpOne;
    if bumps == [] {
      assert OwnPlace(u + amd + between + arm + v, arm, |u + amd + between|) by { NoBumpsPlace(u, amd, between, arm, v); }
    } else {
      ReadablePrefix(u, amd, between, arm, v, bumps);
      PlaceKept(u, amd, between, arm, v, bumps[..|bumps| - 1]);
      NextPlace(u, amd, between, arm, v, bumps);
    }
  }

  lemma NoBumpsPlace(u: string, amd: string, between: string, arm: string, v: string)
    requires Readable(u, amd, between, arm, v, [])
    ensures OwnPlace(u + amd + between + arm + v, arm, |u + amd + between|)
  {
  }

  lemma NextPlace(u: string, amd: string, between: string, arm: string, v: string, bumps: seq<Bump>)
    requires Readable(u, amd, between, arm, v, bumps) && bumps != [] && BumpBlock(amd, bumps).Some?
    requires var r := BumpBlock(amd, bumps[..|bumps| - 1]).value; OwnPlace(u + r + between + arm + v, arm, |u + r + between|)
    ensures OwnPlace(u + BumpBlock(amd, bumps).value + between + arm + v, arm, |u + BumpBlock(amd, bumps).value + between|)
  {
    hide LaidOut, TidyBlock, Fits, Mentions, MentionsPlainly, OneValue, DebianVersion, Follows, Count, Replace, PinsOf, ShapedIn, OwnPlace, EndsWith;
    var b, r := bumps[|bumps| - 1], BumpBlock(amd, bumps[..|bumps| - 1]).value;
    assert b in bumps;
    FitsPrefix(amd, bumps);
    BumpsFollow(amd, bumps[..|bumps| - 1]);
    if Mentions(r, b.package) {
      var a, w := BumpEffect(amd, r, bumps);
      BumpsKeepPlain(amd, bumps[..|bumps| - 1], b);
      FirstStaysLaidOut(u, amd, between, arm, v, bumps[..|bumps| - 1]);
      MovedPlace(u, r, BumpOne(r, b).value, between, arm, v, a, w, b);
    }
  }

  lemma MovedPlace(u: string, r: string, r': string, between: string, arm: string, v: string, a: string, w: string, b: Bump)
    requires LaidOut(u, r, between, arm, v) && OneValue(r, r', a, b.was, b.now, w) && EndsWith(a, Key(b.package))
    requires MentionsPlainly(r, b) && MentionsPlainly(arm, b) && GoodBump(b) && arm != "" && arm[0] == ' '
    requires OwnPlace(u + r + between + arm + v, arm, |u + r + between|)
    ensures OwnPlace(u + r' + between + arm + v, arm, |u + r' + between|)
  {
    hide MarkerEnds, Closes, MentionsPlainly, DebianVersion, Key, OwnPlace, EndsWith;
    var rest := between + arm + v;
    assert between + (arm + v) == rest;
    BetweenStarts(r, between, arm + v);
    ValueEndsHere(r, a, w, b, rest);
    assert u + r + between + arm + v == (u + a) + b.was + (w + rest);
    assert u + r' + between + arm + v == (u + a) + b.now + (w + rest);
    EndsLater(u, a, Key(b.package));
    PlaceMoves(u + a, w + rest, b, arm, |u + r + between|);
  }

  lemma EndsLater(u: string, a: string, t: string)
    requires EndsWith(a, t)
    ensures EndsWith(u + a, t)
  {
    assert (u + a)[|u + a| - |t|..] == a[|a| - |t|..];
  }

  /** What is asked of the original file is enough: when the rewriter returns, each block parses to its
      old pins overridden by the bumps, and all text outside the blocks is unchanged. */
  lemma BumpingFromTheFile(u: string, amd: string, between: string, arm: string, v: string, bumps: seq<Bump>)
    requires Readable(u, amd, between, arm, v, bumps) && Bumped(u + amd + between + arm + v, bumps).Some?
    ensures Promised(u, amd, between, arm, v, bumps)
    ensures BumpBlock(amd, bumps).Some? && BumpBlock(arm, bumps).Some?
    ensures Bumped(u + amd + between + arm + v, bumps) ==
      Some(u + BumpBlock(amd, bumps).value + between + BumpBlock(arm, bumps).value + v)
    ensures var text, text' := u + amd + between + arm + v, Bumped(u + amd + between + arm + v, bumps).value;
      && ParsePinned(text, "amd64").Some? && ParsePinned(text, "arm64").Some?
      && ParsePinned(text', "amd64") == Some(OverriddenParse(ParsePinned(text, "amd64").value, bumps))
      && ParsePinned(text', "arm64") == Some(OverriddenParse(ParsePinned(text, "arm64").value, bumps))
  {
    hide LaidOut, TidyBlock, Fits, PinsPlainly, BumpBlock, ParsePinned, OwnPlace, BumpArchitecture, OverriddenParse, Bumped;
    if BumpBlock(amd, bumps).Some? { PlaceKept(u, amd, between, arm, v, bumps); }
    BumpingCommutesWithParsing(u, amd, between, arm, v, bumps);
  }
}
