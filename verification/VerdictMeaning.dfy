/** What tools/reconfirmFalsification.py's verdicts mean, told from the texts and the runs. */
module VerdictMeaning {
  import opened Numerals
  import opened Text
  import opened Orders
  import opened Falsification

  // ----- Counting and replacing -----

  ghost predicate Nowhere(s: string, p: string) { forall j: nat :: !Occurs(s, p, j) }

  /** The pieces a text falls into at the pattern, read from the left: before each occurrence
      no earlier one begins, and after the last there is none. */
  ghost predicate CutAt(pieces: seq<string>, p: string) {
    pieces != [] &&
    (forall i, j: nat | 0 <= i < |pieces| - 1 && j < |pieces[i]| :: !Occurs(pieces[i] + p, p, j)) &&
    Nowhere(pieces[|pieces| - 1], p)
  }

  lemma NoOccurrence(s: string, p: string)
    requires Nowhere(s, p)
    ensures Find(s, p).None?
  {
    hide Occurs;
    forall j: nat | j <= |s| ensures !StartsWith(s[j..], p) { OccursIsStart(s, p, j); }
  }

  lemma FirstOccurrence(a: string, p: string, rest: string)
    requires forall j: nat | j < |a| :: !Occurs(a + p, p, j)
    ensures Find(a + p + rest, p) == Some(|a|)
  {
    var s := a + p + rest;
    assert s[|a|..] == p + rest && (p + rest)[..|p|] == p;
    forall j: nat | j < |a| ensures !StartsWith(s[j..], p) {
      OccursIsStart(s, p, j);
      assert !Occurs(a + p, p, j);
      assert s[j..j + |p|] == (a + p)[j..j + |p|];
    }
    FindIs(s, p, |a|);
  }

  lemma CutTail(pieces: seq<string>, p: string)
    requires CutAt(pieces, p) && |pieces| > 1
    ensures CutAt(pieces[1..], p) && forall j: nat | j < |pieces[0]| :: !Occurs(pieces[0] + p, p, j)
  {
    hide Occurs;
    var more := pieces[1..];
    forall i, j: nat | 0 <= i < |more| - 1 && j < |more[i]| ensures !Occurs(more[i] + p, p, j) { assert more[i] == pieces[i + 1]; }
    assert more[|more| - 1] == pieces[|pieces| - 1];
  }

  /** Counting counts the cuts, and a replacement of as many puts the new text at each. */
  lemma {:induction false} CutsAreReplaced(pieces: seq<string>, p: string, r: string)
    requires p != "" && CutAt(pieces, p)
    ensures Count(Join(p, pieces), p) == |pieces| - 1
    ensures ReplaceUpTo(Join(p, pieces), p, r, |pieces| - 1) == Join(r, pieces)
  {
    LastPiece(pieces, p);
    hide Find, CutAt, Occurs;
    var s := Join(p, pieces);
    if |pieces| == 1 {
      NoOccurrence(s, p);
    } else {
      CutTail(pieces, p);
      var a, more := pieces[0], Join(p, pieces[1..]);
      FirstOccurrence(a, p, more);
      assert s == a + p + more && s[..|a|] == a && s[|a| + |p|..] == more;
      CutsAreReplaced(pieces[1..], p, r);
    }
  }

  lemma LastPiece(pieces: seq<string>, p: string)
    requires CutAt(pieces, p)
    ensures pieces != [] && Nowhere(pieces[|pieces| - 1], p)
  {
  }

  /** Every text falls into such pieces. */
  lemma {:induction false} CutUp(s: string, p: string) returns (pieces: seq<string>)
    requires p != ""
    ensures CutAt(pieces, p) && s == Join(p, pieces)
    decreases |s|
  {
    hide CutAt;
    var k := Find(s, p);
    if k.None? {
      forall j: nat ensures !Occurs(s, p, j) { if j <= |s| { OccursIsStart(s, p, j); } }
      pieces := [s];
      OnePiece(s, p);
    } else {
      var a, rest := s[..k.value], s[k.value + |p|..];
      assert StartsWith(s[k.value..], p) && s[k.value..][..|p|] == s[k.value..k.value + |p|];
      assert s == a + p + rest;
      forall j: nat | j < |a| ensures !Occurs(a + p, p, j) {
        OccursIsStart(s, p, j);
        if j + |p| <= |a + p| { assert s[j..j + |p|] == (a + p)[j..j + |p|]; }
      }
      var more := CutUp(rest, p);
      pieces := [a] + more;
      MorePieces(a, more, p);
      assert pieces[1..] == more;
    }
  }

  lemma OnePiece(s: string, p: string)
    requires Nowhere(s, p)
    ensures CutAt([s], p)
  {
  }

  lemma MorePieces(a: string, more: seq<string>, p: string)
    requires CutAt(more, p) && forall j: nat | j < |a| :: !Occurs(a + p, p, j)
    ensures CutAt([a] + more, p) && |more| >= 1
  {
    hide Occurs;
    var pieces := [a] + more;
    forall i, j: nat | 0 <= i < |pieces| - 1 && j < |pieces[i]| ensures !Occurs(pieces[i] + p, p, j) {
      if i > 0 { assert pieces[i] == more[i - 1]; }
    }
    assert pieces[|pieces| - 1] == more[|more| - 1];
  }

  // ----- Verdicts -----

  /** The entry's old text stands somewhere in its source. */
  predicate Present(e: Entry, text: string) { exists j: nat :: j <= |text| && Occurs(text, e.old_, j) }

  /** The test passed on the texts as they are: it ended in time with code 0 and was not skipped. */
  predicate Clean(r: RunResult) { r.Finished? && r.timedOut == false && r.code == 0 && r.skipped == false }

  /** The entry is sound, its mutant parses, and its test was not seen failing before: the
      mutated run takes place. */
  ghost predicate Tried(e: Entry, texts: map<string, string>, knownGood: bool, parses: string -> bool, world: World)
    requires e.source in texts
  {
    var text := texts[e.source];
    Present(e, text) && Count(text, e.old_) == e.expected && parses(Mutated(e, text)) &&
    (knownGood || Clean(world(e.nodeId, texts)))
  }

  ghost function MutatedRun(e: Entry, texts: map<string, string>, world: World): RunResult
    requires e.source in texts
  {
    world(e.nodeId, texts[e.source := Mutated(e, texts[e.source])])
  }

  lemma PresentIsFound(e: Entry, text: string)
    ensures Present(e, text) <==> Find(text, e.old_).Some?
  {
    hide Occurs;
    forall j: nat | j <= |text| ensures Occurs(text, e.old_, j) <==> StartsWith(text[j..], e.old_) { OccursIsStart(text, e.old_, j); }
  }

  /** The verdicts about the mutated run: each says exactly how that run ended. */
  lemma RunVerdictsMean(e: Entry, texts: map<string, string>, knownGood: bool, parses: string -> bool, world: World)
    requires e.source in texts
    ensures var s, r := StatusOf(e, texts, knownGood, parses, world), MutatedRun(e, texts, world);
      var tried := Tried(e, texts, knownGood, parses, world);
      (s.Killed? <==> tried && r.Finished? && !r.timedOut && r.code == 1 && r.verdict.CallFailed?) &&
      (s.Survived? <==> tried && r.Finished? && !r.timedOut && r.code == 0 && !r.skipped) &&
      (s.Skipped? <==> tried && r.Finished? && !r.timedOut && r.code == 0 && r.skipped) &&
      (s.TimedOut? <==> tried && r.Finished? && r.timedOut) &&
      (s.NotInCallPhase? <==> tried && r.Finished? && !r.timedOut && r.code != 0 && !(r.code == 1 && r.verdict.CallFailed?))
  {
    hide Find, Count, ReplaceUpTo, Present;
    PresentIsFound(e, texts[e.source]);
  }

  /** The verdicts given without a mutated run. */
  lemma EarlyVerdictsMean(e: Entry, texts: map<string, string>, knownGood: bool, parses: string -> bool, world: World)
    requires e.source in texts
    ensures var s, text, clean := StatusOf(e, texts, knownGood, parses, world), texts[e.source], world(e.nodeId, texts);
      var sound := Present(e, text) && Count(text, e.old_) == e.expected;
      (s.OldTextAbsent? <==> !Present(e, text)) &&
      (forall n :: s == WrongCount(n) <==> Present(e, text) && n == Count(text, e.old_) != e.expected) &&
      (s.DoesNotParse? <==> sound && !parses(Mutated(e, text))) &&
      (s.NotCleanBefore? <==> sound && parses(Mutated(e, text)) && !knownGood && clean.Finished? && !Clean(clean)) &&
      (s.Propagated? <==>
        (sound && parses(Mutated(e, text)) && !knownGood && clean.Raised?) ||
        (Tried(e, texts, knownGood, parses, world) && MutatedRun(e, texts, world).Raised?))
  {
    hide Find, Count, ReplaceUpTo, Present;
    PresentIsFound(e, texts[e.source]);
  }

  // ----- The cache -----

  /** What a cached compilation makes of a later import: another text than the file's runs
      exactly when the texts differ, and stamps and lengths agree in their last 32 bits. */
  lemma StaleExactly(a: string, m: nat, b: string, n: nat)
    ensures Executed(None, File(b, n)) == b
    ensures Executed(Some(Compile(File(a, m))), File(b, n)) != b <==>
      a != b && m % 0x1_0000_0000 == n % 0x1_0000_0000 && |a| % 0x1_0000_0000 == |b| % 0x1_0000_0000
  {
  }
}
