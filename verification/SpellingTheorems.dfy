/** The conversion fixes every known word outside code, once and for all. */
module SpellingTheorems {
  import opened Numerals
  import opened Text
  import opened Spelling

  // ----- The loop over the located words -----

  function Assemble(text: string, cursor: nat, hits: seq<Hit>, v: Vocabulary): string
    requires cursor <= |text|
    decreases |hits|
  {
    if hits == [] then text[cursor..]
    else if Known(hits[0], text, v) && cursor <= hits[0].start then
      text[cursor..hits[0].start] + Located(text, hits[0], v).american + Assemble(text, hits[0].end, hits[1..], v)
    else text[cursor..]
  }

  ghost predicate InOrder(text: string, cursor: nat, hits: seq<Hit>, v: Vocabulary)
    decreases |hits|
  {
    hits == [] || (Known(hits[0], text, v) && cursor <= hits[0].start && InOrder(text, hits[0].end, hits[1..], v))
  }

  lemma {:induction false} HitsInOrder(text: string, offset: nat, v: Vocabulary)
    requires offset <= |text|
    ensures InOrder(text, offset, HitsOf(Tokens(text[offset..]), offset, v), v)
    decreases |text| - offset
  {
    hide Tokens, SpanLength, FirstLength, InOrder, HitsOf;
    var s := text[offset..];
    if s != [] {
      assert s[FirstLength(s)..] == text[offset + FirstLength(s)..];
      HitsInOrder(text, offset + FirstLength(s), v);
      HitsInOrderStep(text, offset, v);
    } else {
      NoHits(text, offset, v);
    }
  }

  lemma HitsInOrderStep(text: string, offset: nat, v: Vocabulary)
    requires offset < |text|
    requires var s := text[offset..]; var n := FirstLength(s);
      InOrder(text, offset + n, HitsOf(Tokens(s[n..]), offset + n, v), v)
    ensures InOrder(text, offset, HitsOf(Tokens(text[offset..]), offset, v), v)
  {
    hide Tokens, SpanLength, FirstLength, InOrder, HitsOf;
    var s := text[offset..];
    var n := FirstLength(s);
    assert s[..n] == text[offset..offset + n];
    TokensStep(s);
    HitsStep(Tokens(s)[0], Tokens(s[n..]), offset, v);
    InOrderStep(text, offset, n, HitsOf(Tokens(s[n..]), offset + n, v), v);
  }

  lemma NoHits(text: string, cursor: nat, v: Vocabulary)
    ensures HitsOf(Tokens([]), cursor, v) == [] && InOrder(text, cursor, [], v)
  {
  }

  lemma InOrderStep(text: string, offset: nat, n: nat, later: seq<Hit>, v: Vocabulary)
    requires offset < offset + n <= |text| && InOrder(text, offset + n, later, v)
    ensures InOrder(text, offset, [] + later, v)
    ensures LowerAll(text[offset..offset + n]) in v ==> InOrder(text, offset, [Hit(offset, offset + n)] + later, v)
  {
    assert [] + later == later;
    InOrderEarlier(text, offset, offset + n, later, v);
    assert ([Hit(offset, offset + n)] + later)[1..] == later;
  }

  lemma InOrderEarlier(text: string, a: nat, b: nat, hits: seq<Hit>, v: Vocabulary)
    requires a <= b && InOrder(text, b, hits, v)
    ensures InOrder(text, a, hits, v)
  {
  }

  function FirstLength(s: string): (n: nat)
    requires s != []
    ensures 1 <= n <= |s|
  {
    if SpanLength(s).Some? then SpanLength(s).value else if IsWord(s[0]) then RunLength(s) else 1
  }

  lemma TokensStep(s: string)
    requires s != []
    ensures Tokens(s) != [] && Tokens(s) == [Tokens(s)[0]] + Tokens(s[FirstLength(s)..])
    ensures TextOf(Tokens(s)[0]) == s[..FirstLength(s)]
  {
    assert s[..1] == [s[0]];
  }

  lemma {:induction false} AssembleIsConverted(text: string, cursor: nat, offset: nat, v: Vocabulary)
    requires cursor <= offset <= |text|
    ensures Assemble(text, cursor, HitsOf(Tokens(text[offset..]), offset, v), v)
            == text[cursor..offset] + Converted(text[offset..], v)
    decreases |text| - offset
  {
    hide Tokens, SpanLength, Assemble, HitsOf, Converted;
    var s := text[offset..];
    if s != [] {
      var n := FirstLength(s);
      TokensStep(s);
      var fixed := Tokens(s)[0].Run? && LowerAll(Tokens(s)[0].text) in v;
      AssembleIsConverted(text, if fixed then offset + n else cursor, offset + n, v);
      AssembleToken(text, cursor, offset, v);
    } else {
      NothingToAssemble(text, cursor, v);
      assert text[cursor..] == text[cursor..offset];
    }
  }

  /** One token further: the rest is assembled from behind a fixed word, or from the same cursor. */
  lemma AssembleToken(text: string, cursor: nat, offset: nat, v: Vocabulary)
    requires cursor <= offset < |text| && Tokens(text[offset..]) != []
    requires var s := text[offset..]; var n := FirstLength(s);
      var from := if Tokens(s)[0].Run? && LowerAll(Tokens(s)[0].text) in v then offset + n else cursor;
      Assemble(text, from, HitsOf(Tokens(text[offset + n..]), offset + n, v), v) == text[from..offset + n] + Converted(text[offset + n..], v)
    ensures Assemble(text, cursor, HitsOf(Tokens(text[offset..]), offset, v), v)
            == text[cursor..offset] + Converted(text[offset..], v)
  {
    hide Tokens, SpanLength, Assemble, HitsOf, Converted, LowerAll, MatchCase, FirstLength;
    var s := text[offset..];
    TokensStep(s);
    var n := FirstLength(s);
    var t := Tokens(s)[0];
    var later := HitsOf(Tokens(s[n..]), offset + n, v);
    assert s[n..] == text[offset + n..] && s[..n] == text[offset..offset + n];
    HitsStep(t, Tokens(s[n..]), offset, v);
    ConvertedStep(s, v);
    if t.Run? && LowerAll(t.text) in v {
      AssembleHit(text, cursor, offset, n, later, v);
      assert text[offset + n..offset + n] == [];
      Regroup(text[cursor..offset], TextOf(Fix(t, v)), Converted(s[n..], v));
    } else {
      assert [] + later == later;
      assert text[cursor..offset + n] == text[cursor..offset] + s[..n];
      Regroup(text[cursor..offset], s[..n], Converted(s[n..], v));
    }
  }

  lemma Regroup(a: string, b: string, c: string)
    ensures a + b + c == a + (b + c) && [] + c == c
  {
  }

  lemma NothingToAssemble(text: string, cursor: nat, v: Vocabulary)
    requires cursor <= |text|
    ensures Assemble(text, cursor, HitsOf(Tokens([]), |text|, v), v) == text[cursor..]
    ensures Converted([], v) == []
  {
  }

  lemma AssembleHit(text: string, cursor: nat, offset: nat, n: nat, later: seq<Hit>, v: Vocabulary)
    requires cursor <= offset < offset + n <= |text| && LowerAll(text[offset..offset + n]) in v
    ensures Assemble(text, cursor, [Hit(offset, offset + n)] + later, v) ==
      text[cursor..offset] + MatchCase(v[LowerAll(text[offset..offset + n])], text[offset..offset + n])
      + Assemble(text, offset + n, later, v)
  {
    hide LowerAll, MatchCase;
    var hits := [Hit(offset, offset + n)] + later;
    assert hits[1..] == later && Known(hits[0], text, v);
  }

  lemma ConvertedStep(s: string, v: Vocabulary)
    requires s != []
    ensures Converted(s, v) == TextOf(Fix(Tokens(s)[0], v)) + Converted(s[FirstLength(s)..], v)
  {
    hide Tokens, SpanLength, Fix;
    var rest := Tokens(s[FirstLength(s)..]);
    TokensStep(s);
    assert Tokens(s)[1..] == rest;
  }

  ghost predicate Locates(locations: seq<Location>, hits: seq<Hit>, text: string, v: Vocabulary) {
    |locations| == |hits| &&
    forall i | 0 <= i < |hits| :: Known(hits[i], text, v) && locations[i] == Located(text, hits[i], v)
  }

  /** `_flistLocateBritishSpellings` */
  method LocateBritishSpellings(text: string, words: seq<string>, v: Vocabulary) returns (locations: seq<Location>)
    requires Closed(v) && Lists(words, v)
    ensures Locates(locations, HitsOf(Tokens(text), 0, v), text, v)
    ensures InOrder(text, 0, HitsOf(Tokens(text), 0, v), v)
  {
    var hits := FindIter(false, Mask(text), 0, words);
    FindIterIsWholeWords(false, text, 0, words, v);
    assert text[0..] == text;
    HitsInOrder(text, 0, v);
    AllKnown(text, 0, hits, v);
    locations := [];
    for i := 0 to |hits|
      invariant |locations| == i && forall j | 0 <= j < i :: locations[j] == Located(text, hits[j], v)
    {
      var found := text[hits[i].start..hits[i].end];
      locations := locations + [Location(hits[i].start, hits[i].end, found, MatchCase(v[LowerAll(found)], found))];
    }
  }

  lemma {:induction false} AllKnown(text: string, cursor: nat, hits: seq<Hit>, v: Vocabulary)
    requires InOrder(text, cursor, hits, v)
    ensures forall i | 0 <= i < |hits| :: Known(hits[i], text, v)
    ensures forall i, j | 0 <= i < j < |hits| :: hits[i].end <= hits[j].start
    ensures forall i | 0 <= i < |hits| :: cursor <= hits[i].start
    decreases |hits|
  {
    if hits != [] {
      AllKnown(text, hits[0].end, hits[1..], v);
      forall i, j | 0 <= i < j < |hits| ensures hits[i].end <= hits[j].start {
        assert hits[j] == hits[1..][j - 1];
        if i > 0 { assert hits[i] == hits[1..][i - 1]; }
      }
    }
  }

  /** `fsConvertTextToAmericanSpelling`: pieces between the located words are copied. */
  method ConvertText(text: string, words: seq<string>, v: Vocabulary) returns (r: string)
    requires Closed(v) && Lists(words, v)
    ensures r == Converted(text, v)
  {
    hide Tokens, SpanLength, HitsOf, Converted, Assemble, Closed, Lists;
    var locations := LocateBritishSpellings(text, words, v);
    ghost var hits := HitsOf(Tokens(text), 0, v);
    AllKnown(text, 0, hits, v);
    var pieces: seq<string>, cursor: nat := [], 0;
    Beginning(text, hits, v);
    for i := 0 to |locations|
      invariant cursor <= |text| && (i < |hits| ==> cursor <= hits[i].start)
      invariant Flatten(pieces) + Assemble(text, cursor, hits[i..], v) == Converted(text, v)
    {
      var l := locations[i];
      AssembleStep(text, cursor, hits, i, v);
      FlattenTwo(pieces, text[cursor..l.start], l.american);
      Regroup(Flatten(pieces), text[cursor..l.start] + l.american, Assemble(text, l.end, hits[i + 1..], v));
      Regroup(Flatten(pieces), text[cursor..l.start], l.american);
      pieces := pieces + [text[cursor..l.start], l.american];
      cursor := l.end;
    }
    Ending(text, cursor, hits, v);
    FlattenTwo(pieces, text[cursor..], []);
    r := Flatten(pieces + [text[cursor..], []]);
  }

  lemma Beginning(text: string, hits: seq<Hit>, v: Vocabulary)
    requires hits == HitsOf(Tokens(text), 0, v)
    ensures Flatten([]) + Assemble(text, 0, hits[0..], v) == Converted(text, v)
  {
    hide Tokens, HitsOf, Assemble, Converted;
    assert text[0..] == text && hits[0..] == hits;
    AssembleIsConverted(text, 0, 0, v);
  }

  lemma Ending(text: string, cursor: nat, hits: seq<Hit>, v: Vocabulary)
    requires cursor <= |text|
    ensures Assemble(text, cursor, hits[|hits|..], v) == text[cursor..]
  {
  }

  lemma AssembleStep(text: string, cursor: nat, hits: seq<Hit>, i: nat, v: Vocabulary)
    requires i < |hits| && Known(hits[i], text, v) && cursor <= hits[i].start
    ensures Assemble(text, cursor, hits[i..], v) ==
      (text[cursor..hits[i].start] + Located(text, hits[i], v).american) + Assemble(text, hits[i].end, hits[i + 1..], v)
  {
    assert hits[i..][0] == hits[i] && hits[i..][1..] == hits[i + 1..];
  }

  lemma FlattenTwo(pieces: seq<string>, a: string, b: string)
    ensures Flatten(pieces + [a, b]) == Flatten(pieces) + a + b
  {
    FlattenAppend(pieces, [a, b]);
    assert [a, b][1..] == [b] && [b][1..] == [];
    assert Flatten([b]) == b;
  }

  // ----- The skeleton of backticks and newlines -----

  predicate IsPlain(c: char) { c != '`' && c != '\n' }

  /** Every maximal run of plain characters becomes one dot; `inRun` says we are inside one. */
  function Skeleton(s: string, inRun: bool): string {
    if s == [] then []
    else if IsPlain(s[0]) then if inRun then Skeleton(s[1..], true) else ['.'] + Skeleton(s[1..], true)
    else [s[0]] + Skeleton(s[1..], false)
  }

  predicate EndsPlain(s: string, inRun: bool) { if s == [] then inRun else IsPlain(s[|s| - 1]) }

  lemma {:induction false} SkeletonAppend(a: string, b: string, inRun: bool)
    ensures Skeleton(a + b, inRun) == Skeleton(a, inRun) + Skeleton(b, EndsPlain(a, inRun))
  {
    if a == [] {
      assert a + b == b;
    } else {
      hide IsPlain, Skeleton, EndsPlain;
      assert (a + b)[0] == a[0] && (a + b)[1..] == a[1..] + b;
      SkeletonAppend(a[1..], b, IsPlain(a[0]));
      EndsPlainFirst(a, inRun);
      SkeletonFirst(a, inRun);
      SkeletonFirst(a + b, inRun);
      Regroup(Skeleton([a[0]], inRun), Skeleton(a[1..], IsPlain(a[0])), Skeleton(b, EndsPlain(a, inRun)));
    }
  }

  lemma EndsPlainFirst(a: string, inRun: bool)
    requires a != []
    ensures EndsPlain(a[1..], IsPlain(a[0])) == EndsPlain(a, inRun)
  {
    hide IsPlain;
  }

  /** What the first character contributes to the skeleton. */
  lemma SkeletonFirst(s: string, inRun: bool)
    requires s != []
    ensures Skeleton(s, inRun) == Skeleton([s[0]], inRun) + Skeleton(s[1..], IsPlain(s[0]))
  {
    hide IsPlain;
    assert [s[0]][1..] == [];
  }

  lemma {:induction false} PlainSkeleton(a: string, inRun: bool)
    requires a != [] && forall i | 0 <= i < |a| :: IsPlain(a[i])
    ensures Skeleton(a, inRun) == if inRun then [] else ['.']
  {
    if |a| > 1 { PlainSkeleton(a[1..], true); }
  }

  predicate HasFence(s: string) { Find(s, FENCE).Some? }

  lemma FenceHere(s: string)
    ensures StartsWith(s, FENCE) <==> |s| >= 3 && s[0] == '`' && s[1] == '`' && s[2] == '`'
  {
    if |s| >= 3 && s[0] == '`' && s[1] == '`' && s[2] == '`' { assert s[..3] == FENCE; }
    if StartsWith(s, FENCE) { assert s[..3][0] == FENCE[0] && s[..3][1] == FENCE[1] && s[..3][2] == FENCE[2]; }
  }

  lemma HasFenceStep(s: string)
    ensures HasFence(s) <==> StartsWith(s, FENCE) || (s != [] && HasFence(s[1..]))
  {
    assert s[0..] == s;
  }

  lemma SkeletonFenceHere(s: string)
    ensures StartsWith(s, FENCE) <==> StartsWith(Skeleton(s, false), FENCE)
    ensures StartsWith(s, FENCE) ==> Skeleton(s, false)[3..] == Skeleton(s[3..], false)
  {
    var k := Skeleton(s, false);
    FenceHere(s);
    FenceHere(k);
    FirstOfSkeleton(s);
    if s != [] && s[0] == '`' {
      assert k[1..] == Skeleton(s[1..], false);
      FirstOfSkeleton(s[1..]);
      if |s| >= 2 && s[1] == '`' {
        assert k[2..] == Skeleton(s[1..], false)[1..] == Skeleton(s[2..], false);
        FirstOfSkeleton(s[2..]);
        if |s| >= 3 && s[2] == '`' {
          assert k[3..] == Skeleton(s[2..], false)[1..] == Skeleton(s[3..], false);
        }
      }
    }
  }

  lemma {:induction false} SkeletonFence(s: string, inRun: bool)
    ensures HasFence(s) <==> HasFence(Skeleton(s, inRun))
  {
    HasFenceStep(s);
    if s == [] {
    } else if IsPlain(s[0]) {
      SkeletonFence(s[1..], true);
      FenceHere(s);
      if !inRun {
        var k := Skeleton(s, inRun);
        assert k[1..] == Skeleton(s[1..], true);
        FenceHere(k);
        HasFenceStep(k);
      }
    } else {
      SkeletonFence(s[1..], false);
      var k := Skeleton(s, inRun);
      assert k == Skeleton(s, false) && k[1..] == Skeleton(s[1..], false);
      SkeletonFenceHere(s);
      HasFenceStep(k);
    }
  }

  predicate HasInline(s: string) {
    s != [] && s[0] == '`' &&
    var k := PlainRun(s[1..]); k >= 1 && 1 + k < |s| && s[1 + k] == '`'
  }

  lemma SpanCases(s: string)
    ensures SpanLength(s).Some? <==> (StartsWith(s, FENCE) && HasFence(s[3..])) || HasInline(s)
  {
  }

  /** After a run of plain characters the skeleton continues where the text does. */
  lemma {:induction false} SkeletonAfterRun(u: string)
    ensures Skeleton(u, true) == Skeleton(u[PlainRun(u)..], false)
  {
    if u != [] && IsPlain(u[0]) {
      SkeletonAfterRun(u[1..]);
      assert u[PlainRun(u)..] == u[1..][PlainRun(u[1..])..];
    }
  }

  lemma SkeletonInline(s: string)
    ensures HasInline(s) <==> HasInline(Skeleton(s, false))
  {
    if s != [] && s[0] == '`' {
      var u := s[1..];
      assert Skeleton(s, false)[1..] == Skeleton(u, false);
      if u != [] && IsPlain(u[0]) {
        InlineRun(s);
      } else {
        FirstOfSkeleton(u);
      }
    }
  }

  lemma InlineRun(s: string)
    requires |s| >= 2 && s[0] == '`' && IsPlain(s[1])
    ensures HasInline(s) <==> HasInline(Skeleton(s, false))
  {
    var u := s[1..];
    var w := u[PlainRun(u)..];
    AfterPlainRun(u);
    SkeletonAfterRun(u[1..]);
    assert u[1..][PlainRun(u[1..])..] == w;
    var k := Skeleton(s, false);
    assert k[1..] == Skeleton(u, false) == ['.'] + Skeleton(u[1..], true);
    assert s[1 + PlainRun(u)..] == w;
    FirstOfSkeleton(w);
    assert k[1..][1..] == Skeleton(w, false);
    assert PlainRun(k[1..]) == 1 + PlainRun(Skeleton(w, false));
    assert w != [] ==> w[0] == s[1 + PlainRun(u)];
    assert k[2..] == Skeleton(w, false);
  }

  lemma FirstOfSkeleton(w: string)
    ensures w == [] <==> Skeleton(w, false) == []
    ensures w != [] && !IsPlain(w[0]) ==> Skeleton(w, false)[0] == w[0]
    ensures w != [] && IsPlain(w[0]) ==> Skeleton(w, false)[0] == '.'
  {
  }

  lemma {:induction false} AfterPlainRun(u: string)
    ensures PlainRun(u) < |u| ==> !IsPlain(u[PlainRun(u)])
  {
    if u != [] && IsPlain(u[0]) { AfterPlainRun(u[1..]); }
  }

  /** Whether a code span starts here depends only on the skeleton. */
  lemma SpanBySkeleton(s: string, t: string)
    requires Skeleton(s, false) == Skeleton(t, false)
    ensures SpanLength(s).Some? <==> SpanLength(t).Some?
  {
    SpanCases(s);
    SpanCases(t);
    SkeletonInline(s);
    SkeletonInline(t);
    SkeletonFenceHere(s);
    SkeletonFenceHere(t);
    if StartsWith(s, FENCE) {
      SkeletonFence(s[3..], false);
      SkeletonFence(t[3..], false);
    }
  }

  // ----- The conversion keeps the skeleton and the tokens -----

  lemma MatchCaseIsRun(w: string, original: string)
    requires IsLowerWord(w)
    ensures var r := MatchCase(w, original);
      r != [] && (forall i | 0 <= i < |r| :: IsWord(r[i])) && LowerAll(r) == w
  {
    var r := MatchCase(w, original);
    forall i | 0 <= i < |r| ensures IsWord(r[i]) && Lower(r[i]) == w[i] {}
    assert LowerAll(r) == w;
  }

  lemma FixedRun(w: string, v: Vocabulary)
    requires Closed(v) && w != [] && forall i | 0 <= i < |w| :: IsWord(w[i])
    ensures var f := Fix(Run(w), v);
      f.Run? && f.text != [] && (forall i | 0 <= i < |f.text| :: IsWord(f.text[i])) && LowerAll(f.text) !in v
  {
    if LowerAll(w) in v { MatchCaseIsRun(v[LowerAll(w)], w); }
  }

  lemma WordIsPlain(w: string)
    requires forall i | 0 <= i < |w| :: IsWord(w[i])
    ensures forall i | 0 <= i < |w| :: IsPlain(w[i])
  {
  }

  lemma {:induction false} SkeletonKept(s: string, inRun: bool, v: Vocabulary)
    requires Closed(v)
    ensures Skeleton(Converted(s, v), inRun) == Skeleton(s, inRun)
    decreases |s|
  {
    if s != [] {
      var n := FirstLength(s);
      SkeletonKept(s[n..], EndsPlain(s[..n], inRun), v);
      SkeletonStep(s, inRun, v);
    }
  }

  lemma SkeletonStep(s: string, inRun: bool, v: Vocabulary)
    requires Closed(v) && s != []
    requires var n := FirstLength(s); var after := EndsPlain(s[..n], inRun); Skeleton(Converted(s[n..], v), after) == Skeleton(s[n..], after)
    ensures Skeleton(Converted(s, v), inRun) == Skeleton(s, inRun)
  {
    hide Skeleton, Converted, SpanLength, Tokens, Fix, EndsPlain, Closed;
    var n := FirstLength(s);
    TokensStep(s);
    var a, b := s[..n], TextOf(Fix(Tokens(s)[0], v));
    ConvertedStep(s, v);
    FirstTokenKept(s, inRun, v);
    SkeletonAppend(a, s[n..], inRun);
    SkeletonAppend(b, Converted(s[n..], v), inRun);
    assert s == a + s[n..];
  }

  lemma FirstTokenKept(s: string, inRun: bool, v: Vocabulary)
    requires Closed(v) && s != []
    ensures var a, b := s[..FirstLength(s)], TextOf(Fix(Tokens(s)[0], v));
      Skeleton(a, inRun) == Skeleton(b, inRun) && EndsPlain(a, inRun) == EndsPlain(b, inRun)
  {
    var n := FirstLength(s);
    TokensStep(s);
    var t := Tokens(s)[0];
    if t.Run? {
      FixedRun(t.text, v);
      var f := Fix(t, v);
      WordIsPlain(t.text);
      WordIsPlain(f.text);
      PlainSkeleton(t.text, inRun);
      PlainSkeleton(f.text, inRun);
    }
  }

  lemma FirstKindKept(s: string, v: Vocabulary)
    requires Closed(v)
    ensures WordFirst(Converted(s, v)) ==> WordFirst(s)
  {
    if s != [] {
      ConvertedStep(s, v);
      TokensStep(s);
    }
  }

  /** A code span is recognised by its own characters alone. */
  lemma SpanByPrefix(s: string, t: string)
    requires SpanLength(s).Some?
    ensures SpanLength(s[..SpanLength(s).value] + t) == SpanLength(s)
  {
    var n := SpanLength(s).value;
    var u := s[..n] + t;
    assert u[..3] == s[..3];
    if StartsWith(s, FENCE) && Find(s[3..], FENCE).Some? {
      var k := Find(s[3..], FENCE).value;
      FenceByPrefix(s[3..], u[3..], k);
    } else {
      assert PlainRun(s[1..]) >= 1;
      assert !StartsWith(s, FENCE) by { FenceHere(s); }
      RunByPrefix(s[1..], u[1..], n - 2);
    }
  }

  lemma FenceByPrefix(a: string, b: string, k: nat)
    requires Find(a, FENCE) == Some(k) && k + 3 <= |b| && b[..k + 3] == a[..k + 3]
    ensures Find(b, FENCE) == Some(k)
  {
    assert b[k..][..3] == b[..k + 3][k..] == a[k..][..3];
    forall j | 0 <= j < k ensures !StartsWith(b[j..], FENCE) {
      assert b[j..][..3] == b[..k + 3][j..j + 3] == a[j..][..3];
    }
    FindIs(b, FENCE, k);
  }

  lemma {:induction false} RunByPrefix(a: string, b: string, k: nat)
    requires k == PlainRun(a) && k < |a| && k + 1 <= |b| && b[..k + 1] == a[..k + 1]
    ensures PlainRun(b) == k
  {
    assert b[0] == b[..k + 1][0] == a[..k + 1][0] == a[0];
    if k > 0 {
      assert b[1..][..k] == b[..k + 1][1..] == a[..k + 1][1..] == a[1..][..k];
      RunByPrefix(a[1..], b[1..], k - 1);
    }
  }

  lemma {:induction false} RunLengthIs(run: string, rest: string)
    requires (forall i | 0 <= i < |run| :: IsWord(run[i])) && !WordFirst(rest)
    ensures RunLength(run + rest) == |run|
  {
    if run == [] {
      assert run + rest == rest;
    } else {
      assert (run + rest)[1..] == run[1..] + rest;
      RunLengthIs(run[1..], rest);
    }
  }

  /** The converted text has the fixed tokens, token for token. */
  lemma {:induction false} TokensOfConverted(s: string, v: Vocabulary)
    requires Closed(v)
    ensures Tokens(Converted(s, v)) == FixAll(Tokens(s), v)
    decreases |s|
  {
    if s != [] {
      hide Tokens, SpanLength, Converted, FixAll;
      var n := FirstLength(s);
      TokensOfConverted(s[n..], v);
      FirstTokenOfConverted(s, v);
      TokensStep(s);
      FixAllStep(Tokens(s)[0], Tokens(s[n..]), v);
    } else {
      assert Tokens(Converted([], v)) == [];
    }
  }

  lemma FixAllStep(t: Token, ts: seq<Token>, v: Vocabulary)
    ensures FixAll([t] + ts, v) == [Fix(t, v)] + FixAll(ts, v)
  {
    assert ([t] + ts)[1..] == ts;
  }

  lemma FirstTokenOfConverted(s: string, v: Vocabulary)
    requires Closed(v) && s != []
    ensures Tokens(Converted(s, v)) == [Fix(Tokens(s)[0], v)] + Tokens(Converted(s[FirstLength(s)..], v))
  {
    hide Converted;
    var n := FirstLength(s);
    var t, rest, c := Tokens(s)[0], Converted(s[n..], v), Converted(s, v);
    ConvertedStep(s, v);
    SkeletonKept(s, false, v);
    SpanBySkeleton(s, c);
    if SpanLength(s).Some? {
      SpanByPrefix(s, rest);
      assert c == s[..n] + rest;
    } else if IsWord(s[0]) {
      FixedRun(t.text, v);
      FirstKindKept(s[n..], v);
      var f := Fix(t, v).text;
      RunLengthIs(f, rest);
      assert c[..|f|] == f && c[|f|..] == rest;
    } else {
      assert c == [s[0]] + rest;
    }
  }

  // ----- The promises -----

  lemma {:induction false} FixedHasNoHits(ts: seq<Token>, offset: nat, v: Vocabulary)
    requires Closed(v)
    requires forall i | 0 <= i < |ts| && ts[i].Run? :: ts[i].text != [] && forall j | 0 <= j < |ts[i].text| :: IsWord(ts[i].text[j])
    ensures HitsOf(FixAll(ts, v), offset, v) == [] && FixAll(FixAll(ts, v), v) == FixAll(ts, v)
  {
    if ts != [] {
      var f := Fix(ts[0], v);
      if ts[0].Run? { FixedRun(ts[0].text, v); }
      FixedHasNoHits(ts[1..], offset + |TextOf(f)|, v);
      assert FixAll(ts, v)[1..] == FixAll(ts[1..], v);
    }
  }

  lemma {:induction false} RunsAreWords(s: string)
    ensures forall i | 0 <= i < |Tokens(s)| && Tokens(s)[i].Run? ::
      Tokens(s)[i].text != [] && forall j | 0 <= j < |Tokens(s)[i].text| :: IsWord(Tokens(s)[i].text[j])
    decreases |s|
  {
    if s != [] {
      RunsAreWords(s[FirstLength(s)..]);
      TokensStep(s);
      assert Tokens(s)[0].Run? ==> IsWord(s[0]);
    }
  }

  /** Complete: the converted text has no known word left outside code. */
  lemma NothingLeftToFix(s: string, words: seq<string>, v: Vocabulary)
    requires Closed(v) && Lists(words, v)
    ensures FindIter(false, Mask(Converted(s, v)), 0, words) == []
  {
    FindIterIsWholeWords(false, Converted(s, v), 0, words, v);
    TokensOfConverted(s, v);
    RunsAreWords(s);
    FixedHasNoHits(Tokens(s), 0, v);
  }

  lemma WordTokens(w: string)
    requires IsLowerWord(w)
    ensures Tokens(w) == [Run(w)]
  {
    assert w + "" == w;
    RunLengthIs(w, "");
    LetterIsWord(w[0]);
    assert w[..|w|] == w && w[|w|..] == "" && SpanLength(w).None?;
    assert Tokens("") == [];
  }

  /** A replacement that is an entry is left to fix: the converted word is found again. */
  lemma ChainIsFoundAgain(k: string, v: Vocabulary, words: seq<string>)
    requires WordsOnly(v) && Lists(words, v) && k in v && v[k] in v
    ensures FindIter(false, Mask(Converted(k, v)), 0, words) != []
  {
    hide FindIter, Mask, Tokens;
    WordTokens(k);
    WordTokens(v[k]);
    LowerWord(k);
    LowerWord(v[k]);
    assert FixAll([Run(k)], v) == [Run(v[k])];
    OneTokenSpells(v[k]);
    FindIterIsWholeWords(false, v[k], 0, words, v);
    assert HitsOf([Run(v[k])], 0, v)[0] == Hit(0, |v[k]|);
  }

  lemma OneTokenSpells(w: string)
    ensures Spell([Run(w)]) == w
  {
    assert [Run(w)][1..] == [] && w + "" == w;
  }

  lemma LowerWord(w: string)
    requires IsLowerWord(w)
    ensures LowerAll(w) == w && !IsUpperText(w) && MatchCase(w, w) == w
    ensures forall r: string :: MatchCase(r, w) == r
  {
    assert !('A' <= w[0] <= 'Z');
  }

  /** Over all texts nothing is left to fix exactly when no replacement is itself an entry. */
  lemma CompleteExactlyWhenClosed(v: Vocabulary, words: seq<string>)
    requires WordsOnly(v) && Lists(words, v)
    ensures (forall s: string :: FindIter(false, Mask(Converted(s, v)), 0, words) == []) <==> Closed(v)
  {
    hide FindIter, Mask, Converted, Lists;
    if Closed(v) {
      forall s: string ensures FindIter(false, Mask(Converted(s, v)), 0, words) == [] { NothingLeftToFix(s, words, v); }
    } else {
      var k :| k in v && v[k] in v;
      ChainIsFoundAgain(k, v, words);
    }
  }

  /** Idempotent: converting again changes nothing. */
  lemma ConversionIsIdempotent(s: string, v: Vocabulary)
    requires Closed(v)
    ensures Converted(Converted(s, v), v) == Converted(s, v)
  {
    TokensOfConverted(s, v);
    RunsAreWords(s);
    FixedHasNoHits(Tokens(s), 0, v);
  }

  lemma {:induction false} NewlinesInSkeleton(s: string, inRun: bool)
    ensures multiset(Skeleton(s, inRun))['\n'] == multiset(s)['\n']
  {
    if s != [] {
      NewlinesInSkeleton(s[1..], IsPlain(s[0]));
      var k := Skeleton(s, inRun);
      assert s == [s[0]] + s[1..];
      if !IsPlain(s[0]) || !inRun { assert k == [k[0]] + Skeleton(s[1..], IsPlain(s[0])); }
    }
  }

  /** The code spans and the number of lines survive the conversion. */
  lemma CodeAndLinesSurvive(s: string, v: Vocabulary)
    requires Closed(v)
    ensures var before, after := Tokens(s), Tokens(Converted(s, v));
      |after| == |before| && forall k | 0 <= k < |before| && (before[k].Code? || after[k].Code?) :: after[k] == before[k]
    ensures multiset(Converted(s, v))['\n'] == multiset(s)['\n']
  {
    TokensOfConverted(s, v);
    SkeletonKept(s, false, v);
    NewlinesInSkeleton(s, false);
    NewlinesInSkeleton(Converted(s, v), false);
  }

  /** A token is changed by the conversion exactly when it is listed. */
  lemma ListedIsChanged(t: Token, v: Vocabulary)
    requires Closed(v)
    ensures Fix(t, v) != t <==> t.Run? && LowerAll(t.text) in v
  {
    hide MatchCase, LowerAll;
    if t.Run? && LowerAll(t.text) in v { MatchCaseIsRun(v[LowerAll(t.text)], t.text); }
  }

  lemma FixFirst(ts: seq<Token>, v: Vocabulary)
    requires ts != []
    ensures FixAll(ts, v) == ts <==> Fix(ts[0], v) == ts[0] && FixAll(ts[1..], v) == ts[1..]
  {
    hide Fix;
    var f := FixAll(ts, v);
    assert f[0] == Fix(ts[0], v) && f[1..] == FixAll(ts[1..], v);
    assert ts == [ts[0]] + ts[1..] && f == [f[0]] + f[1..];
  }

  lemma {:induction false} NoHitsNoChange(ts: seq<Token>, offset: nat, v: Vocabulary)
    requires Closed(v)
    ensures HitsOf(ts, offset, v) == [] <==> FixAll(ts, v) == ts
  {
    hide Fix, FixAll, LowerAll, Closed;
    if ts != [] {
      NoHitsNoChange(ts[1..], offset + |TextOf(ts[0])|, v);
      FixFirst(ts, v);
      ListedIsChanged(ts[0], v);
    } else {
      NothingToFix(v);
    }
  }

  lemma NothingToFix(v: Vocabulary)
    ensures FixAll([], v) == []
  {
  }

  /** The report is empty exactly when the rewrite would change nothing. */
  lemma ReportMatchesRewrite(s: string, words: seq<string>, v: Vocabulary)
    requires Closed(v) && Lists(words, v)
    ensures FindIter(false, Mask(s), 0, words) == [] <==> Converted(s, v) == s
  {
    FindIterIsWholeWords(false, s, 0, words, v);
    NoHitsNoChange(Tokens(s), 0, v);
    SpellTokens(s);
    if Converted(s, v) == s { TokensOfConverted(s, v); }
  }
}
