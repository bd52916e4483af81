/** tools/checkAmericanSpelling.py: masking code spans and rewriting whole words. */
module Spelling {
  import opened Numerals
  import opened Text

  /** British word to American word, all lower case. */
  type Vocabulary = map<string, string>

  predicate IsLetter(c: char) { 'a' <= Lower(c) <= 'z' }

  /** `\w` on ASCII text. */
  predicate IsWord(c: char) { IsLetter(c) || IsDigit(c) || c == '_' }

  predicate IsLowerWord(s: string) { s != [] && forall i | 0 <= i < |s| :: 'a' <= s[i] <= 'z' }

  /** Every entry and every replacement is a lower-case word. */
  predicate WordsOnly(v: Vocabulary) { forall k | k in v :: IsLowerWord(k) && IsLowerWord(v[k]) }

  /** Besides, no replacement is itself an entry. */
  predicate Closed(v: Vocabulary) { WordsOnly(v) && forall k | k in v :: v[k] !in v }

  /** The alternatives of the pattern are the vocabulary's keys, in any order. */
  ghost predicate Lists(words: seq<string>, v: Vocabulary) {
    forall w :: w in words <==> w in v
  }

  // ----- Code spans -----

  const FENCE := "```"

  /** How many characters come before the first backtick or newline. */
  function PlainRun(s: string): (n: nat)
    ensures n <= |s|
  {
    if s == [] || s[0] == '`' || s[0] == '\n' then 0 else 1 + PlainRun(s[1..])
  }

  /** The length of the code span at the start of the text, if there is one: a closed
      fence, else an inline span. */
  function SpanLength(s: string): (n: Option<nat>)
    ensures n.Some? ==> 3 <= n.value <= |s| && s[0] == '`'
  {
    if StartsWith(s, FENCE) && Find(s[3..], FENCE).Some? then Some(6 + Find(s[3..], FENCE).value)
    else if s != [] && s[0] == '`' then
      var k := PlainRun(s[1..]);
      if k >= 1 && 1 + k < |s| && s[1 + k] == '`' then Some(k + 2) else None
    else None
  }

  function Blank(s: string): (r: string)
    ensures |r| == |s|
    ensures forall i | 0 <= i < |s| :: r[i] == if s[i] == '\n' then '\n' else ' '
  {
    if s == [] then [] else [if s[0] == '\n' then '\n' else ' '] + Blank(s[1..])
  }

  /** `_fsMaskCodeSpans` */
  function Mask(s: string): (r: string)
    ensures |r| == |s|
    decreases |s|
  {
    if s == [] then []
    else if SpanLength(s).Some? then Blank(s[..SpanLength(s).value]) + Mask(s[SpanLength(s).value..])
    else [s[0]] + Mask(s[1..])
  }

  // ----- The pattern \b(word|word|...)\b -----

  predicate WordFirst(s: string) { s != [] && IsWord(s[0]) }

  /** The alternative matches here, letter case ignored, and a word boundary follows. */
  predicate AlternativeMatches(s: string, w: string) {
    w != [] && |w| <= |s| && LowerAll(s[..|w|]) == w && IsWord(s[|w| - 1]) != WordFirst(s[|w|..])
  }

  function FirstAlternative(s: string, words: seq<string>): (r: Option<string>)
    ensures r.Some? ==> r.value in words && AlternativeMatches(s, r.value)
    ensures r.None? ==> forall w | w in words :: !AlternativeMatches(s, w)
  {
    if words == [] then None
    else if AlternativeMatches(s, words[0]) then Some(words[0])
    else FirstAlternative(s, words[1..])
  }

  /** The match at this place; `before` says whether the preceding character is a word character. */
  function MatchAt(before: bool, s: string, words: seq<string>): (r: Option<string>)
    ensures r.Some? ==> AlternativeMatches(s, r.value)
  {
    if before != WordFirst(s) then FirstAlternative(s, words) else None
  }

  datatype Hit = Hit(start: nat, end: nat)

  /** `finditer` on the text that remains at `offset`. */
  function FindIter(before: bool, s: string, offset: nat, words: seq<string>): seq<Hit>
    decreases |s|
  {
    if s == [] then []
    else
      match MatchAt(before, s, words)
      case Some(w) => [Hit(offset, offset + |w|)] + FindIter(IsWord(s[|w| - 1]), s[|w|..], offset + |w|, words)
      case None => FindIter(IsWord(s[0]), s[1..], offset + 1, words)
  }

  // ----- Replacement -----

  predicate IsUpperText(s: string) {
    (exists i :: 0 <= i < |s| && 'A' <= s[i] <= 'Z') && forall i | 0 <= i < |s| :: !('a' <= s[i] <= 'z')
  }

  /** `_fsMatchTheCaseOf` */
  function MatchCase(replacement: string, original: string): string {
    if IsUpperText(original) then UpperAll(replacement)
    else if original != [] && 'A' <= original[0] <= 'Z' && replacement != [] then
      [Upper(replacement[0])] + replacement[1..]
    else replacement
  }

  datatype Location = Location(start: nat, end: nat, found: string, american: string)

  predicate InText(h: Hit, text: string) { h.start < h.end <= |text| }

  predicate Known(h: Hit, text: string, v: Vocabulary) { InText(h, text) && LowerAll(text[h.start..h.end]) in v }

  function Located(text: string, h: Hit, v: Vocabulary): Location
    requires Known(h, text, v)
  {
    var found := text[h.start..h.end];
    Location(h.start, h.end, found, MatchCase(v[LowerAll(found)], found))
  }

  // ----- Tokens: the reference view of a text -----

  datatype Token = Code(text: string) | Run(text: string) | Other(c: char)

  function RunLength(s: string): (n: nat)
    ensures n <= |s| && (WordFirst(s) ==> n >= 1)
    ensures forall i | 0 <= i < n :: IsWord(s[i])
    ensures n < |s| ==> !IsWord(s[n])
  {
    if !WordFirst(s) then 0 else 1 + RunLength(s[1..])
  }

  /** Code spans, maximal runs of word characters, and single other characters. */
  function Tokens(s: string): seq<Token>
    decreases |s|
  {
    if s == [] then []
    else if SpanLength(s).Some? then
      var n := SpanLength(s).value;
      [Code(s[..n])] + Tokens(s[n..])
    else if IsWord(s[0]) then [Run(s[..RunLength(s)])] + Tokens(s[RunLength(s)..])
    else [Other(s[0])] + Tokens(s[1..])
  }

  function TextOf(t: Token): string { if t.Other? then [t.c] else t.text }

  function Spell(ts: seq<Token>): string {
    if ts == [] then [] else TextOf(ts[0]) + Spell(ts[1..])
  }

  /** A whole word of the vocabulary becomes its American form; all else stays. */
  function Fix(t: Token, v: Vocabulary): Token {
    if t.Run? && LowerAll(t.text) in v then Run(MatchCase(v[LowerAll(t.text)], t.text)) else t
  }

  function FixAll(ts: seq<Token>, v: Vocabulary): (r: seq<Token>)
    ensures |r| == |ts|
    ensures forall i | 0 <= i < |ts| :: r[i] == Fix(ts[i], v)
  {
    if ts == [] then [] else [Fix(ts[0], v)] + FixAll(ts[1..], v)
  }

  /** What the conversion should do: fix every whole word outside code. */
  function Converted(s: string, v: Vocabulary): string { Spell(FixAll(Tokens(s), v)) }

  /** The places of the words that need fixing. */
  function HitsOf(ts: seq<Token>, offset: nat, v: Vocabulary): seq<Hit> {
    if ts == [] then []
    else
      var n := |TextOf(ts[0])|;
      (if ts[0].Run? && LowerAll(ts[0].text) in v then [Hit(offset, offset + n)] else [])
      + HitsOf(ts[1..], offset + n, v)
  }

  // ----- The pattern finds exactly the whole words outside code -----

  lemma {:induction false} NoMatchOnOther(before: bool, s: string, words: seq<string>, v: Vocabulary)
    requires WordsOnly(v) && Lists(words, v) && s != [] && !IsWord(s[0])
    ensures MatchAt(before, s, words).None?
  {
    forall w | w in words ensures !AlternativeMatches(s, w) {
      assert w in v;
      if |w| <= |s| { assert LowerAll(s[..|w|])[0] == Lower(s[0]); }
    }
  }

  lemma {:induction false} SkipBlanks(before: bool, blanks: string, rest: string, offset: nat, words: seq<string>, v: Vocabulary)
    requires WordsOnly(v) && Lists(words, v)
    requires forall i | 0 <= i < |blanks| :: !IsWord(blanks[i])
    ensures FindIter(before, blanks + rest, offset, words) ==
            FindIter(if blanks == [] then before else false, rest, offset + |blanks|, words)
  {
    if blanks == [] {
      assert blanks + rest == rest;
    } else {
      NoMatchOnOther(before, blanks + rest, words, v);
      assert (blanks + rest)[1..] == blanks[1..] + rest;
      SkipBlanks(false, blanks[1..], rest, offset + 1, words, v);
    }
  }

  lemma {:induction false} SkipRun(run: string, rest: string, offset: nat, words: seq<string>)
    requires (forall i | 0 <= i < |run| :: IsWord(run[i]))
    ensures FindIter(true, run + rest, offset, words) == FindIter(true, rest, offset + |run|, words)
  {
    if run == [] {
      assert run + rest == rest;
    } else {
      assert (run + rest)[1..] == run[1..] + rest;
      SkipRun(run[1..], rest, offset + 1, words);
    }
  }

  lemma AroundRun(run: string, rest: string, k: nat)
    requires k <= |run + rest| && (forall i | 0 <= i < |run| :: IsWord(run[i]))
    ensures k < |run| ==> WordFirst((run + rest)[k..])
    ensures |run| < k ==> (run + rest)[|run|] == rest[0]
  {
  }

  lemma MatchIsWholeRun(run: string, rest: string, w: string)
    requires IsLowerWord(w) && run != [] && (forall i | 0 <= i < |run| :: IsWord(run[i])) && !WordFirst(rest)
    requires AlternativeMatches(run + rest, w)
    ensures w == LowerAll(run)
  {
    hide IsLetter, LowerAll;
    var s := run + rest;
    forall i | 0 <= i < |w| ensures IsWord(s[i]) {
      assert LowerAll(s[..|w|])[i] == Lower(s[i]) == w[i];
      LetterIsWord(s[i]);
    }
    AroundRun(run, rest, |w|);
    assert |w| == |run|;
    assert s[..|w|] == run;
  }

  lemma LetterIsWord(c: char)
    ensures 'a' <= Lower(c) <= 'z' ==> IsWord(c)
  {
  }

  /** Between word boundaries only the whole run can match, whatever the order of the alternatives. */
  lemma WholeRunOnly(run: string, rest: string, w: string)
    requires IsLowerWord(w) && run != [] && (forall i | 0 <= i < |run| :: IsWord(run[i])) && !WordFirst(rest)
    ensures AlternativeMatches(run + rest, w) <==> w == LowerAll(run)
  {
    if AlternativeMatches(run + rest, w) { MatchIsWholeRun(run, rest, w); }
    assert (run + rest)[..|run|] == run && (run + rest)[|run|..] == rest;
  }

  lemma RunMatch(run: string, rest: string, words: seq<string>, v: Vocabulary)
    requires WordsOnly(v) && Lists(words, v)
    requires run != [] && (forall i | 0 <= i < |run| :: IsWord(run[i])) && !WordFirst(rest)
    ensures MatchAt(false, run + rest, words) == if LowerAll(run) in v then Some(LowerAll(run)) else None
  {
    forall w | w in v ensures AlternativeMatches(run + rest, w) <==> w == LowerAll(run) {
      WholeRunOnly(run, rest, w);
    }
    assert WordFirst(run + rest);
  }

  lemma NoSpanHere(s: string)
    requires s != [] && s[0] != '`'
    ensures SpanLength(s).None? && Mask(s) == [s[0]] + Mask(s[1..])
  {
  }

  lemma {:induction false} MaskRun(run: string, rest: string)
    requires forall i | 0 <= i < |run| :: IsWord(run[i])
    ensures Mask(run + rest) == run + Mask(rest)
  {
    hide Mask, SpanLength;
    if run == [] {
      assert run + rest == rest;
    } else {
      NoSpanHere(run + rest);
      assert (run + rest)[1..] == run[1..] + rest;
      MaskRun(run[1..], rest);
      assert [run[0]] + (run[1..] + Mask(rest)) == run + Mask(rest);
    }
  }

  lemma MaskStart(s: string)
    ensures WordFirst(Mask(s)) ==> WordFirst(s)
  {
  }

  /** The masked search finds the vocabulary's whole words outside code, at their places. */
  lemma {:induction false} FindIterIsWholeWords(before: bool, s: string, offset: nat, words: seq<string>, v: Vocabulary)
    requires WordsOnly(v) && Lists(words, v) && (before ==> !WordFirst(s))
    ensures FindIter(before, Mask(s), offset, words) == HitsOf(Tokens(s), offset, v)
    decreases |s|
  {
    hide FindIter, HitsOf, Mask, Tokens;
    if s == [] {
      NothingToFind(before, offset, words, v);
    } else if SpanLength(s).Some? {
      FindIterIsWholeWords(false, s[SpanLength(s).value..], offset + SpanLength(s).value, words, v);
      FindInCode(before, s, offset, words, v);
    } else if IsWord(s[0]) {
      FindIterIsWholeWords(true, s[RunLength(s)..], offset + RunLength(s), words, v);
      FindInRun(before, s, offset, words, v);
    } else {
      FindIterIsWholeWords(false, s[1..], offset + 1, words, v);
      FindInOther(before, s, offset, words, v);
    }
  }

  lemma FindInCode(before: bool, s: string, offset: nat, words: seq<string>, v: Vocabulary)
    requires WordsOnly(v) && Lists(words, v) && SpanLength(s).Some?
    requires var n := SpanLength(s).value;
      FindIter(false, Mask(s[n..]), offset + n, words) == HitsOf(Tokens(s[n..]), offset + n, v)
    ensures FindIter(before, Mask(s), offset, words) == HitsOf(Tokens(s), offset, v)
  {
    hide FindIter, HitsOf, SpanLength, WordsOnly;
    var n := SpanLength(s).value;
    assert Mask(s) == Blank(s[..n]) + Mask(s[n..]);
    assert Tokens(s) == [Code(s[..n])] + Tokens(s[n..]);
    hide Mask, Tokens;
    SkipBlanks(before, Blank(s[..n]), Mask(s[n..]), offset, words, v);
    HitsStep(Code(s[..n]), Tokens(s[n..]), offset, v);
  }

  lemma FindInRun(before: bool, s: string, offset: nat, words: seq<string>, v: Vocabulary)
    requires WordsOnly(v) && Lists(words, v) && SpanLength(s).None? && WordFirst(s) && !before
    requires var n := RunLength(s);
      FindIter(true, Mask(s[n..]), offset + n, words) == HitsOf(Tokens(s[n..]), offset + n, v)
    ensures FindIter(before, Mask(s), offset, words) == HitsOf(Tokens(s), offset, v)
  {
    hide FindIter, HitsOf, SpanLength;
    RunAtStart(before, s, offset, words, v);
    HitsStep(Run(s[..RunLength(s)]), Tokens(s[RunLength(s)..]), offset, v);
  }

  lemma FindInOther(before: bool, s: string, offset: nat, words: seq<string>, v: Vocabulary)
    requires WordsOnly(v) && Lists(words, v) && SpanLength(s).None? && s != [] && !IsWord(s[0])
    requires FindIter(false, Mask(s[1..]), offset + 1, words) == HitsOf(Tokens(s[1..]), offset + 1, v)
    ensures FindIter(before, Mask(s), offset, words) == HitsOf(Tokens(s), offset, v)
  {
    hide FindIter, HitsOf, SpanLength;
    SkipBlanks(before, [s[0]], Mask(s[1..]), offset, words, v);
    HitsStep(Other(s[0]), Tokens(s[1..]), offset, v);
  }

  lemma NothingToFind(before: bool, offset: nat, words: seq<string>, v: Vocabulary)
    ensures FindIter(before, Mask([]), offset, words) == HitsOf(Tokens([]), offset, v)
  {
  }

  lemma RunAtStart(before: bool, s: string, offset: nat, words: seq<string>, v: Vocabulary)
    requires WordsOnly(v) && Lists(words, v) && WordFirst(s) && !before
    ensures var n := RunLength(s);
      FindIter(before, Mask(s), offset, words) ==
        (if LowerAll(s[..n]) in v then [Hit(offset, offset + n)] else [])
        + FindIter(true, Mask(s[n..]), offset + n, words)
  {
    hide FindIter, Mask, MatchAt, Lists, WordsOnly, LowerAll;
    var n := RunLength(s);
    var run, rest := s[..n], s[n..];
    assert s == run + rest;
    MaskRun(run, rest);
    MaskStart(rest);
    RunMatch(run, Mask(rest), words, v);
    RunStep(run, Mask(rest), offset, words, v);
  }

  lemma HitsStep(t: Token, ts: seq<Token>, offset: nat, v: Vocabulary)
    ensures HitsOf([t] + ts, offset, v) ==
      (if t.Run? && LowerAll(t.text) in v then [Hit(offset, offset + |t.text|)] else [])
      + HitsOf(ts, offset + |TextOf(t)|, v)
  {
    assert ([t] + ts)[1..] == ts;
  }

  lemma RunStep(run: string, rest: string, offset: nat, words: seq<string>, v: Vocabulary)
    requires run != [] && (forall i | 0 <= i < |run| :: IsWord(run[i]))
    requires MatchAt(false, run + rest, words) == if LowerAll(run) in v then Some(LowerAll(run)) else None
    ensures FindIter(false, run + rest, offset, words) ==
      (if LowerAll(run) in v then [Hit(offset, offset + |run|)] else []) + FindIter(true, rest, offset + |run|, words)
  {
    hide MatchAt;
    var s := run + rest;
    assert IsWord(s[0]);
    if LowerAll(run) in v {
      assert s[|run|..] == rest && s[|run| - 1] == run[|run| - 1];
    } else {
      assert s[1..] == run[1..] + rest;
      SkipRun(run[1..], rest, offset + 1, words);
    }
  }

  // ----- Tokens spell their text -----

  lemma {:induction false} SpellTokens(s: string)
    ensures Spell(Tokens(s)) == s
    decreases |s|
  {
    if s != [] {
      var n := if SpanLength(s).Some? then SpanLength(s).value else if IsWord(s[0]) then RunLength(s) else 1;
      SpellTokens(s[n..]);
      assert Tokens(s)[1..] == Tokens(s[n..]);
      assert s == s[..n] + s[n..];
      assert s[..1] == [s[0]];
    }
  }
}
