/** What conversion does to a text, piece by piece and in plain terms: which stretches are
    code, which runs are words, and what a rewritten word looks like. */
module SpellingMeaning {
  import opened Numerals
  import opened Text
  import opened Spelling
  import opened SpellingTheorems

  // ----- Plain terms -----

  predicate IsCapital(c: char) { 'A' <= c <= 'Z' }

  predicate IsSmall(c: char) { 'a' <= c <= 'z' }

  predicate IsWordCharacter(c: char) { IsCapital(c) || IsSmall(c) || '0' <= c <= '9' || c == '_' }

  /** The text `a` is the small-letter word `w`, capitals taken for small letters. */
  predicate Reads(a: string, w: string) {
    |a| == |w| && forall i | 0 <= i < |a| :: a[i] == w[i] || (IsCapital(a[i]) && a[i] as int + 32 == w[i] as int)
  }

  /** The replacement `w` written the way the original was: all in capitals, with a
      capital first, or small. */
  predicate Wears(a: string, w: string, original: string)
    requires original != ""
  {
    Reads(a, w) && a != "" &&
    if (exists i :: 0 <= i < |original| && IsCapital(original[i])) && forall i | 0 <= i < |original| :: !IsSmall(original[i])
    then forall i | 0 <= i < |a| :: IsCapital(a[i])
    else (IsCapital(a[0]) <==> IsCapital(original[0])) && forall i | 1 <= i < |a| :: IsSmall(a[i])
  }

  lemma ReadsLower(a: string, w: string)
    requires IsLowerWord(w)
    ensures LowerAll(a) == w <==> Reads(a, w)
  {
    if LowerAll(a) == w {
      forall i | 0 <= i < |a| ensures a[i] == w[i] || (IsCapital(a[i]) && a[i] as int + 32 == w[i] as int) {
        assert LowerAll(a)[i] == Lower(a[i]);
      }
    }
  }

  lemma MatchCaseWears(w: string, original: string)
    requires IsLowerWord(w) && original != ""
    ensures Wears(MatchCase(w, original), w, original)
  {
    var a := MatchCase(w, original);
    assert IsUpperText(original) <==>
      (exists i :: 0 <= i < |original| && IsCapital(original[i])) && forall i | 0 <= i < |original| :: !IsSmall(original[i]);
    forall i | 0 <= i < |a| ensures a[i] == w[i] || (IsCapital(a[i]) && a[i] as int + 32 == w[i] as int) {}
  }

  /** Only one text wears the replacement. */
  lemma WearsOnce(a: string, b: string, w: string, original: string)
    requires original != "" && IsLowerWord(w) && Wears(a, w, original) && Wears(b, w, original)
    ensures a == b
  {
    forall i | 0 <= i < |a| ensures a[i] == b[i] {}
  }

  lemma WordCharacters(c: char)
    ensures IsWord(c) <==> IsWordCharacter(c)
  {
  }

  // ----- The pieces of a text -----

  lemma NothingConverted(v: Vocabulary)
    ensures Converted("", v) == ""
  {
    assert Tokens("") == [] && FixAll([], v) == [];
  }

  /** A fence is closed by the first fence after it, and all of it is kept. */
  lemma FencedIsKept(x: string, rest: string, v: Vocabulary)
    requires forall k | 0 <= k < |x| :: !StartsWith((x + "```" + rest)[k..], "```")
    ensures Converted("```" + x + "```" + rest, v) == "```" + x + "```" + Converted(rest, v)
  {
    var s := "```" + x + "```" + rest;
    var inner := x + "```" + rest;
    assert s == "```" + inner && s[3..] == inner && StartsWith(s, FENCE);
    assert inner[|x|..] == "```" + rest && StartsWith(inner[|x|..], FENCE);
    FindIs(inner, FENCE, |x|);
    assert SpanLength(s) == Some(6 + |x|);
    KeptSpan(s, "```" + x + "```", rest, v);
  }

  lemma KeptSpan(s: string, span: string, rest: string, v: Vocabulary)
    requires s == span + rest && SpanLength(s) == Some(|span|)
    ensures Converted(s, v) == span + Converted(rest, v)
  {
    hide SpanLength;
    assert s[..|span|] == span && s[|span|..] == rest;
    ConvertedStep(s, v);
  }

  /** Between two single backticks, code is kept: something on one line, without a backtick. */
  lemma InlineIsKept(x: string, rest: string, v: Vocabulary)
    requires x != "" && '`' !in x && '\n' !in x
    ensures Converted("`" + x + "`" + rest, v) == "`" + x + "`" + Converted(rest, v)
  {
    var s := "`" + x + "`" + rest;
    var inner := x + "`" + rest;
    assert s[1] == x[0] && !StartsWith(s, FENCE) by { assert s[..3][1] == x[0]; }
    assert s[1..] == inner;
    PlainUpTo(x, "`" + rest);
    assert inner == x + ("`" + rest);
    assert SpanLength(s) == Some(|x| + 2);
    KeptSpan(s, "`" + x + "`", rest, v);
  }

  lemma {:induction false} PlainUpTo(x: string, after: string)
    requires '`' !in x && '\n' !in x && after != "" && (after[0] == '`' || after[0] == '\n')
    ensures PlainRun(x + after) == |x|
  {
    if x == "" {
      assert x + after == after;
    } else {
      assert (x + after)[1..] == x[1..] + after && (x + after)[0] == x[0];
      PlainUpTo(x[1..], after);
    }
  }

  /** A run of word characters is rewritten when it reads as an entry, and kept when it does not. */
  lemma WordIsRewritten(w: string, rest: string, v: Vocabulary)
    requires WordsOnly(v) && w != "" && (forall i | 0 <= i < |w| :: IsWordCharacter(w[i]))
    requires rest == "" || !IsWordCharacter(rest[0])
    ensures forall k | k in v && Reads(w, k) ::
      |Converted(w + rest, v)| >= |v[k]| && Converted(w + rest, v)[|v[k]|..] == Converted(rest, v) &&
      Wears(Converted(w + rest, v)[..|v[k]|], v[k], w)
    ensures (forall k | k in v :: !Reads(w, k)) ==> Converted(w + rest, v) == w + Converted(rest, v)
  {
    hide Converted, MatchCase, Wears, IsWord, Lower;
    RunConverted(w, rest, v);
    forall k | k in v ensures LowerAll(w) == k <==> Reads(w, k) { ReadsLower(w, k); }
    if LowerAll(w) in v {
      MatchCaseWears(v[LowerAll(w)], w);
      SameLength(MatchCase(v[LowerAll(w)], w), v[LowerAll(w)], w);
    }
  }

  lemma SameLength(a: string, w: string, original: string)
    requires original != "" && Wears(a, w, original)
    ensures |a| == |w|
  {
  }

  lemma RunConverted(w: string, rest: string, v: Vocabulary)
    requires WordsOnly(v) && w != "" && (forall i | 0 <= i < |w| :: IsWordCharacter(w[i]))
    requires rest == "" || !IsWordCharacter(rest[0])
    ensures Converted(w + rest, v) == (if LowerAll(w) in v then MatchCase(v[LowerAll(w)], w) else w) + Converted(rest, v)
  {
    hide Converted, MatchCase, LowerAll;
    var s := w + rest;
    forall i | 0 <= i < |w| ensures IsWord(w[i]) { WordCharacters(w[i]); }
    if rest != "" { WordCharacters(rest[0]); }
    assert s[0] == w[0] && SpanLength(s).None?;
    RunLengthIs(w, rest);
    assert s[..|w|] == w && s[|w|..] == rest;
    assert Tokens(s)[0] == Run(w);
    ConvertedStep(s, v);
  }

  /** The text after a first backtick begins no code span: it does not go on to a closed
      fence, nor to a second backtick on the line with something in between. */
  predicate OpensNothing(t: string) {
    !(StartsWith(t, "``") && exists k :: 2 <= k <= |t| && StartsWith(t[k..], "```")) &&
    !(exists k :: 1 <= k < |t| && t[k] == '`' && forall j | 0 <= j < k :: t[j] != '`' && t[j] != '\n')
  }

  /** Any other character is kept, a backtick that opens no code span included. */
  lemma MarkIsKept(c: char, rest: string, v: Vocabulary)
    requires !IsWordCharacter(c) && (c == '`' ==> OpensNothing(rest))
    ensures Converted([c] + rest, v) == [c] + Converted(rest, v)
  {
    hide Converted;
    var s := [c] + rest;
    WordCharacters(c);
    assert s[1..] == rest;
    if c == '`' { SpanOpens(rest); }
    assert SpanLength(s).None?;
    hide SpanLength;
    ConvertedStep(s, v);
  }

  lemma SpanOpens(t: string)
    ensures SpanLength("`" + t).Some? ==> !OpensNothing(t)
  {
    var s, n := "`" + t, PlainRun(t);
    assert s[1..] == t;
    PlainStretch(t);
    if StartsWith(s, FENCE) && Find(s[3..], FENCE).Some? {
      var k := Find(s[3..], FENCE).value;
      assert s[..3][1..] == t[..2] && s[3..][k..] == t[k + 2..];
    } else if SpanLength(s).Some? {
      assert t[n] == '`' && forall j | 0 <= j < n :: t[j] != '`' && t[j] != '\n';
    }
  }

  lemma {:induction false} PlainStretch(t: string)
    ensures forall j | 0 <= j < PlainRun(t) :: t[j] != '`' && t[j] != '\n'
  {
    if t != "" { PlainStretch(t[1..]); }
  }

  // ----- What is reported -----

  /** Each hit is reported with the text found and the replacement written its way. */
  lemma LocatedMeans(text: string, h: Hit, v: Vocabulary)
    requires WordsOnly(v) && Known(h, text, v)
    ensures var l := Located(text, h, v);
      l.start == h.start && l.end == h.end && l.found == text[h.start..h.end] &&
      exists k :: k in v && Reads(l.found, k) && Wears(l.american, v[k], l.found)
  {
    hide MatchCase, Wears;
    var found := text[h.start..h.end];
    ReadsLower(found, LowerAll(found));
    MatchCaseWears(v[LowerAll(found)], found);
  }
}
