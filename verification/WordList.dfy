/** tools/checkAmericanSpelling.py: the word list is generated from verb stems and a table,
    and what makes the generated list one that no replacement is an entry of. */
module WordList {
  import opened Spelling

  const SUFFIXES: seq<(string, string)> := [
    ("ise", "ize"), ("ised", "ized"), ("ises", "izes"), ("ising", "izing"), ("isation", "ization"),
    ("isations", "izations"), ("isable", "izable"), ("iser", "izer"), ("isers", "izers")]

  /** The first `k` forms of one stem on top of a list. */
  function WithForms(v: Vocabulary, stem: string, k: nat): Vocabulary
    requires k <= |SUFFIXES|
  {
    if k == 0 then v else WithForms(v, stem, k - 1)[stem + SUFFIXES[k - 1].0 := stem + SUFFIXES[k - 1].1]
  }

  function Built(irregular: Vocabulary, stems: seq<string>): Vocabulary {
    if stems == [] then irregular
    else WithForms(Built(irregular, stems[..|stems| - 1]), stems[|stems| - 1], |SUFFIXES|)
  }

  /** `fdictBuildSpellingVocabulary` */
  method BuildVocabulary(irregular: Vocabulary, stems: seq<string>) returns (v: Vocabulary)
    ensures v == Built(irregular, stems)
  {
    v := irregular;
    for i := 0 to |stems|
      invariant v == Built(irregular, stems[..i])
    {
      assert stems[..i + 1][..i] == stems[..i];
      ghost var before := v;
      for k := 0 to |SUFFIXES|
        invariant v == WithForms(before, stems[i], k)
      {
        v := v[stems[i] + SUFFIXES[k].0 := stems[i] + SUFFIXES[k].1];
      }
    }
    assert stems[..|stems|] == stems;
  }

  predicate HoldsZ(s: string) { 'z' in s }

  /** `w` is a British form of one of the stems. */
  predicate IsForm(w: string, stems: seq<string>) {
    exists stem, k :: stem in stems && 0 <= k < |SUFFIXES| && w == stem + SUFFIXES[k].0
  }

  lemma SuffixesDiffer(k: nat)
    requires k < |SUFFIXES|
    ensures IsLowerWord(SUFFIXES[k].0) && IsLowerWord(SUFFIXES[k].1)
    ensures !HoldsZ(SUFFIXES[k].0) && HoldsZ(SUFFIXES[k].1)
  {
    assert SUFFIXES[k].1[1] == 'z';
  }

  lemma JoinedWord(stem: string, suffix: string)
    requires IsLowerWord(stem) && IsLowerWord(suffix)
    ensures IsLowerWord(stem + suffix) && (HoldsZ(stem + suffix) <==> HoldsZ(stem) || HoldsZ(suffix))
  {
    assert forall c :: c in stem + suffix <==> c in stem || c in suffix;
  }

  /** Every entry is irregular or generated; the generated ones replace a form without `z` by one with it. */
  ghost predicate Origins(v: Vocabulary, irregular: Vocabulary, stems: seq<string>) {
    forall w | w in v ::
      (w in irregular && v[w] == irregular[w]) || (IsForm(w, stems) && !HoldsZ(w) && HoldsZ(v[w]) && IsLowerWord(w) && IsLowerWord(v[w]))
  }

  lemma {:induction false} FormsOrigins(v: Vocabulary, irregular: Vocabulary, stems: seq<string>, stem: string, k: nat)
    requires Origins(v, irregular, stems) && stem in stems && IsLowerWord(stem) && !HoldsZ(stem) && k <= |SUFFIXES|
    ensures Origins(WithForms(v, stem, k), irregular, stems)
  {
    hide Origins, HoldsZ, IsLowerWord;
    if k > 0 {
      FormsOrigins(v, irregular, stems, stem, k - 1);
      OneForm(WithForms(v, stem, k - 1), irregular, stems, stem, k - 1);
    }
  }

  lemma OneForm(v: Vocabulary, irregular: Vocabulary, stems: seq<string>, stem: string, k: nat)
    requires Origins(v, irregular, stems) && stem in stems && IsLowerWord(stem) && !HoldsZ(stem) && k < |SUFFIXES|
    ensures Origins(v[stem + SUFFIXES[k].0 := stem + SUFFIXES[k].1], irregular, stems)
  {
    var was, now := stem + SUFFIXES[k].0, stem + SUFFIXES[k].1;
    assert IsForm(was, stems);
    SuffixesDiffer(k);
    JoinedWord(stem, SUFFIXES[k].0);
    JoinedWord(stem, SUFFIXES[k].1);
    hide HoldsZ, IsLowerWord, IsForm;
  }

  lemma MoreStems(v: Vocabulary, irregular: Vocabulary, fewer: seq<string>, stems: seq<string>)
    requires Origins(v, irregular, fewer) && forall s | s in fewer :: s in stems
    ensures Origins(v, irregular, stems)
  {
    hide HoldsZ, IsLowerWord;
    forall w | w in v && IsForm(w, fewer) ensures IsForm(w, stems) {
      var stem, k :| stem in fewer && 0 <= k < |SUFFIXES| && w == stem + SUFFIXES[k].0;
    }
  }

  predicate GoodStems(stems: seq<string>) { forall s | s in stems :: IsLowerWord(s) && !HoldsZ(s) }

  lemma {:induction false} BuiltOrigins(irregular: Vocabulary, stems: seq<string>)
    requires GoodStems(stems)
    ensures Origins(Built(irregular, stems), irregular, stems)
  {
    hide HoldsZ, IsLowerWord, Origins;
    if stems == [] {
      assert Origins(irregular, irregular, []) by { TableOrigins(irregular); }
    } else {
      var init, stem := stems[..|stems| - 1], stems[|stems| - 1];
      assert stems == init + [stem];
      BuiltOrigins(irregular, init);
      MoreStems(Built(irregular, init), irregular, init, stems);
      FormsOrigins(Built(irregular, init), irregular, stems, stem, |SUFFIXES|);
    }
  }

  lemma TableOrigins(irregular: Vocabulary)
    ensures Origins(irregular, irregular, [])
  {
  }

  /** The table on its own: closed, no `z` among its entries, and no replacement that is a form of a stem. */
  ghost predicate GoodTable(irregular: Vocabulary, stems: seq<string>) {
    Closed(irregular) && forall w | w in irregular :: !HoldsZ(w) && !IsForm(irregular[w], stems)
  }

  /** Over stems without `z` no replacement of the generated list is an entry, whatever the stems are,
      as soon as the irregular table is good by itself. */
  lemma BuiltIsClosed(irregular: Vocabulary, stems: seq<string>)
    requires GoodStems(stems) && GoodTable(irregular, stems)
    ensures Closed(Built(irregular, stems))
  {
    hide HoldsZ, IsLowerWord, IsForm;
    var v := Built(irregular, stems);
    BuiltOrigins(irregular, stems);
    forall w | w in v ensures IsLowerWord(w) && IsLowerWord(v[w]) && v[w] !in v {}
  }
}
