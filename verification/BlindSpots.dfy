/** tools/generateMutationInventory.py: the numbering of the sites the scan cannot read, and
    what it makes of the drift check. */
module BlindSpots {
  import opened Numerals
  import opened Orders
  import opened Cuts
  import opened Occurrences
  import opened Records
  import Inventory
  import opened InventoryDrift

  function SiteIdentity(s: Site): seq<string> { [s.file, s.function_, s.kind] }

  function SiteSortKey(s: Site): seq<string> {
    [s.file, s.function_, s.kind, if s.fingerprint.Some? then s.fingerprint.value else ""]
  }

  function SiteIds(order: seq<Site>): seq<seq<string>> { Project(SiteIdentity, order) }

  /** The sites in sorting order, each numbered among its equals. */
  function NumberedSites(sites: seq<Site>): (r: seq<Site>)
    ensures |r| == |sites|
  {
    var order := SortOn(SiteSortKey, TupleLe, sites);
    seq(|order|, i requires 0 <= i < |order| => order[i].(ordinal := Earlier(SiteIds(order)[..i], SiteIdentity(order[i]))))
  }

  /** `_flistNumberBlindSpotOrdinals` on the sites of a scan. */
  function ScannedSites(sites: seq<Site>): seq<Site> { SortOn(SiteKey, StringLe, NumberedSites(sites)) }

  /** Its counting loop. */
  method NumberSites(sites: seq<Site>) returns (r: seq<Site>)
    ensures r == ScannedSites(sites)
  {
    hide SortOn, Earlier, SiteKey;
    var order := SortOn(SiteSortKey, TupleLe, sites);
    var counts: map<seq<string>, nat>, numbered := map[], [];
    NothingCounted(order);
    for i := 0 to |order|
      invariant CountsAre(counts, SiteIds(order)[..i]) && numbered == NumberedSites(sites)[..i]
    {
      hide CountsAre;
      var id := SiteIdentity(order[i]);
      CountOneMore(counts, SiteIds(order), i);
      var occurrence := if id in counts then counts[id] else 0;
      counts := counts[id := occurrence + 1];
      numbered := numbered + [order[i].(ordinal := occurrence)];
      assert numbered == NumberedSites(sites)[..i + 1];
    }
    assert numbered == NumberedSites(sites);
    r := SortOn(SiteKey, StringLe, numbered);
  }

  lemma NothingCounted(order: seq<Site>)
    ensures CountsAre(map[], SiteIds(order)[..0])
  {
  }

  /** The scanner's own vocabulary: no file, function or kind holds a bar. */
  predicate SiteFieldsPlain(s: Site) { Inventory.NoBar(s.file) && Inventory.NoBar(s.function_) && Inventory.NoBar(s.kind) }

  /** A site key determines what is numbered and the number. */
  lemma SiteKeyIsInjective(a: Site, b: Site)
    requires SiteFieldsPlain(a) && SiteFieldsPlain(b) && SiteKey(a) == SiteKey(b)
    ensures SiteIdentity(a) == SiteIdentity(b) && a.ordinal == b.ordinal
  {
    hide Decimal;
    Inventory.Peel(a.file, a.function_ + "|" + (a.kind + "|" + Decimal(a.ordinal)),
                   b.file, b.function_ + "|" + (b.kind + "|" + Decimal(b.ordinal)));
    Inventory.Peel(a.function_, a.kind + "|" + Decimal(a.ordinal), b.function_, b.kind + "|" + Decimal(b.ordinal));
    Inventory.Peel(a.kind, Decimal(a.ordinal), b.kind, Decimal(b.ordinal));
    DecimalInjective(a.ordinal, b.ordinal);
  }

  lemma SameSiteLaterNumber(sites: seq<Site>, i: nat, j: nat)
    requires i < j < |sites| && SiteIdentity(NumberedSites(sites)[i]) == SiteIdentity(NumberedSites(sites)[j])
    ensures NumberedSites(sites)[i].ordinal < NumberedSites(sites)[j].ordinal
  {
    var order := SortOn(SiteSortKey, TupleLe, sites);
    EarlierStep(SiteIds(order), SiteIdentity(order[i]), i);
    EarlierGrows(SiteIds(order), SiteIdentity(order[i]), i + 1, j);
  }

  /** The numbered sites of a scan have pairwise different keys. */
  lemma ScannedSitesDiffer(sites: seq<Site>)
    requires forall s | s in sites :: SiteFieldsPlain(s)
    ensures UniqueKeys(SiteKey, ScannedSites(sites))
  {
    hide SiteKey, Earlier, SortOn;
    var order, numbered := SortOn(SiteSortKey, TupleLe, sites), NumberedSites(sites);
    forall i | 0 <= i < |order| ensures SiteFieldsPlain(numbered[i]) { InSameMultiset(order, sites, order[i]); }
    forall i, j | 0 <= i < j < |numbered| ensures SiteKey(numbered[i]) != SiteKey(numbered[j]) {
      if SiteKey(numbered[i]) == SiteKey(numbered[j]) {
        SiteKeyIsInjective(numbered[i], numbered[j]);
        SameSiteLaterNumber(sites, i, j);
      }
    }
    UniqueIsDistinct(SiteKey, numbered);
    ProjectMultiset(SiteKey, numbered, ScannedSites(sites));
    DistinctFromMultiset(Project(SiteKey, numbered), Project(SiteKey, ScannedSites(sites)));
    UniqueIsDistinct(SiteKey, ScannedSites(sites));
  }

  /** What the scan sees of a site it cannot read. */
  function Seen(s: Site): (string, string, string, Option<string>) { (s.file, s.function_, s.kind, s.fingerprint) }

  function SeenAndNumber(s: Site): ((string, string, string, Option<string>), nat) { (Seen(s), s.ordinal) }

  function AsTuple(x: (string, string, string, Option<string>)): seq<string> {
    [x.0, x.1, x.2, if x.3.Some? then x.3.value else ""]
  }

  ghost predicate Fingerprinted(sites: seq<Site>) { forall s | s in sites :: s.fingerprint.Some? }

  /** Two scans that see the same sites give each the same numbers, in whatever order they
      meet them. */
  lemma NumbersIgnoreScanOrder(sites: seq<Site>, sites': seq<Site>)
    requires Fingerprinted(sites) && multiset(Project(Seen, sites)) == multiset(Project(Seen, sites'))
    ensures multiset(Project(SeenAndNumber, ScannedSites(sites))) == multiset(Project(SeenAndNumber, ScannedSites(sites')))
  {
    hide SortOn, NumberedSites, SiteKey, StringLe;
    SeenOnce(sites, sites');
    ProjectMultiset(AsTuple, Project(Seen, sites), Project(Seen, sites'));
    assert Project(AsTuple, Project(Seen, sites)) == Project(SiteSortKey, sites);
    assert Project(AsTuple, Project(Seen, sites')) == Project(SiteSortKey, sites');
    SameNumbers(sites, sites');
    ProjectMultiset(SeenAndNumber, NumberedSites(sites), ScannedSites(sites));
    ProjectMultiset(SeenAndNumber, NumberedSites(sites'), ScannedSites(sites'));
  }

  lemma SeenOnce(sites: seq<Site>, sites': seq<Site>)
    requires Fingerprinted(sites) && multiset(Project(Seen, sites)) == multiset(Project(Seen, sites'))
    ensures Fingerprinted(sites')
  {
    forall s | s in sites' ensures s.fingerprint.Some? {
      var i :| 0 <= i < |sites'| && sites'[i] == s;
      assert Project(Seen, sites')[i] in multiset(Project(Seen, sites'));
      assert Seen(s) in multiset(Project(Seen, sites));
      var j :| 0 <= j < |sites| && Project(Seen, sites)[j] == Seen(s);
      assert sites[j] in sites;
    }
  }

  lemma SameNumbers(sites: seq<Site>, sites': seq<Site>)
    requires Fingerprinted(sites) && Fingerprinted(sites')
    requires multiset(Project(SiteSortKey, sites)) == multiset(Project(SiteSortKey, sites'))
    ensures Project(SeenAndNumber, NumberedSites(sites)) == Project(SeenAndNumber, NumberedSites(sites'))
  {
    hide SortOn, TupleLe, Earlier;
    TupleLeIsTotal();
    SortedKeysIgnoreOrder(SiteSortKey, TupleLe, sites, sites');
    var a, b := SortOn(SiteSortKey, TupleLe, sites), SortOn(SiteSortKey, TupleLe, sites');
    assert |Project(SiteSortKey, a)| == |a| && |Project(SiteSortKey, b)| == |b|;
    forall i | 0 <= i < |a| ensures Seen(a[i]) == Seen(b[i]) && SiteIds(a)[i] == SiteIds(b)[i] {
      InSameMultiset(a, sites, a[i]);
      InSameMultiset(b, sites', b[i]);
      assert Project(SiteSortKey, a)[i] == SiteSortKey(a[i]) && Project(SiteSortKey, b)[i] == SiteSortKey(b[i]);
      SeenFromKey(a[i], b[i]);
    }
    assert SiteIds(a) == SiteIds(b);
  }

  lemma SeenFromKey(a: Site, b: Site)
    requires SiteSortKey(a) == SiteSortKey(b) && a.fingerprint.Some? && b.fingerprint.Some?
    ensures Seen(a) == Seen(b)
  {
    assert SiteSortKey(a)[0] == a.file && SiteSortKey(a)[1] == a.function_ && SiteSortKey(a)[2] == a.kind;
    assert SiteSortKey(a)[3] == a.fingerprint.value && SiteSortKey(b)[3] == b.fingerprint.value;
  }

  /** Sites of one file, function and kind are numbered in the order of their fingerprints. */
  lemma FingerprintsOrderNumbers(sites: seq<Site>, i: nat, j: nat)
    requires i < |sites| && j < |sites|
    requires var a, b := NumberedSites(sites)[i], NumberedSites(sites)[j];
      a.file == b.file && a.function_ == b.function_ && a.kind == b.kind &&
      a.fingerprint.Some? && b.fingerprint.Some? && ComesBefore(a.fingerprint.value, b.fingerprint.value)
    ensures NumberedSites(sites)[i].ordinal < NumberedSites(sites)[j].ordinal
  {
    hide SortOn, Earlier, ComesBefore;
    var order := SortOn(SiteSortKey, TupleLe, sites);
    TupleLeIsTotal();
    SortOnSorts(SiteSortKey, TupleLe, sites);
    BeforeIsStrict(order[i].fingerprint.value, order[j].fingerprint.value);
    if i < j {
      SameSiteLaterNumber(sites, i, j);
    } else if j < i {
      LastDecides(SiteSortKey(order[j]), SiteSortKey(order[i]));
    }
  }

  /** Against the sites of any scan the check is silent exactly when both lists hold the
      same keys with the same two fingerprints; a record of that very scan is clean. */
  lemma ScanSilenceIsAgreement(recorded: seq<Site>, sites: seq<Site>)
    requires forall s | s in sites :: SiteFieldsPlain(s)
    ensures (forall m :: !SiteSays(m, recorded, ScannedSites(sites))) <==>
      multiset(Faces(SiteKey, SiteFields, recorded)) == multiset(Faces(SiteKey, SiteFields, ScannedSites(sites)))
    ensures forall m :: !SiteSays(m, ScannedSites(sites), ScannedSites(sites))
  {
    hide SiteSays, UniqueKeys, ScannedSites, Faces;
    ScannedSitesDiffer(sites);
    SiteSilenceIsAgreement(recorded, ScannedSites(sites));
    SiteSilenceIsAgreement(ScannedSites(sites), ScannedSites(sites));
  }
}
