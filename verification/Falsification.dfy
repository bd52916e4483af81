/** tools/reconfirmFalsification.py: mutate, run, restore, over one shared bytecode cache. */
module Falsification {
  import opened Numerals
  import opened Text
  import opened Preconditions
  import Records

  // ----- What a mutation does to a text -----

  lemma OneMore(n: nat, d: int)
    requires n > 0
    ensures n * d == (n - 1) * d + d
  {
  }

  lemma {:induction false} ReplaceLength(s: string, old_: string, new_: string, n: nat)
    requires Count(s, old_) == n
    ensures |ReplaceUpTo(s, old_, new_, n)| == |s| + n * (|new_| - |old_|)
    decreases n
  {
    hide Find;
    if n > 0 {
      OneMore(n, |new_| - |old_|);
      if old_ == "" {
        EmptyPattern(s);
        if s != [] { ReplaceLength(s[1..], old_, new_, n - 1); }
      } else {
        ReplaceLength(s[Find(s, old_).value + |old_|..], old_, new_, n - 1);
      }
    }
  }

  lemma EmptyPattern(s: string)
    ensures Count(s, "") == |s| + 1
  {
  }

  /** A mutation that replaces something by something else changes the text. */
  lemma MutationChangesText(s: string, old_: string, new_: string, n: nat)
    requires Count(s, old_) == n >= 1 && old_ != new_
    ensures ReplaceUpTo(s, old_, new_, n) != s
  {
    if |new_| != |old_| {
      ReplaceLength(s, old_, new_, n);
      NonZeroProduct(n, |new_| - |old_|);
    } else {
      FirstReplacement(s, old_, new_, n);
    }
  }

  lemma NonZeroProduct(n: nat, d: int)
    requires n >= 1 && d != 0
    ensures n * d != 0
  {
  }

  lemma FirstReplacement(s: string, old_: string, new_: string, n: nat)
    requires Count(s, old_) == n >= 1 && old_ != new_ && |old_| == |new_|
    ensures ReplaceUpTo(s, old_, new_, n) != s
  {
    hide Find;
    if old_ == "" { return; }
    var k := Find(s, old_).value;
    var rest := ReplaceUpTo(s[k + |old_|..], old_, new_, n - 1);
    Middle(s[..k], new_, rest);
    FoundAt(s, old_);
  }

  lemma FoundAt(s: string, old_: string)
    requires Find(s, old_).Some?
    ensures var k := Find(s, old_).value; s[k..k + |old_|] == old_
  {
    var k := Find(s, old_).value;
    assert s[k..][..|old_|] == s[k..k + |old_|];
  }

  lemma Middle(a: string, b: string, c: string)
    ensures (a + b + c)[|a|..|a| + |b|] == b
  {
  }

  // ----- The bytecode cache -----

  const WORD := 0x1_0000_0000
  const FIRST_STAMP := 0x8000_0000

  datatype File = File(text: string, mtime: nat)

  /** A cached compilation: what it was compiled from, and the 32-bit facts it is judged by. */
  datatype Compiled = Compiled(mtime: nat, size: nat, text: string)

  function Compile(f: File): Compiled { Compiled(f.mtime % WORD, |f.text| % WORD, f.text) }

  predicate Serves(c: Compiled, f: File) { c.mtime == f.mtime % WORD && c.size == |f.text| % WORD }

  /** The text an import executes. */
  function Executed(cached: Option<Compiled>, f: File): string {
    if cached.Some? && Serves(cached.value, f) then cached.value.text else f.text
  }

  /** Without fresh stamps, or after the stamps wrap, the wrong text can run. */
  lemma StaleWithoutFreshStamps(a: string, b: string, m: nat)
    requires a != b && |a| == |b|
    ensures Executed(Some(Compile(File(a, m))), File(b, m)) != b
    ensures Executed(Some(Compile(File(a, m))), File(b, m + WORD)) != b
  {
    assert (m + WORD) % WORD == m % WORD;
  }

  function TextsOf(files: map<string, File>): (t: map<string, string>)
    ensures t.Keys == files.Keys && forall p | p in files :: t[p] == files[p].text
  {
    map p | p in files :: files[p].text
  }

  // ----- Entries, outcomes and verdicts -----

  datatype Entry = Entry(nodeId: string, source: string, old_: string, new_: string, expected: nat)

  datatype Verdict = CallFailed | ErroredOutsideCall | NoFailure | Unreadable

  datatype RunResult = Finished(code: int, timedOut: bool, skipped: bool, verdict: Verdict) | Raised

  datatype Status =
    | Killed | Survived
    | OldTextAbsent | WrongCount(found: nat) | DoesNotParse | NotCleanBefore | TimedOut | Skipped | NotInCallPhase
    | Propagated

  /** What a test does, as a function of the source texts it executes. */
  type World = (string, map<string, string>) -> RunResult

  /** The same for the batched run of many tests. */
  type BatchWorld = (seq<string>, map<string, string>) -> Batch

  function Judge(r: RunResult): Status {
    if r.Raised? then Propagated
    else if r.timedOut then TimedOut
    else if r.code == 0 && r.skipped then Skipped
    else if r.code == 0 then Survived
    else if r.code == 1 && r.verdict.CallFailed? then Killed
    else NotInCallPhase
  }

  predicate PassesClean(r: RunResult) { r.Finished? && !r.timedOut && r.code == 0 && !r.skipped }

  function Mutated(e: Entry, original: string): string { ReplaceUpTo(original, e.old_, e.new_, e.expected) }

  /** The verdict on an entry, if every run executed exactly the source texts. */
  function StatusOf(e: Entry, texts: map<string, string>, knownGood: bool, parses: string -> bool, world: World): Status
    requires e.source in texts
  {
    var original := texts[e.source];
    if Find(original, e.old_).None? then OldTextAbsent
    else if Count(original, e.old_) != e.expected then WrongCount(Count(original, e.old_))
    else if !parses(Mutated(e, original)) then DoesNotParse
    else if !knownGood && world(e.nodeId, texts).Raised? then Propagated
    else if !knownGood && !PassesClean(world(e.nodeId, texts)) then NotCleanBefore
    else Judge(world(e.nodeId, texts[e.source := Mutated(e, original)]))
  }

  /** The test was seen passing before the mutation: alone if it was suspect, else in the batch. */
  predicate SeenPassing(nodeId: string, ids: seq<string>, b: Batch, texts: map<string, string>, world: World) {
    if nodeId in Suspects(ids, b) then PassesClean(world(nodeId, texts)) else ShownPassing(b, nodeId)
  }

  /** What KILLED is worth: a parsing mutant that differs from its source made the test fail
      in its own call phase, and the test was seen passing before, exactly when it was
      checked alone, the batch ended well, or the report of the batch lists it. */
  lemma KilledIsEarned(e: Entry, texts: map<string, string>, ids: seq<string>, b: Batch, parses: string -> bool, world: World)
    requires e.source in texts && e.old_ != e.new_ && e.nodeId in ids && OwnCase(ids, e.nodeId)
    requires StatusOf(e, texts, e.nodeId !in Suspects(ids, b), parses, world).Killed?
    ensures var m := Mutated(e, texts[e.source]);
      m != texts[e.source] && parses(m) &&
      world(e.nodeId, texts[e.source := m]) == Finished(1, false, world(e.nodeId, texts[e.source := m]).skipped, CallFailed)
    ensures SeenPassing(e.nodeId, ids, b, texts, world) <==>
      e.nodeId in Suspects(ids, b) || CleanExit(b) || Names(b, e.nodeId)
  {
    hide Count, ReplaceUpTo, Find, CaseOf, Unpassed, ByCase, ShownPassing;
    FoundIsCounted(texts[e.source], e.old_);
    MutationChangesText(texts[e.source], e.old_, e.new_, e.expected);
    if e.nodeId !in Suspects(ids, b) { VouchedForExactly(ids, b, e.nodeId); }
  }

  /** A batch that broke off after its first test, which failed: the second test, which
      fails on the clean sources as it does on any, is credited with a kill. */
  lemma AbortedBatchCreditsAKill(e: Entry, broken: string, b: Batch, texts: map<string, string>, parses: string -> bool, world: World)
    requires e.source in texts && Find(texts[e.source], e.old_).Some? && e.expected == Count(texts[e.source], e.old_)
    requires parses(Mutated(e, texts[e.source])) && !Belongs(CaseOf(broken), e.nodeId)
    requires b.code == 2 && b.report == Some([Listed(CaseOf(broken), false)])
    requires forall t :: world(e.nodeId, t) == Finished(1, false, false, CallFailed)
    ensures Suspects([broken, e.nodeId], b) == {broken}
    ensures StatusOf(e, texts, e.nodeId !in Suspects([broken, e.nodeId], b), parses, world).Killed?
    ensures !SeenPassing(e.nodeId, [broken, e.nodeId], b, texts, world) && !PassesClean(world(e.nodeId, texts))
  {
    hide CaseOf, Find, Count, ReplaceUpTo;
    assert CaseOf(broken) != CaseOf(e.nodeId);
    FirstTestFailed(broken, e.nodeId, b);
    assert e.nodeId != broken && OwnCase([broken, e.nodeId], e.nodeId);
    VouchedForExactly([broken, e.nodeId], b, e.nodeId);
  }

  lemma FirstTestFailed(x: string, y: string, b: Batch)
    requires !Belongs(CaseOf(x), y) && b.code != 0 && b.report == Some([Listed(CaseOf(x), false)])
    ensures Suspects([x, y], b) == {x} && !Names(b, y)
  {
    hide CaseOf;
    var ids, l := [x, y], Listed(CaseOf(x), false);
    assert ids[..1] == [x] && [x][..0] == [];
    assert ByCase([x]) == map[CaseOf(x) := x];
    assert ByCase(ids) == map[CaseOf(x) := x, CaseOf(y) := y];
    assert l in [l] && forall k | k in [l] :: k == l;
    assert ByCase(ids)[l.at] in Unpassed(b.report, ids);
    assert Unpassed(b.report, ids) == {x};
  }

  lemma FoundIsCounted(s: string, old_: string)
    requires Find(s, old_).Some?
    ensures Count(s, old_) >= 1
  {
  }

  // ----- The harness -----

  class Harness {
    var files: map<string, File>
    var cache: map<string, Compiled>
    var nextStamp: nat
    /** Every version of a source so far, by path and modification time. */
    ghost var versions: map<(string, nat), string>
    /** The source texts each test run saw. */
    ghost var runs: seq<map<string, string>>

    /** The cache is empty and every real file time is below the first stamp. */
    constructor (files: map<string, File>)
      requires forall p | p in files :: files[p].mtime < FIRST_STAMP
      ensures Valid() && this.files == files && nextStamp == FIRST_STAMP && runs == []
    {
      this.files := files;
      cache := map[];
      nextStamp := FIRST_STAMP;
      versions := map p | p in files :: (p, files[p].mtime) := files[p].text;
      runs := [];
    }

    ghost predicate Valid()
      reads this
    {
      FIRST_STAMP <= nextStamp <= WORD &&
      (forall v | v in versions :: v.1 < nextStamp) &&
      (forall p | p in files :: (p, files[p].mtime) in versions && versions[(p, files[p].mtime)] == files[p].text) &&
      (forall p | p in cache :: (p, cache[p].mtime) in versions && versions[(p, cache[p].mtime)] == cache[p].text)
    }

    function Texts(): (t: map<string, string>)
      reads this
      ensures t.Keys == files.Keys && t == TextsOf(files)
    {
      TextsOf(files)
    }

    /** `_fnWriteSourceWithFreshStamp` */
    method WriteFresh(path: string, text: string)
      requires Valid() && nextStamp < WORD
      modifies this
      ensures Valid() && runs == old(runs) && nextStamp == old(nextStamp) + 1
      ensures Texts() == old(Texts())[path := text]
      ensures files == old(files)[path := File(text, old(nextStamp))] && cache == old(cache)
      ensures forall p | p in cache :: cache[p].mtime != files[path].mtime
    {
      files := files[path := File(text, nextStamp)];
      versions := versions[(path, nextStamp) := text];
      nextStamp := nextStamp + 1;
    }

    /** An import: the cached compilation if its recorded time and size match, else a new one. */
    method Load(path: string) returns (executed: string)
      requires Valid() && path in files
      modifies this`cache
      ensures Valid()
      ensures executed == files[path].text
    {
      executed := Executed(if path in cache then Some(cache[path]) else None, files[path]);
      cache := cache[path := if path in cache && Serves(cache[path], files[path]) then cache[path] else Compile(files[path])];
    }

    /** The imports of one pytest run: what it executes is what the files hold. */
    method LoadAll(imports: set<string>) returns (executed: map<string, string>)
      requires Valid() && imports <= files.Keys
      modifies this`cache
      ensures Valid() && executed == Texts()
    {
      executed := Texts();
      var left := imports;
      while left != {}
        invariant Valid() && left <= files.Keys && executed == Texts()
        decreases |left|
      {
        var p :| p in left;
        var text := Load(p);
        executed := executed[p := text];
        left := left - {p};
      }
    }

    /** One pytest run of one test. It imports some of the files, and answers by what it executed. */
    method RunTest(nodeId: string, imports: set<string>, world: World) returns (r: RunResult)
      requires Valid() && imports <= files.Keys
      modifies this`cache, this`runs
      ensures Valid() && runs == old(runs) + [Texts()]
      ensures r == world(nodeId, Texts())
    {
      var executed := LoadAll(imports);
      runs := runs + [Texts()];
      r := world(nodeId, executed);
    }

    /** The mutated run between its two writes; the source is back whatever happened. */
    method RunMutated(e: Entry, original: string, mutated: string, imports: set<string>, world: World) returns (s: Status)
      requires Valid() && e.source in files && original == files[e.source].text && imports <= files.Keys
      requires nextStamp + 2 <= WORD
      modifies this
      ensures Valid() && Texts() == old(Texts()) && nextStamp == old(nextStamp) + 2
      ensures s == Judge(world(e.nodeId, Texts()[e.source := mutated]))
      ensures runs == old(runs) + [Texts()[e.source := mutated]]
      ensures mutated != original ==> OneDiffers(runs[|runs| - 1], Texts(), e.source)
    {
      hide Valid, OneDiffers, Judge, TextsOf;
      ghost var texts := Texts();
      OnlyThisOne(texts, e.source, mutated);
      WriteFresh(e.source, mutated);
      var r := RunTest(e.nodeId, imports, world);
      s := Judge(r);
      WriteFresh(e.source, original);
    }

    /** `_fsReconfirmOne`: the verdict, and what every run it starts gets to see. */
    method ReconfirmOne(e: Entry, original: string, knownGood: bool, imports: set<string>,
                        parses: string -> bool, world: World) returns (s: Status)
      requires Valid() && e.source in files && original == files[e.source].text && imports <= files.Keys
      requires nextStamp + 2 <= WORD
      modifies this
      ensures Valid() && Texts() == old(Texts()) && nextStamp <= old(nextStamp) + 2
      ensures s == StatusOf(e, Texts(), knownGood, parses, world)
      ensures RunsSaw(old(runs), runs, Texts(), [e])
      ensures s.Killed? || s.Survived? ==>
        runs != [] && runs[|runs| - 1] == Texts()[e.source := Mutated(e, original)]
      ensures (s.Killed? || s.Survived?) && e.old_ != e.new_ ==> OneDiffers(runs[|runs| - 1], Texts(), e.source)
    {
      hide Valid, Find, Count, ReplaceUpTo;
      ghost var texts := Texts();
      assert original == texts[e.source];
      if Find(original, e.old_).None? { return OldTextAbsent; }
      var found := Count(original, e.old_);
      if found != e.expected { return WrongCount(found); }
      FoundIsCounted(original, e.old_);
      if e.old_ != e.new_ { MutationChangesText(original, e.old_, e.new_, e.expected); }
      var mutated := Mutated(e, original);
      if !parses(mutated) { return DoesNotParse; }
      if !knownGood {
        var clean := RunTest(e.nodeId, imports, world);
        RunsSawOne(old(runs), old(runs), texts, texts, [e], 0);
        if clean.Raised? { return Propagated; }
        if !PassesClean(clean) { return NotCleanBefore; }
      }
      ghost var before := runs;
      s := RunMutated(e, original, mutated, imports, world);
      RunsSawOne(old(runs), before, texts[e.source := mutated], texts, [e], 0);
    }

    /** `_flistReconfirmEntries` */
    method ReconfirmEntries(entries: seq<Entry>, originals: map<string, string>, suspects: set<string>,
                            imports: set<string>, parses: string -> bool, world: World)
      returns (results: seq<(string, Status)>, raised: bool)
      requires Valid() && imports <= files.Keys && Snapshot(originals, Texts())
      requires forall i | 0 <= i < |entries| :: entries[i].source in originals
      requires nextStamp + 2 * |entries| <= WORD
      modifies this
      ensures Valid() && Texts() == old(Texts()) && nextStamp <= old(nextStamp) + 2 * |entries|
      ensures Judged(results, entries, Texts(), suspects, parses, world)
      ensures !raised ==> |results| == |entries|
      ensures RunsSaw(old(runs), runs, Texts(), entries)
    {
      hide *;
      results, raised := [], false;
      ghost var texts := Texts();
      NothingYet(runs, texts, entries, suspects, parses, world);
      for i := 0 to |entries|
        invariant Valid() && Texts() == texts
        invariant nextStamp <= old(nextStamp) + 2 * i
        invariant |results| == i && !raised && Judged(results, entries, texts, suspects, parses, world)
        invariant RunsSaw(old(runs), runs, texts, entries)
      {
        var e := entries[i];
        InSnapshot(originals, texts, e.source);
        ghost var before := runs;
        var s := ReconfirmOne(e, originals[e.source], e.nodeId !in suspects, imports, parses, world);
        RunsSawMore(old(runs), before, runs, texts, entries, i);
        if s.Propagated? {
          raised := true;
          return;
        }
        JudgedMore(results, entries, texts, suspects, parses, world);
        EarnedIs(e, texts, suspects, parses, world);
        results := results + [(e.nodeId, s)];
      }
    }

    /** The batched precondition run: one pytest run of every requested test. */
    method RunBatch(ids: seq<string>, imports: set<string>, batches: BatchWorld) returns (b: Batch)
      requires Valid() && imports <= files.Keys
      modifies this`cache, this`runs
      ensures Valid() && runs == old(runs) + [Texts()]
      ensures b == batches(ids, Texts())
    {
      var executed := LoadAll(imports);
      runs := runs + [Texts()];
      b := batches(ids, executed);
    }

    /** The whole replay: capture the originals, run every test once on them, judge every
        entry by what that showed, restore whatever happened. */
    method ReconfirmAll(entries: seq<Entry>, imports: set<string>, parses: string -> bool, batches: BatchWorld, world: World)
      returns (results: seq<(string, Status)>, raised: bool, ids: seq<string>)
      requires Valid() && imports <= files.Keys
      requires forall i | 0 <= i < |entries| :: entries[i].source in files
      requires nextStamp + 2 * |entries| + |files| <= WORD
      modifies this
      ensures Valid() && Texts() == old(Texts())
      ensures Records.InOrder(ids) && forall id :: id in ids <==> exists e :: e in entries && e.nodeId == id
      ensures Judged(results, entries, Texts(), Suspects(ids, batches(ids, Texts())), parses, world)
      ensures !raised ==> |results| == |entries|
      ensures RunsSaw(old(runs), runs, Texts(), entries)
    {
      hide *;
      var originals := Texts();
      WholeSnapshot(originals, files);
      ids := Records.SortedKeys(NodeIds(entries));
      NodeIdsAre(entries);
      var batch := RunBatch(ids, imports, batches);
      ghost var clean := runs;
      CleanRunSaw(old(runs), originals, entries);
      var suspects := SelectSuspects(ids, batch);
      results, raised := ReconfirmEntries(entries, originals, suspects, imports, parses, world);
      RunsSawOn(old(runs), clean, runs, originals, entries);
      RestoreOriginals(originals, {}, map[]);
      SameAgain(originals);
    }

    /** `_fnRestoreOriginals`: a source that cannot be written comes from git's HEAD instead. */
    method RestoreOriginals(originals: map<string, string>, unwritable: set<string>, head: map<string, File>)
      requires Valid() && nextStamp + |originals| <= WORD && unwritable <= head.Keys
      modifies this
      ensures unwritable == {} ==> Valid()
      ensures runs == old(runs)
      ensures Texts() == Restored(old(Texts()), originals, unwritable, head)
    {
      hide *;
      var failed := RewriteOriginals(originals, unwritable);
      CheckedOutTexts(old(Texts()), files, originals, unwritable, head);
      if failed != {} {
        files := files + CheckedOut(failed, head);
      }
    }

    /** Its loop over the snapshot. */
    method RewriteOriginals(originals: map<string, string>, unwritable: set<string>) returns (failed: set<string>)
      requires Valid() && nextStamp + |originals| <= WORD
      modifies this
      ensures Valid() && runs == old(runs) && failed == Failed(originals, {}, unwritable)
      ensures Texts() == Rewritten(old(Texts()), originals, {}, unwritable)
    {
      hide *;
      var left := originals.Keys;
      failed := {};
      ghost var texts := Texts();
      NothingRewritten(texts, originals, unwritable);
      while left != {}
        invariant left <= originals.Keys && Valid() && nextStamp + |left| <= WORD && runs == old(runs)
        invariant failed == Failed(originals, left, unwritable)
        invariant Texts() == Rewritten(texts, originals, left, unwritable)
        decreases |left|
      {
        var p :| p in left;
        OneLess(texts, originals, left, unwritable, p);
        if p in unwritable {
          failed := failed + {p};
        } else {
          WriteFresh(p, originals[p]);
        }
        left := left - {p};
      }
    }
  }

  /** The sources already tried that could not be written. */
  function Failed(originals: map<string, string>, left: set<string>, unwritable: set<string>): set<string> {
    (originals.Keys - left) * unwritable
  }

  function Rewritten(texts: map<string, string>, originals: map<string, string>, left: set<string>, unwritable: set<string>): map<string, string> {
    texts + (originals - left - unwritable)
  }

  function CheckedOut(failed: set<string>, head: map<string, File>): map<string, File> {
    map p | p in failed && p in head :: head[p]
  }

  /** After the restore: each source has its snapshot text, or HEAD's where it could not be written. */
  function Restored(texts: map<string, string>, originals: map<string, string>, unwritable: set<string>, head: map<string, File>): map<string, string> {
    texts + originals + TextsOf(CheckedOut(originals.Keys * unwritable, head))
  }

  lemma CheckedOutTexts(texts: map<string, string>, files: map<string, File>, originals: map<string, string>,
                        unwritable: set<string>, head: map<string, File>)
    requires unwritable <= head.Keys && TextsOf(files) == Rewritten(texts, originals, {}, unwritable)
    ensures var failed := Failed(originals, {}, unwritable);
      TextsOf(files + CheckedOut(failed, head)) == Restored(texts, originals, unwritable, head) &&
      (failed == {} ==> TextsOf(files) == Restored(texts, originals, unwritable, head)) &&
      (unwritable == {} ==> failed == {})
  {
    var out := CheckedOut(Failed(originals, {}, unwritable), head);
    TextsPlus(files, out);
    OverrideRest(texts, originals, unwritable, TextsOf(out));
    assert originals - {} - unwritable == originals - unwritable;
    assert (originals.Keys - {}) * unwritable == originals.Keys * unwritable;
  }

  lemma NothingRewritten(texts: map<string, string>, originals: map<string, string>, unwritable: set<string>)
    ensures Failed(originals, originals.Keys, unwritable) == {}
    ensures Rewritten(texts, originals, originals.Keys, unwritable) == texts
    ensures |originals| == |originals.Keys|
  {
  }

  lemma TextsPlus(a: map<string, File>, b: map<string, File>)
    ensures TextsOf(a + b) == TextsOf(a) + TextsOf(b)
    ensures b.Keys == {} ==> TextsOf(a) + TextsOf(b) == TextsOf(a)
  {
  }

  lemma OverrideRest(texts: map<string, string>, originals: map<string, string>, unwritable: set<string>, checkedOut: map<string, string>)
    requires checkedOut.Keys == originals.Keys * unwritable
    ensures texts + (originals - unwritable) + checkedOut == texts + originals + checkedOut
  {
  }

  lemma OneLess(texts: map<string, string>, originals: map<string, string>, left: set<string>, unwritable: set<string>, p: string)
    requires p in left && left <= originals.Keys
    ensures Rewritten(texts, originals, left - {p}, unwritable) ==
      if p in unwritable then Rewritten(texts, originals, left, unwritable)
      else Rewritten(texts, originals, left, unwritable)[p := originals[p]]
    ensures Failed(originals, left - {p}, unwritable) ==
      Failed(originals, left, unwritable) + if p in unwritable then {p} else {}
  {
  }

  /** A run saw the snapshot, or the snapshot with one entry's mutation applied. */
  ghost predicate Saw(run: map<string, string>, texts: map<string, string>, entries: seq<Entry>, k: nat) {
    k < |entries| && entries[k].source in texts &&
    (run == texts || run == texts[entries[k].source := Mutated(entries[k], texts[entries[k].source])])
  }

  ghost predicate SomeSaw(run: map<string, string>, texts: map<string, string>, entries: seq<Entry>) {
    run == texts || exists k :: Saw(run, texts, entries, k)
  }

  /** Of all sources, this one and no other has another text than it had. */
  ghost predicate OneDiffers(run: map<string, string>, texts: map<string, string>, source: string) {
    run.Keys == texts.Keys && forall p | p in texts :: run[p] != texts[p] <==> p == source
  }

  lemma OnlyThisOne(texts: map<string, string>, source: string, text: string)
    requires source in texts
    ensures text != texts[source] ==> OneDiffers(texts[source := text], texts, source)
    ensures texts[source := text].Keys == texts.Keys && texts[source := text][source := texts[source]] == texts
  {
  }

  function NodeIds(entries: seq<Entry>): set<string> { set e | e in entries :: e.nodeId }

  lemma NodeIdsAre(entries: seq<Entry>)
    ensures forall id :: id in NodeIds(entries) <==> exists e :: e in entries && e.nodeId == id
  {
  }

  lemma CleanRunSaw(first: seq<map<string, string>>, texts: map<string, string>, entries: seq<Entry>)
    ensures RunsSaw(first, first + [texts], texts, entries)
  {
    assert (first + [texts])[..|first|] == first;
  }

  lemma RunsSawOn(first: seq<map<string, string>>, before: seq<map<string, string>>, runs: seq<map<string, string>>,
                  texts: map<string, string>, entries: seq<Entry>)
    requires RunsSaw(first, before, texts, entries) && RunsSaw(before, runs, texts, entries)
    ensures RunsSaw(first, runs, texts, entries)
  {
    hide SomeSaw;
    assert runs[..|first|] == runs[..|before|][..|first|];
    forall j | |first| <= j < |runs| ensures SomeSaw(runs[j], texts, entries) {
      if j < |before| { assert runs[j] == runs[..|before|][j] == before[j]; }
    }
  }

  ghost predicate RunsSaw(before: seq<map<string, string>>, runs: seq<map<string, string>>, texts: map<string, string>,
                          entries: seq<Entry>) {
    |before| <= |runs| && runs[..|before|] == before &&
    forall i | |before| <= i < |runs| :: SomeSaw(runs[i], texts, entries)
  }

  lemma RunsSawOne(first: seq<map<string, string>>, before: seq<map<string, string>>, run: map<string, string>,
                   texts: map<string, string>, entries: seq<Entry>, k: nat)
    requires RunsSaw(first, before, texts, entries) && Saw(run, texts, entries, k)
    ensures RunsSaw(first, before + [run], texts, entries)
  {
    var runs := before + [run];
    assert runs[..|first|] == before[..|first|];
    forall j | |first| <= j < |runs| ensures SomeSaw(runs[j], texts, entries) {
      if j < |before| {
        assert runs[j] == before[j];
      } else {
        assert Saw(runs[j], texts, entries, k);
      }
    }
  }

  lemma RunsSawMore(first: seq<map<string, string>>, before: seq<map<string, string>>, runs: seq<map<string, string>>,
                    texts: map<string, string>, entries: seq<Entry>, i: nat)
    requires i < |entries| && RunsSaw(first, before, texts, entries) && RunsSaw(before, runs, texts, [entries[i]])
    ensures RunsSaw(first, runs, texts, entries)
  {
    assert runs[..|first|] == runs[..|before|][..|first|];
    forall j | |first| <= j < |runs| ensures SomeSaw(runs[j], texts, entries) {
      if j < |before| {
        assert runs[j] == runs[..|before|][j] == before[j];
      } else {
        if runs[j] != texts {
          var k :| Saw(runs[j], texts, [entries[i]], k);
          assert Saw(runs[j], texts, entries, i);
        }
      }
    }
  }

  /** Each result is the verdict its entry gets on the snapshot. */
  ghost predicate Judged(results: seq<(string, Status)>, entries: seq<Entry>, texts: map<string, string>,
                         suspects: set<string>, parses: string -> bool, world: World) {
    |results| <= |entries| &&
    forall k | 0 <= k < |results| :: entries[k].source in texts && results[k] == Earned(entries[k], texts, suspects, parses, world)
  }

  /** The pair an entry contributes to the results. */
  ghost function Earned(e: Entry, texts: map<string, string>, suspects: set<string>, parses: string -> bool, world: World): (string, Status)
    requires e.source in texts
  {
    (e.nodeId, StatusOf(e, texts, e.nodeId !in suspects, parses, world))
  }

  lemma NothingYet(runs: seq<map<string, string>>, texts: map<string, string>, entries: seq<Entry>,
                   suspects: set<string>, parses: string -> bool, world: World)
    ensures RunsSaw(runs, runs, texts, entries) && Judged([], entries, texts, suspects, parses, world)
  {
  }

  lemma EarnedIs(e: Entry, texts: map<string, string>, suspects: set<string>, parses: string -> bool, world: World)
    requires e.source in texts
    ensures Earned(e, texts, suspects, parses, world) == (e.nodeId, StatusOf(e, texts, e.nodeId !in suspects, parses, world))
  {
    hide StatusOf;
  }

  lemma JudgedMore(results: seq<(string, Status)>, entries: seq<Entry>, texts: map<string, string>,
                   suspects: set<string>, parses: string -> bool, world: World)
    requires Judged(results, entries, texts, suspects, parses, world) && |results| < |entries|
    requires entries[|results|].source in texts
    ensures Judged(results + [Earned(entries[|results|], texts, suspects, parses, world)], entries, texts, suspects, parses, world)
  {
    hide Earned;
  }

  /** `originals` holds the present text of each of its sources. */
  ghost predicate Snapshot(originals: map<string, string>, texts: map<string, string>) {
    forall p | p in originals :: p in texts && originals[p] == texts[p]
  }

  lemma InSnapshot(originals: map<string, string>, texts: map<string, string>, p: string)
    requires Snapshot(originals, texts) && p in originals
    ensures p in texts && originals[p] == texts[p]
  {
  }

  lemma WholeSnapshot(texts: map<string, string>, files: map<string, File>)
    requires texts.Keys == files.Keys
    ensures Snapshot(texts, texts) && |texts| == |files|
  {
    assert |texts.Keys| == |texts| && |files.Keys| == |files|;
  }

  lemma SameAgain(texts: map<string, string>)
    ensures Restored(texts, texts, {}, map[]) == texts
  {
  }
}
