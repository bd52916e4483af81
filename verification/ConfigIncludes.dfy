/** tools/inventoryRepositoryGitSurface.py: collecting a config file's entries through its includes. */
module ConfigIncludes {
  import opened Numerals
  import opened Text

  const MAXIMUM_INCLUDE_DEPTH := 10

  /** One `key = value` of a parsed file; a bare key has no value. */
  datatype Directive = Directive(key: string, value: Option<string>)

  /** The files by real path, and how paths resolve. Unreadable files parse to nothing. */
  datatype Config = Config(
    content: string -> seq<Directive>, realPath: string -> string, resolve: (string, string) -> string)

  datatype Entry = Entry(key: string, value: Option<string>, source: string, conditional: bool)

  predicate IsInclude(key: string) {
    key == "include.path" || (StartsWith(key, "includeif.") && EndsWith(key, ".path"))
  }

  /** The keys whose values are followed: the plain one, those with a condition between the
      two parts, and one in which the parts share their dot. */
  lemma IncludeKeys(key: string)
    ensures IsInclude(key) <==>
      key == "include.path" || key == "includeif.path" || exists condition :: key == "includeif." + condition + ".path"
  {
    if StartsWith(key, "includeif.") && EndsWith(key, ".path") {
      if |key| >= 15 {
        assert key == key[..10] + key[10..|key| - 5] + key[|key| - 5..];
        assert key == "includeif." + key[10..|key| - 5] + ".path";
      } else {
        assert key[|key| - 5..][0] == '.' && forall i | 0 <= i < 9 :: key[..10][i] != '.';
        assert |key| == 14;
        assert key == key[..10] + key[9..][1..] && ".path"[1..] == "path";
        assert "includeif." + "path" == "includeif.path";
      }
    }
    forall condition | key == "includeif." + condition + ".path" ensures IsInclude(key) {
      assert key[..10] == "includeif." && key[|key| - 5..] == ".path";
    }
    assert "includeif.path"[..10] == "includeif." && "includeif.path"[9..] == ".path";
  }

  function Target(g: Config, d: Directive, includer: string): string {
    g.resolve(if d.value.Some? then d.value.value else "", includer)
  }

  /** How a file was reached: the path used, whether through a condition, how deep, and by
      which include lines, each given by its place in the file that holds it. */
  datatype Visit = Visit(path: string, conditional: bool, depth: nat, chain: seq<nat>)

  /** The visits are keyed by real path: their keys are the source's `setSeen`. */
  datatype Walk = Walk(entries: seq<Entry>, visits: map<string, Visit>)

  function File(g: Config, v: Visit): string { g.realPath(v.path) }

  function Content(g: Config, v: Visit): seq<Directive> { g.content(File(g, v)) }

  /** The visit that the include line `i` of the visited file leads to. */
  function Step(g: Config, v: Visit, i: nat): Visit
    requires i < |Content(g, v)|
  {
    var d := Content(g, v)[i];
    Visit(Target(g, d, v.path), v.conditional || d.key != "include.path", v.depth + 1, v.chain + [i])
  }

  function Collected(g: Config, v: Visit, visits: map<string, Visit>): Walk
    decreases MAXIMUM_INCLUDE_DEPTH + 1 - v.depth, 0
  {
    if File(g, v) in visits || v.depth > MAXIMUM_INCLUDE_DEPTH then Walk([], visits)
    else FromDirectives(g, v, |Content(g, v)|, visits[File(g, v) := v])
  }

  /** What the first `k` directives of the visited file give. */
  function FromDirectives(g: Config, v: Visit, k: nat, visits: map<string, Visit>): Walk
    requires v.depth <= MAXIMUM_INCLUDE_DEPTH && k <= |Content(g, v)|
    decreases MAXIMUM_INCLUDE_DEPTH - v.depth, k + 1
  {
    if k == 0 then Walk([], visits)
    else
      var before := FromDirectives(g, v, k - 1, visits);
      var after := OneDirective(g, v, k - 1, before.visits);
      Walk(before.entries + after.entries, after.visits)
  }

  function OneDirective(g: Config, v: Visit, i: nat, visits: map<string, Visit>): Walk
    requires v.depth <= MAXIMUM_INCLUDE_DEPTH && i < |Content(g, v)|
    decreases MAXIMUM_INCLUDE_DEPTH - v.depth, 1
  {
    var d := Content(g, v)[i];
    if IsInclude(d.key) then Collected(g, Step(g, v, i), visits)
    else Walk([Entry(d.key, d.value, v.path, v.conditional)], visits)
  }

  /** One run of the collection, with its shared set of seen files. */
  class Collector {
    const config: Config
    var seen: set<string>

    constructor (config: Config)
      ensures this.config == config && seen == {}
    {
      this.config, seen := config, {};
    }

    /** `flistCollectConfigEntries`; `visits` and `chain` record how each seen file was reached. */
    method Collect(path: string, conditional: bool, depth: nat, ghost chain: seq<nat>, ghost visits: map<string, Visit>)
      returns (entries: seq<Entry>)
      requires seen == visits.Keys
      modifies this
      ensures entries == Collected(config, Visit(path, conditional, depth, chain), visits).entries
      ensures seen == Collected(config, Visit(path, conditional, depth, chain), visits).visits.Keys
      decreases MAXIMUM_INCLUDE_DEPTH + 1 - depth
    {
      hide IsInclude;
      var file := config.realPath(path);
      if file in seen || depth > MAXIMUM_INCLUDE_DEPTH { return []; }
      seen := seen + {file};
      ghost var v := Visit(path, conditional, depth, chain);
      ghost var start := visits[file := v];
      var directives := config.content(file);
      entries := [];
      for i := 0 to |directives|
        invariant entries == FromDirectives(config, v, i, start).entries
        invariant seen == FromDirectives(config, v, i, start).visits.Keys
      {
        var d := directives[i];
        ghost var now := FromDirectives(config, v, i, start).visits;
        if IsInclude(d.key) {
          var included := Collect(Target(config, d, path), conditional || d.key != "include.path", depth + 1, chain + [i], now);
          entries := entries + included;
        } else {
          entries := entries + [Entry(d.key, d.value, path, conditional)];
        }
      }
    }
  }

  // ----- Each real file contributes once, in order -----

  /** The entries that come from one real file. */
  function OfFile(g: Config, es: seq<Entry>, r: string): seq<Entry> {
    if es == [] then [] else OfFile(g, es[..|es| - 1], r) + if g.realPath(es[|es| - 1].source) == r then [es[|es| - 1]] else []
  }

  /** The plain entries among the first `k` directives of a file, reached as `v`. */
  function Own(g: Config, v: Visit, k: nat): seq<Entry>
    requires k <= |Content(g, v)|
  {
    if k == 0 then []
    else
      var d := Content(g, v)[k - 1];
      Own(g, v, k - 1) + if IsInclude(d.key) then [] else [Entry(d.key, d.value, v.path, v.conditional)]
  }

  lemma {:induction false} OfFileAppend(g: Config, a: seq<Entry>, b: seq<Entry>, r: string)
    ensures OfFile(g, a + b, r) == OfFile(g, a, r) + OfFile(g, b, r)
    decreases |b|
  {
    if b == [] {
      assert a + b == a;
    } else {
      OfFileAppend(g, a, b[..|b| - 1], r);
      assert (a + b)[..|a + b| - 1] == a + b[..|b| - 1];
    }
  }

  /** What a stretch of the walk gives for file `r`: its own entries if it was first visited there, else nothing. */
  ghost predicate Once(g: Config, w: Walk, before: map<string, Visit>, r: string) {
    OfFile(g, w.entries, r) ==
      if r in w.visits && r !in before then Own(g, w.visits[r], |Content(g, w.visits[r])|) else []
  }

  /** Earlier visits stay as they were, and every visit is recorded under its own real path. */
  ghost predicate Extends(g: Config, before: map<string, Visit>, after: map<string, Visit>) {
    && (forall r | r in before :: r in after && after[r] == before[r])
    && (forall r | r in after && r !in before :: File(g, after[r]) == r && after[r].depth <= MAXIMUM_INCLUDE_DEPTH)
  }

  lemma {:induction false} CollectedExtends(g: Config, v: Visit, visits: map<string, Visit>)
    ensures Extends(g, visits, Collected(g, v, visits).visits)
    decreases MAXIMUM_INCLUDE_DEPTH + 1 - v.depth, 0
  {
    if File(g, v) !in visits && v.depth <= MAXIMUM_INCLUDE_DEPTH {
      DirectivesExtend(g, v, |Content(g, v)|, visits[File(g, v) := v]);
    }
  }

  lemma {:induction false} DirectivesExtend(g: Config, v: Visit, k: nat, visits: map<string, Visit>)
    requires v.depth <= MAXIMUM_INCLUDE_DEPTH && k <= |Content(g, v)|
    ensures Extends(g, visits, FromDirectives(g, v, k, visits).visits)
    decreases MAXIMUM_INCLUDE_DEPTH - v.depth, k + 1
  {
    if k > 0 {
      var before := FromDirectives(g, v, k - 1, visits);
      DirectivesExtend(g, v, k - 1, visits);
      DirectiveExtends(g, v, k - 1, before.visits);
    }
  }

  lemma {:induction false} DirectiveExtends(g: Config, v: Visit, i: nat, visits: map<string, Visit>)
    requires v.depth <= MAXIMUM_INCLUDE_DEPTH && i < |Content(g, v)|
    ensures Extends(g, visits, OneDirective(g, v, i, visits).visits)
    decreases MAXIMUM_INCLUDE_DEPTH - v.depth, 1
  {
    if IsInclude(Content(g, v)[i].key) { CollectedExtends(g, Step(g, v, i), visits); }
  }

  /** Each real file's entries appear together with its visit, complete, in file order, and only once. */
  lemma {:induction false} CollectedOnce(g: Config, v: Visit, visits: map<string, Visit>, r: string)
    ensures Once(g, Collected(g, v, visits), visits, r)
    decreases MAXIMUM_INCLUDE_DEPTH + 1 - v.depth, 0
  {
    if File(g, v) !in visits && v.depth <= MAXIMUM_INCLUDE_DEPTH {
      DirectivesOnce(g, v, |Content(g, v)|, visits[File(g, v) := v], r);
      DirectivesExtend(g, v, |Content(g, v)|, visits[File(g, v) := v]);
    }
  }

  /** The directives of an already recorded file `v`: its own so far, and other files once. */
  ghost predicate OnceWithin(g: Config, v: Visit, k: nat, w: Walk, before: map<string, Visit>, r: string)
    requires k <= |Content(g, v)|
  {
    if r == File(g, v) then OfFile(g, w.entries, r) == Own(g, v, k) else Once(g, w, before, r)
  }

  lemma {:induction false} DirectivesOnce(g: Config, v: Visit, k: nat, visits: map<string, Visit>, r: string)
    requires v.depth <= MAXIMUM_INCLUDE_DEPTH && File(g, v) in visits && k <= |Content(g, v)|
    ensures OnceWithin(g, v, k, FromDirectives(g, v, k, visits), visits, r)
    decreases MAXIMUM_INCLUDE_DEPTH - v.depth, k + 1
  {
    hide Once, OnceWithin, IsInclude, Target, Content, Extends;
    if k == 0 {
      NothingOnce(g, v, visits, r);
    } else {
      var before := FromDirectives(g, v, k - 1, visits);
      DirectivesOnce(g, v, k - 1, visits, r);
      DirectivesExtend(g, v, k - 1, visits);
      if IsInclude(Content(g, v)[k - 1].key) { CollectedOnce(g, Step(g, v, k - 1), before.visits, r); }
      NextOnce(g, v, k, visits, r);
    }
  }

  lemma NothingOnce(g: Config, v: Visit, visits: map<string, Visit>, r: string)
    ensures OnceWithin(g, v, 0, Walk([], visits), visits, r)
  {
  }

  lemma NextOnce(g: Config, v: Visit, k: nat, visits: map<string, Visit>, r: string)
    requires 0 < k <= |Content(g, v)| && v.depth <= MAXIMUM_INCLUDE_DEPTH && File(g, v) in visits
    requires var before := FromDirectives(g, v, k - 1, visits);
      OnceWithin(g, v, k - 1, before, visits, r) && Extends(g, visits, before.visits) &&
      (IsInclude(Content(g, v)[k - 1].key) ==> Once(g, Collected(g, Step(g, v, k - 1), before.visits), before.visits, r))
    ensures OnceWithin(g, v, k, FromDirectives(g, v, k, visits), visits, r)
  {
    hide IsInclude, Collected, OnceWithin, Once, Extends, Content;
    var before := FromDirectives(g, v, k - 1, visits);
    DirectiveExtends(g, v, k - 1, before.visits);
    if IsInclude(Content(g, v)[k - 1].key) {
      JoinOnce(g, v, k, before, Collected(g, Step(g, v, k - 1), before.visits), visits, r);
    } else {
      PlainOnce(g, v, k, before, visits, r);
    }
  }

  lemma JoinOnce(g: Config, v: Visit, k: nat, before: Walk, after: Walk, visits: map<string, Visit>, r: string)
    requires 0 < k <= |Content(g, v)| && IsInclude(Content(g, v)[k - 1].key) && File(g, v) in visits
    requires OnceWithin(g, v, k - 1, before, visits, r) && Once(g, after, before.visits, r)
    requires Extends(g, visits, before.visits) && Extends(g, before.visits, after.visits)
    ensures OnceWithin(g, v, k, Walk(before.entries + after.entries, after.visits), visits, r)
  {
    hide IsInclude;
    OfFileAppend(g, before.entries, after.entries, r);
    hide OfFile;
    var was := OfFile(g, before.entries, r);
    assert was + [] == was;
    assert [] + OfFile(g, after.entries, r) == OfFile(g, after.entries, r);
    assert Own(g, v, k - 1) + [] == Own(g, v, k - 1);
  }

  lemma PlainOnce(g: Config, v: Visit, k: nat, before: Walk, visits: map<string, Visit>, r: string)
    requires 0 < k <= |Content(g, v)| && !IsInclude(Content(g, v)[k - 1].key) && File(g, v) in visits
    requires OnceWithin(g, v, k - 1, before, visits, r) && Extends(g, visits, before.visits)
    ensures var d := Content(g, v)[k - 1];
      OnceWithin(g, v, k, Walk(before.entries + [Entry(d.key, d.value, v.path, v.conditional)], before.visits), visits, r)
  {
    hide IsInclude;
    var d := Content(g, v)[k - 1];
    var e := Entry(d.key, d.value, v.path, v.conditional);
    OfFileAppend(g, before.entries, [e], r);
    OneEntry(g, e, r);
    hide OfFile;
    assert OfFile(g, before.entries, r) + [] == OfFile(g, before.entries, r);
  }

  lemma OneEntry(g: Config, e: Entry, r: string)
    ensures OfFile(g, [e], r) == if g.realPath(e.source) == r then [e] else []
  {
    assert [e][..0] == [] && OfFile(g, [e][..0], r) == [];
  }

  // ----- Chains of includes -----

  /** A chain of include lines, each in the file the one before led to. */
  ghost predicate ValidChain(g: Config, v: Visit, chain: seq<nat>)
    decreases |chain|
  {
    chain == [] ||
    (chain[0] < |Content(g, v)| && IsInclude(Content(g, v)[chain[0]].key) && ValidChain(g, Step(g, v, chain[0]), chain[1..]))
  }

  /** Where a chain leads, and how. */
  ghost function Follow(g: Config, v: Visit, chain: seq<nat>): Visit
    requires ValidChain(g, v, chain)
    decreases |chain|
  {
    if chain == [] then v else Follow(g, Step(g, v, chain[0]), chain[1..])
  }

  /** Some include line of the chain is conditional. */
  ghost predicate PassesCondition(g: Config, v: Visit, chain: seq<nat>)
    requires ValidChain(g, v, chain)
    decreases |chain|
  {
    chain != [] &&
    (Content(g, v)[chain[0]].key != "include.path" || PassesCondition(g, Step(g, v, chain[0]), chain[1..]))
  }

  lemma {:induction false} Followed(g: Config, v: Visit, chain: seq<nat>)
    requires ValidChain(g, v, chain)
    ensures var u := Follow(g, v, chain);
      u.chain == v.chain + chain && u.depth == v.depth + |chain| &&
      (u.conditional <==> v.conditional || PassesCondition(g, v, chain))
    decreases |chain|
  {
    hide IsInclude;
    if chain != [] {
      Followed(g, Step(g, v, chain[0]), chain[1..]);
      assert v.chain + [chain[0]] + chain[1..] == v.chain + chain;
    }
  }

  /** The chain meets no file twice, and none of `above`. */
  ghost predicate Simple(g: Config, v: Visit, chain: seq<nat>, above: set<string>)
    requires ValidChain(g, v, chain)
    decreases |chain|
  {
    File(g, v) !in above && (chain == [] || Simple(g, Step(g, v, chain[0]), chain[1..], above + {File(g, v)}))
  }

  /** The visit `u` is what following its own recorded chain on from `v` gives, and that
      chain meets no file twice. */
  ghost predicate Reached(g: Config, v: Visit, above: set<string>, u: Visit) {
    |v.chain| <= |u.chain| && ValidChain(g, v, u.chain[|v.chain|..]) && Follow(g, v, u.chain[|v.chain|..]) == u &&
    Simple(g, v, u.chain[|v.chain|..], above)
  }

  lemma ReachedSelf(g: Config, v: Visit, above: set<string>)
    requires File(g, v) !in above
    ensures Reached(g, v, above, v)
  {
    assert v.chain[|v.chain|..] == [];
  }

  /** Going on from a step: the recorded chain goes through that include line. */
  lemma ReachedStep(g: Config, v: Visit, i: nat, above: set<string>, u: Visit)
    requires i < |Content(g, v)| && IsInclude(Content(g, v)[i].key) && File(g, v) !in above
    requires Reached(g, Step(g, v, i), above + {File(g, v)}, u)
    ensures Reached(g, v, above, u) && |u.chain| > |v.chain| && u.chain[|v.chain|..] == [i] + u.chain[|v.chain| + 1..]
  {
    hide IsInclude;
    var s := Step(g, v, i);
    Followed(g, s, u.chain[|s.chain|..]);
    var rest := u.chain[|v.chain|..];
    assert u.chain == s.chain + u.chain[|s.chain|..] == v.chain + ([i] + u.chain[|s.chain|..]);
    assert rest == [i] + u.chain[|s.chain|..] && rest[1..] == u.chain[|s.chain|..];
  }

  ghost predicate NewOnesReached(g: Config, v: Visit, above: set<string>, before: map<string, Visit>, after: map<string, Visit>) {
    forall r | r in after && r !in before :: Reached(g, v, above, after[r])
  }

  /** Every newly visited file is recorded with a chain of includes that leads to it. */
  lemma {:induction false} CollectedReached(g: Config, v: Visit, above: set<string>, visits: map<string, Visit>)
    requires above <= visits.Keys
    ensures NewOnesReached(g, v, above, visits, Collected(g, v, visits).visits)
    decreases MAXIMUM_INCLUDE_DEPTH + 1 - v.depth, 0
  {
    hide Reached;
    if File(g, v) !in visits && v.depth <= MAXIMUM_INCLUDE_DEPTH {
      DirectivesReached(g, v, |Content(g, v)|, above, visits[File(g, v) := v]);
      DirectivesExtend(g, v, |Content(g, v)|, visits[File(g, v) := v]);
      ReachedSelf(g, v, above);
    }
  }

  lemma {:induction false} DirectivesReached(g: Config, v: Visit, k: nat, above: set<string>, visits: map<string, Visit>)
    requires v.depth <= MAXIMUM_INCLUDE_DEPTH && k <= |Content(g, v)|
    requires above <= visits.Keys && File(g, v) in visits && File(g, v) !in above
    ensures NewOnesReached(g, v, above, visits, FromDirectives(g, v, k, visits).visits)
    decreases MAXIMUM_INCLUDE_DEPTH - v.depth, k + 1
  {
    hide Reached;
    if k > 0 {
      var before := FromDirectives(g, v, k - 1, visits).visits;
      DirectivesReached(g, v, k - 1, above, visits);
      DirectivesExtend(g, v, k - 1, visits);
      if IsInclude(Content(g, v)[k - 1].key) {
        CollectedReached(g, Step(g, v, k - 1), above + {File(g, v)}, before);
        StepReaches(g, v, k - 1, above, before, Collected(g, Step(g, v, k - 1), before).visits);
      }
      DirectiveExtends(g, v, k - 1, before);
    }
  }

  lemma StepReaches(g: Config, v: Visit, i: nat, above: set<string>, before: map<string, Visit>, after: map<string, Visit>)
    requires i < |Content(g, v)| && IsInclude(Content(g, v)[i].key) && File(g, v) !in above
    requires NewOnesReached(g, Step(g, v, i), above + {File(g, v)}, before, after)
    ensures NewOnesReached(g, v, above, before, after)
  {
    hide Reached;
    forall r | r in after && r !in before ensures Reached(g, v, above, after[r]) { ReachedStep(g, v, i, above, after[r]); }
  }

  // ----- What the depth limit turns away -----

  /** Nowhere below `v` is a file not seen yet turned away because it lies too deep. */
  predicate NeverCut(g: Config, v: Visit, visits: map<string, Visit>)
    decreases MAXIMUM_INCLUDE_DEPTH + 1 - v.depth, 0
  {
    File(g, v) in visits ||
    (v.depth <= MAXIMUM_INCLUDE_DEPTH && NoneCut(g, v, |Content(g, v)|, visits[File(g, v) := v]))
  }

  predicate NoneCut(g: Config, v: Visit, k: nat, visits: map<string, Visit>)
    requires v.depth <= MAXIMUM_INCLUDE_DEPTH && k <= |Content(g, v)|
    decreases MAXIMUM_INCLUDE_DEPTH - v.depth, k + 1
  {
    k == 0 ||
    (NoneCut(g, v, k - 1, visits) &&
     (IsInclude(Content(g, v)[k - 1].key) ==> NeverCut(g, Step(g, v, k - 1), FromDirectives(g, v, k - 1, visits).visits)))
  }

  /** The files the first `k` directives of a visited file include have been seen. */
  ghost predicate TargetsSeen(g: Config, u: Visit, k: nat, visits: map<string, Visit>)
    requires k <= |Content(g, u)|
  {
    forall i | 0 <= i < k && IsInclude(Content(g, u)[i].key) :: File(g, Step(g, u, i)) in visits
  }

  ghost predicate Closed(g: Config, u: Visit, visits: map<string, Visit>) { TargetsSeen(g, u, |Content(g, u)|, visits) }

  /** All newly visited files are closed, or, when not all are asked for, those above the limit. */
  ghost predicate NewOnesClosed(g: Config, all: bool, before: map<string, Visit>, after: map<string, Visit>) {
    forall r | r in after && r !in before && (all || after[r].depth < MAXIMUM_INCLUDE_DEPTH) :: Closed(g, after[r], after)
  }

  lemma ClosedTwice(g: Config, all: bool, a: map<string, Visit>, b: map<string, Visit>, c: map<string, Visit>)
    requires Extends(g, a, b) && Extends(g, b, c) && NewOnesClosed(g, all, a, b) && NewOnesClosed(g, all, b, c)
    ensures NewOnesClosed(g, all, a, c)
  {
    hide IsInclude, Target;
  }

  lemma {:induction false} CollectedClosed(g: Config, all: bool, v: Visit, visits: map<string, Visit>)
    requires all ==> NeverCut(g, v, visits)
    ensures NewOnesClosed(g, all, visits, Collected(g, v, visits).visits)
    ensures all || v.depth <= MAXIMUM_INCLUDE_DEPTH ==> File(g, v) in Collected(g, v, visits).visits
    decreases MAXIMUM_INCLUDE_DEPTH + 1 - v.depth, 0
  {
    if File(g, v) !in visits && v.depth <= MAXIMUM_INCLUDE_DEPTH {
      DirectivesClosed(g, all, v, |Content(g, v)|, visits[File(g, v) := v]);
      DirectivesExtend(g, v, |Content(g, v)|, visits[File(g, v) := v]);
    }
  }

  lemma {:induction false} DirectivesClosed(g: Config, all: bool, v: Visit, k: nat, visits: map<string, Visit>)
    requires v.depth <= MAXIMUM_INCLUDE_DEPTH && k <= |Content(g, v)| && (all ==> NoneCut(g, v, k, visits))
    ensures NewOnesClosed(g, all, visits, FromDirectives(g, v, k, visits).visits)
    ensures all || v.depth < MAXIMUM_INCLUDE_DEPTH ==> TargetsSeen(g, v, k, FromDirectives(g, v, k, visits).visits)
    decreases MAXIMUM_INCLUDE_DEPTH - v.depth, k + 1
  {
    if k > 0 {
      var before := FromDirectives(g, v, k - 1, visits).visits;
      DirectivesClosed(g, all, v, k - 1, visits);
      if IsInclude(Content(g, v)[k - 1].key) { CollectedClosed(g, all, Step(g, v, k - 1), before); }
      DirectivesExtend(g, v, k - 1, visits);
      DirectiveExtends(g, v, k - 1, before);
      NextClosed(g, all, v, k, visits, before, OneDirective(g, v, k - 1, before).visits);
    }
  }

  lemma NextClosed(g: Config, all: bool, v: Visit, k: nat, visits: map<string, Visit>, before: map<string, Visit>, after: map<string, Visit>)
    requires 0 < k <= |Content(g, v)| && Extends(g, visits, before) && Extends(g, before, after)
    requires NewOnesClosed(g, all, visits, before) && NewOnesClosed(g, all, before, after)
    requires all || v.depth < MAXIMUM_INCLUDE_DEPTH ==> TargetsSeen(g, v, k - 1, before)
    requires (all || v.depth < MAXIMUM_INCLUDE_DEPTH) && IsInclude(Content(g, v)[k - 1].key) ==> File(g, Step(g, v, k - 1)) in after
    ensures NewOnesClosed(g, all, visits, after)
    ensures all || v.depth < MAXIMUM_INCLUDE_DEPTH ==> TargetsSeen(g, v, k, after)
  {
    hide IsInclude, Target;
    ClosedTwice(g, all, visits, before, after);
  }

  /** Two names of one file resolve an include to the same file. */
  ghost predicate PathsAgree(g: Config) {
    forall p, q, d :: g.realPath(p) == g.realPath(q) ==> g.realPath(Target(g, d, p)) == g.realPath(Target(g, d, q))
  }

  // ----- The first chain into a file -----

  /** Depth-first order: at the first difference the earlier line comes first. */
  predicate ChainLe(a: seq<nat>, b: seq<nat>) {
    a == [] || (b != [] && (a[0] < b[0] || (a[0] == b[0] && ChainLe(a[1..], b[1..]))))
  }

  /** Every file seen, except those still being read, has had its includes followed. */
  ghost predicate ClosedOutside(g: Config, above: set<string>, visits: map<string, Visit>) {
    forall r | r in visits :: File(g, visits[r]) == r && (r !in above ==> Closed(g, visits[r], visits))
  }

  /** A chain that stays clear of the files being read ends at a seen file if it starts at one. */
  lemma {:induction false} ChainSeen(g: Config, v: Visit, chain: seq<nat>, above: set<string>, visits: map<string, Visit>)
    requires PathsAgree(g) && ClosedOutside(g, above, visits)
    requires ValidChain(g, v, chain) && File(g, v) in visits && Simple(g, v, chain, above)
    ensures File(g, Follow(g, v, chain)) in visits
    decreases |chain|
  {
    hide IsInclude, Target;
    if chain != [] {
      var u := visits[File(g, v)];
      var s := Step(g, v, chain[0]);
      assert Closed(g, u, visits) && Content(g, u) == Content(g, v);
      assert File(g, Step(g, u, chain[0])) in visits;
      assert File(g, Step(g, u, chain[0])) == File(g, s);
      FewerAbove(g, s, chain[1..], above, above + {File(g, v)});
      ChainSeen(g, s, chain[1..], above, visits);
    }
  }

  lemma {:induction false} FewerAbove(g: Config, v: Visit, chain: seq<nat>, fewer: set<string>, above: set<string>)
    requires ValidChain(g, v, chain) && Simple(g, v, chain, above) && fewer <= above
    ensures Simple(g, v, chain, fewer)
    decreases |chain|
  {
    if chain != [] { FewerAbove(g, Step(g, v, chain[0]), chain[1..], fewer + {File(g, v)}, above + {File(g, v)}); }
  }

  /** While the file of `v` is being read, everything else seen stays closed. */
  lemma StaysClosed(g: Config, v: Visit, k: nat, above: set<string>, visits: map<string, Visit>)
    requires v.depth <= MAXIMUM_INCLUDE_DEPTH && k <= |Content(g, v)| && File(g, v) in visits && visits[File(g, v)] == v
    requires ClosedOutside(g, above + {File(g, v)}, visits) && NoneCut(g, v, k, visits)
    ensures ClosedOutside(g, above + {File(g, v)}, FromDirectives(g, v, k, visits).visits)
    ensures TargetsSeen(g, v, k, FromDirectives(g, v, k, visits).visits)
  {
    hide FromDirectives, Target, IsInclude, NoneCut;
    var now := FromDirectives(g, v, k, visits).visits;
    DirectivesClosed(g, true, v, k, visits);
    DirectivesExtend(g, v, k, visits);
    forall r | r in now && r !in above + {File(g, v)} ensures Closed(g, now[r], now) {
      if r in visits { assert Closed(g, visits[r], visits); }
    }
  }

  /** `c` is a chain from `v` to the file `r` that passes no file twice, nor one being read. */
  ghost predicate Leads(g: Config, v: Visit, c: seq<nat>, above: set<string>, r: string) {
    ValidChain(g, v, c) && Simple(g, v, c, above) && File(g, Follow(g, v, c)) == r
  }

  /** A file newly recorded is recorded with the first of all chains to it, in depth-first order. */
  lemma {:induction false} FirstChain(g: Config, v: Visit, above: set<string>, visits: map<string, Visit>, r: string, c: seq<nat>)
    requires above <= visits.Keys && PathsAgree(g) && ClosedOutside(g, above, visits) && NeverCut(g, v, visits)
    requires r in Collected(g, v, visits).visits && r !in visits && Leads(g, v, c, above, r)
    ensures var u := Collected(g, v, visits).visits[r]; |v.chain| <= |u.chain| && ChainLe(u.chain[|v.chain|..], c)
    decreases MAXIMUM_INCLUDE_DEPTH + 1 - v.depth, 0
  {
    hide ClosedOutside, PathsAgree, Leads;
    var f := File(g, v);
    var start := visits[f := v];
    if r == f {
      DirectivesExtend(g, v, |Content(g, v)|, start);
      assert v.chain[|v.chain|..] == [];
    } else {
      Starts(g, v, above, visits);
      FirstThrough(g, v, |Content(g, v)|, above, start, r, c);
    }
  }

  lemma Starts(g: Config, v: Visit, above: set<string>, visits: map<string, Visit>)
    requires ClosedOutside(g, above, visits) && File(g, v) !in visits
    ensures ClosedOutside(g, above + {File(g, v)}, visits[File(g, v) := v])
  {
    hide Target, IsInclude;
    var now := visits[File(g, v) := v];
    forall r | r in now && r !in above + {File(g, v)} ensures Closed(g, now[r], now) {
      assert Closed(g, visits[r], visits);
    }
  }

  lemma {:induction false} FirstThrough(g: Config, v: Visit, k: nat, above: set<string>, start: map<string, Visit>, r: string, c: seq<nat>)
    requires v.depth <= MAXIMUM_INCLUDE_DEPTH && k <= |Content(g, v)| && File(g, v) in start && start[File(g, v)] == v
    requires above <= start.Keys && File(g, v) !in above
    requires PathsAgree(g) && ClosedOutside(g, above + {File(g, v)}, start) && NoneCut(g, v, k, start)
    requires r in FromDirectives(g, v, k, start).visits && r !in start && Leads(g, v, c, above, r)
    ensures var u := FromDirectives(g, v, k, start).visits[r]; |v.chain| <= |u.chain| && ChainLe(u.chain[|v.chain|..], c)
    decreases MAXIMUM_INCLUDE_DEPTH - v.depth, k + 1
  {
    hide ClosedOutside, PathsAgree, NeverCut, Leads, IsInclude, ChainLe;
    if k == 0 { return; }
    var before := FromDirectives(g, v, k - 1, start).visits;
    if r in before {
      FirstThrough(g, v, k - 1, above, start, r, c);
      DirectiveExtends(g, v, k - 1, before);
    } else {
      StaysClosed(g, v, k - 1, above, start);
      DirectivesExtend(g, v, k - 1, start);
      FirstAtLine(g, v, k - 1, above, before, r, c);
    }
  }

  /** The file is first met through line `j`: a chain through an earlier line would have met it before. */
  lemma {:induction false} FirstAtLine(g: Config, v: Visit, j: nat, above: set<string>, before: map<string, Visit>, r: string, c: seq<nat>)
    requires v.depth <= MAXIMUM_INCLUDE_DEPTH && j < |Content(g, v)| && File(g, v) in before
    requires above <= before.Keys && File(g, v) !in above
    requires PathsAgree(g) && ClosedOutside(g, above + {File(g, v)}, before) && TargetsSeen(g, v, j, before)
    requires IsInclude(Content(g, v)[j].key) ==> NeverCut(g, Step(g, v, j), before)
    requires r in OneDirective(g, v, j, before).visits && r !in before && Leads(g, v, c, above, r)
    ensures var u := OneDirective(g, v, j, before).visits[r]; |v.chain| <= |u.chain| && ChainLe(u.chain[|v.chain|..], c)
    decreases MAXIMUM_INCLUDE_DEPTH - v.depth, 1
  {
    hide ClosedOutside, PathsAgree, NeverCut, Target, Collected;
    assert IsInclude(Content(g, v)[j].key);
    var s := Step(g, v, j);
    var after := Collected(g, s, before).visits;
    CollectedReached(g, s, above + {File(g, v)}, before);
    ReachedStep(g, v, j, above, after[r]);
    assert c != [];
    var i, rest := c[0], c[1..];
    if i < j {
      ChainSeen(g, Step(g, v, i), rest, above + {File(g, v)}, before);
    } else if i == j {
      assert Leads(g, s, rest, above + {File(g, v)}, r);
      FirstChain(g, s, above + {File(g, v)}, before, r, rest);
      FirstStepFirst(v, j, after[r], c);
    } else {
      assert ([j] + after[r].chain[|v.chain| + 1..])[0] == j;
    }
  }

  lemma FirstStepFirst(v: Visit, j: nat, u: Visit, c: seq<nat>)
    requires c != [] && c[0] == j && |v.chain| < |u.chain| && u.chain[|v.chain|..] == [j] + u.chain[|v.chain| + 1..]
    requires ChainLe(u.chain[|v.chain| + 1..], c[1..])
    ensures ChainLe(u.chain[|v.chain|..], c)
  {
    assert ([j] + u.chain[|v.chain| + 1..])[1..] == u.chain[|v.chain| + 1..];
  }

  // ----- What is collected from a config file -----

  function Top(path: string): Visit { Visit(path, false, 0, []) }

  function SeenFrom(g: Config, path: string): map<string, Visit> { Collected(g, Top(path), map[]).visits }

  lemma TopReached(g: Config, path: string, r: string)
    requires r in SeenFrom(g, path)
    ensures var u := SeenFrom(g, path)[r];
      File(g, u) == r && ValidChain(g, Top(path), u.chain) && Follow(g, Top(path), u.chain) == u &&
      Simple(g, Top(path), u.chain, {})
  {
    hide Collected, ValidChain, Follow;
    CollectedReached(g, Top(path), {}, map[]);
    CollectedExtends(g, Top(path), map[]);
    var u := SeenFrom(g, path)[r];
    assert Reached(g, Top(path), {}, u) && u.chain[0..] == u.chain;
  }

  /** A chain of includes leads to the file. */
  ghost predicate Reachable(g: Config, path: string, r: string) {
    exists chain :: ValidChain(g, Top(path), chain) && File(g, Follow(g, Top(path), chain)) == r
  }

  /** Whatever a file met at the depth limit includes has been seen all the same. */
  ghost predicate SeenAtLimit(g: Config, visits: map<string, Visit>) {
    forall r | r in visits && visits[r].depth == MAXIMUM_INCLUDE_DEPTH :: Closed(g, visits[r], visits)
  }

  /** Only reachable files are seen, and all of them exactly when every include of a file met
      at the depth limit has been seen by some other way. */
  lemma SeenIsReachable(g: Config, path: string)
    requires PathsAgree(g)
    ensures forall r | r in SeenFrom(g, path) :: Reachable(g, path, r)
    ensures (forall r | Reachable(g, path, r) :: r in SeenFrom(g, path)) <==> SeenAtLimit(g, SeenFrom(g, path))
  {
    hide Collected, ValidChain, Follow, Simple;
    var seen := SeenFrom(g, path);
    forall r | r in seen ensures Reachable(g, path, r) { TopReached(g, path, r); }
    if SeenAtLimit(g, seen) {
      AllClosed(g, path);
      forall chain | ValidChain(g, Top(path), chain) ensures File(g, Follow(g, Top(path), chain)) in seen {
        AnyChainSeen(g, Top(path), chain, seen);
      }
    }
    if forall r | Reachable(g, path, r) :: r in seen {
      forall r, i | r in seen && 0 <= i < |Content(g, seen[r])| && IsInclude(Content(g, seen[r])[i].key)
        ensures File(g, Step(g, seen[r], i)) in seen
      {
        TopReached(g, path, r);
        OneMore(g, Top(path), seen[r].chain, i);
        assert Reachable(g, path, File(g, Step(g, seen[r], i)));
      }
    }
  }

  lemma AllClosed(g: Config, path: string)
    requires SeenAtLimit(g, SeenFrom(g, path))
    ensures ClosedOutside(g, {}, SeenFrom(g, path)) && File(g, Top(path)) in SeenFrom(g, path)
  {
    hide Collected;
    CollectedClosed(g, false, Top(path), map[]);
    CollectedExtends(g, Top(path), map[]);
  }

  /** A chain can be prolonged by an include line of the file it leads to. */
  lemma {:induction false} OneMore(g: Config, v: Visit, chain: seq<nat>, i: nat)
    requires ValidChain(g, v, chain)
    requires var u := Follow(g, v, chain); i < |Content(g, u)| && IsInclude(Content(g, u)[i].key)
    ensures ValidChain(g, v, chain + [i]) && Follow(g, v, chain + [i]) == Step(g, Follow(g, v, chain), i)
    decreases |chain|
  {
    hide IsInclude, Target;
    if chain == [] {
      assert [] + [i] == [i] && [i][1..] == [];
    } else {
      assert (chain + [i])[0] == chain[0] && (chain + [i])[1..] == chain[1..] + [i];
      OneMore(g, Step(g, v, chain[0]), chain[1..], i);
    }
  }

  lemma {:induction false} AnyChainSeen(g: Config, v: Visit, chain: seq<nat>, visits: map<string, Visit>)
    requires PathsAgree(g) && ClosedOutside(g, {}, visits) && ValidChain(g, v, chain) && File(g, v) in visits
    ensures File(g, Follow(g, v, chain)) in visits
    decreases |chain|
  {
    hide IsInclude, Target;
    if chain != [] {
      var u := visits[File(g, v)];
      assert Closed(g, u, visits) && Content(g, u) == Content(g, v);
      assert File(g, Step(g, u, chain[0])) == File(g, Step(g, v, chain[0]));
      AnyChainSeen(g, Step(g, v, chain[0]), chain[1..], visits);
    }
  }

  /** Every entry is a plain line of its file and carries the flag of the one chain recorded for
      that file: it is marked conditional exactly when that chain passes a conditional include. */
  lemma EntryComesFromChain(g: Config, path: string, e: Entry)
    requires e in Collected(g, Top(path), map[]).entries
    ensures Directive(e.key, e.value) in g.content(g.realPath(e.source)) && !IsInclude(e.key)
    ensures g.realPath(e.source) in SeenFrom(g, path)
    ensures ValidChain(g, Top(path), SeenFrom(g, path)[g.realPath(e.source)].chain)
    ensures e.conditional <==> PassesCondition(g, Top(path), SeenFrom(g, path)[g.realPath(e.source)].chain)
  {
    hide Collected, ValidChain, Follow, Simple, PassesCondition;
    EntryOfVisit(g, path, e);
    var u := SeenFrom(g, path)[g.realPath(e.source)];
    TopReached(g, path, File(g, u));
    Followed(g, Top(path), u.chain);
  }

  /** `c` leads from the config file to the file of an entry and passes no file twice. */
  ghost predicate WayTo(g: Config, path: string, c: seq<nat>, e: Entry) {
    Leads(g, Top(path), c, {}, g.realPath(e.source))
  }

  /** The first way to the entry's file in depth-first order. */
  ghost predicate FirstWay(g: Config, path: string, c: seq<nat>, e: Entry) {
    WayTo(g, path, c, e) && forall other :: WayTo(g, path, other, e) ==> ChainLe(c, other)
  }

  /** Every collected entry is a plain line of its file, and it is marked conditional exactly
      when the first way to that file passes a conditional include. */
  lemma FirstWayDecides(g: Config, path: string, e: Entry)
    requires NeverCut(g, Top(path), map[]) && PathsAgree(g) && e in Collected(g, Top(path), map[]).entries
    ensures Directive(e.key, e.value) in g.content(g.realPath(e.source)) && !IsInclude(e.key)
    ensures exists c :: FirstWay(g, path, c, e) && (e.conditional <==> PassesCondition(g, Top(path), c))
  {
    hide Collected, ValidChain, Follow, Simple, PassesCondition, ChainLe, PathsAgree, NeverCut;
    EntryOfVisit(g, path, e);
    var u := SeenFrom(g, path)[g.realPath(e.source)];
    TopReached(g, path, File(g, u));
    Followed(g, Top(path), u.chain);
    assert WayTo(g, path, u.chain, e) by { assert Leads(g, Top(path), u.chain, {}, File(g, u)); }
    forall other | WayTo(g, path, other, e) ensures ChainLe(u.chain, other) {
      NothingSeen(g);
      FirstChain(g, Top(path), {}, map[], File(g, u), other);
      assert u.chain[0..] == u.chain;
    }
    assert FirstWay(g, path, u.chain, e);
  }

  /** Every file some way leads to is seen, and recorded with its first way. */
  ghost predicate AllByFirstWay(g: Config, path: string) {
    forall r, c | Leads(g, Top(path), c, {}, r) :: r in SeenFrom(g, path) && ChainLe(SeenFrom(g, path)[r].chain, c)
  }

  /** Every file is found, and by its first way, exactly when the depth limit never turns away
      a file not seen yet. */
  lemma FirstWaysExactly(g: Config, path: string)
    requires PathsAgree(g)
    ensures NeverCut(g, Top(path), map[]) <==> AllByFirstWay(g, path)
  {
    hide Collected, ValidChain, Follow, Simple, ChainLe, PathsAgree, NeverCut;
    var seen := SeenFrom(g, path);
    if NeverCut(g, Top(path), map[]) {
      NothingSeen(g);
      CollectedClosed(g, true, Top(path), map[]);
      CollectedExtends(g, Top(path), map[]);
      forall r, c | Leads(g, Top(path), c, {}, r) ensures r in seen && ChainLe(seen[r].chain, c) {
        AnyChainSeen(g, Top(path), c, seen);
        FirstChain(g, Top(path), {}, map[], r, c);
        assert seen[r].chain[0..] == seen[r].chain;
      }
    } else {
      var c := CutMisses(g, Top(path), {}, map[]);
      var r := File(g, Follow(g, Top(path), c));
      assert Leads(g, Top(path), c, {}, r);
      if r in seen { assert seen[r].chain[0..] == seen[r].chain; }
    }
  }

  /** A file turned away is not seen later, or by a later way. */
  lemma {:induction false} CutMisses(g: Config, v: Visit, above: set<string>, visits: map<string, Visit>) returns (c: seq<nat>)
    requires above <= visits.Keys && !NeverCut(g, v, visits)
    ensures ValidChain(g, v, c) && Simple(g, v, c, above)
    ensures MissedBy(g, v, c, visits, Collected(g, v, visits).visits)
    decreases MAXIMUM_INCLUDE_DEPTH + 1 - v.depth, 0
  {
    if v.depth > MAXIMUM_INCLUDE_DEPTH {
      c := [];
    } else {
      c := CutWithin(g, v, |Content(g, v)|, above, visits[File(g, v) := v]);
    }
  }

  ghost predicate MissedBy(g: Config, v: Visit, c: seq<nat>, before: map<string, Visit>, after: map<string, Visit>)
    requires ValidChain(g, v, c)
  {
    var r := File(g, Follow(g, v, c));
    r !in before && (r in after ==> |v.chain| <= |after[r].chain| && !ChainLe(after[r].chain[|v.chain|..], c))
  }

  lemma {:induction false} CutWithin(g: Config, v: Visit, k: nat, above: set<string>, start: map<string, Visit>) returns (c: seq<nat>)
    requires v.depth <= MAXIMUM_INCLUDE_DEPTH && k <= |Content(g, v)| && File(g, v) in start
    requires above <= start.Keys && File(g, v) !in above && !NoneCut(g, v, k, start)
    ensures c != [] && c[0] < k && ValidChain(g, v, c) && Simple(g, v, c, above)
    ensures MissedBy(g, v, c, start, FromDirectives(g, v, k, start).visits)
    decreases MAXIMUM_INCLUDE_DEPTH - v.depth, k + 1
  {
    hide IsInclude, NeverCut, Target, Collected, Content, MissedBy;
    var before := FromDirectives(g, v, k - 1, start).visits;
    DirectivesExtend(g, v, k - 1, start);
    if NoneCut(g, v, k - 1, start) {
      var rest := CutMisses(g, Step(g, v, k - 1), above + {File(g, v)}, before);
      c := [k - 1] + rest;
      assert c[1..] == rest;
      MissedAtLine(g, v, k - 1, above, start, before, rest);
    } else {
      c := CutWithin(g, v, k - 1, above, start);
      MissedBefore(g, v, k - 1, above, start, before, c);
    }
  }

  lemma MissedAtLine(g: Config, v: Visit, j: nat, above: set<string>, start: map<string, Visit>, before: map<string, Visit>, rest: seq<nat>)
    requires v.depth <= MAXIMUM_INCLUDE_DEPTH && j < |Content(g, v)| && IsInclude(Content(g, v)[j].key)
    requires above + {File(g, v)} <= before.Keys && File(g, v) !in above && start.Keys <= before.Keys
    requires ValidChain(g, Step(g, v, j), rest) && ValidChain(g, v, [j] + rest)
    requires MissedBy(g, Step(g, v, j), rest, before, Collected(g, Step(g, v, j), before).visits)
    ensures MissedBy(g, v, [j] + rest, start, OneDirective(g, v, j, before).visits)
  {
    hide IsInclude, Target, Collected;
    var s, c := Step(g, v, j), [j] + rest;
    assert c[1..] == rest;
    var r, after := File(g, Follow(g, s, rest)), Collected(g, s, before).visits;
    if r in after {
      CollectedReached(g, s, above + {File(g, v)}, before);
      ReachedStep(g, v, j, above, after[r]);
      var tail := after[r].chain[|v.chain| + 1..];
      assert ([j] + tail)[1..] == tail;
    }
  }

  lemma MissedBefore(g: Config, v: Visit, j: nat, above: set<string>, start: map<string, Visit>, before: map<string, Visit>, c: seq<nat>)
    requires v.depth <= MAXIMUM_INCLUDE_DEPTH && j < |Content(g, v)|
    requires above + {File(g, v)} <= before.Keys && File(g, v) !in above
    requires c != [] && c[0] < j && ValidChain(g, v, c) && MissedBy(g, v, c, start, before)
    ensures MissedBy(g, v, c, start, OneDirective(g, v, j, before).visits)
  {
    hide IsInclude, Target, Collected;
    DirectiveExtends(g, v, j, before);
    var r, after := File(g, Follow(g, v, c)), OneDirective(g, v, j, before).visits;
    if r in after && r !in before {
      CollectedReached(g, Step(g, v, j), above + {File(g, v)}, before);
      ReachedStep(g, v, j, above, after[r]);
      assert ([j] + after[r].chain[|v.chain| + 1..])[0] == j;
    }
  }

  // ----- A file too deep by its first way -----

  function Letters(n: nat): (r: string)
    ensures |r| == n
  {
    seq(n, _ => 'f')
  }

  function IncludeOf(file: string): Directive { Directive("include.path", Some(file)) }

  /** Each file includes the one whose name is longer by a letter; the first also includes
      the one ten letters long, and the eleventh holds a plain line. */
  function NestedLines(file: string): seq<Directive> {
    if |file| > 10 then [Directive("core.hookspath", Some("hooks"))]
    else if file == "" then [IncludeOf(Letters(1)), IncludeOf(Letters(10))]
    else [IncludeOf(Letters(|file| + 1))]
  }

  const NESTED := Config(NestedLines, (p: string) => p, (value: string, includer: string) => value)

  lemma {:induction false} NestedWalk(v: Visit, visits: map<string, Visit>)
    requires 1 <= v.depth <= 10 && v.path == Letters(v.depth) && forall r | r in visits :: |r| < v.depth
    ensures var after := Collected(NESTED, v, visits).visits; Letters(10) in after && forall r | r in after :: |r| <= 10
    decreases 10 - v.depth
  {
    assert IsInclude("include.path");
    var start := visits[v.path := v];
    var next := Step(NESTED, v, 0);
    assert Content(NESTED, v) == [IncludeOf(Letters(v.depth + 1))] && next.path == Letters(v.depth + 1);
    assert File(NESTED, v) == v.path && v.path !in visits;
    assert FromDirectives(NESTED, v, 0, start).visits == start;
    assert OneDirective(NESTED, v, 0, start) == Collected(NESTED, next, start);
    assert FromDirectives(NESTED, v, 1, start).visits == Collected(NESTED, next, start).visits;
    assert Collected(NESTED, v, visits) == FromDirectives(NESTED, v, 1, start);
    if v.depth < 10 { NestedWalk(next, start); }
  }

  /** The file is met ten includes deep, which stops its own includes; that it stands in the
      main file as well comes too late, and what it includes is never seen. */
  lemma DeepIncludeIsMissed()
    ensures PathsAgree(NESTED) && ValidChain(NESTED, Top(""), [1, 0])
    ensures File(NESTED, Follow(NESTED, Top(""), [1, 0])) == Letters(11)
    ensures Letters(11) !in SeenFrom(NESTED, "")
    ensures forall e | e in Collected(NESTED, Top(""), map[]).entries :: e.source != Letters(11)
  {
    hide Collected, ValidChain, Follow, IsInclude;
    SecondWay(Top(""));
    DeepestSeen();
    forall e | e in Collected(NESTED, Top(""), map[]).entries ensures e.source != Letters(11) { EntryOfVisit(NESTED, "", e); }
  }

  lemma DeepestSeen()
    ensures forall r | r in SeenFrom(NESTED, "") :: |r| <= 10
  {
    assert IsInclude("include.path");
    var v := Top("");
    var start: map<string, Visit> := map["" := v];
    var a, b := Step(NESTED, v, 0), Step(NESTED, v, 1);
    assert Content(NESTED, v) == [IncludeOf(Letters(1)), IncludeOf(Letters(10))];
    NestedWalk(a, start);
    var inside := Collected(NESTED, a, start).visits;
    hide IsInclude;
    assert FromDirectives(NESTED, v, 0, start).visits == start;
    assert FromDirectives(NESTED, v, 1, start).visits == inside;
    assert Collected(NESTED, b, inside).visits == inside;
    assert FromDirectives(NESTED, v, 2, start).visits == inside;
  }

  lemma SecondWay(v: Visit)
    requires v == Top("")
    ensures ValidChain(NESTED, v, [1, 0]) && File(NESTED, Follow(NESTED, v, [1, 0])) == Letters(11)
  {
    assert IsInclude("include.path");
    var b := Step(NESTED, v, 1);
    assert Content(NESTED, b) == [IncludeOf(Letters(11))];
    assert [1, 0][1..] == [0] && [0][1..] == [];
    assert ValidChain(NESTED, Step(NESTED, b, 0), []);
    assert ValidChain(NESTED, b, [0]) && Follow(NESTED, b, [0]) == Step(NESTED, b, 0);
  }

  lemma NothingSeen(g: Config)
    ensures ClosedOutside(g, {}, map[])
  {
  }

  lemma EntryOfVisit(g: Config, path: string, e: Entry)
    requires e in Collected(g, Top(path), map[]).entries
    ensures g.realPath(e.source) in SeenFrom(g, path)
    ensures var u := SeenFrom(g, path)[g.realPath(e.source)]; File(g, u) == g.realPath(e.source) && e.conditional == u.conditional
    ensures Directive(e.key, e.value) in g.content(g.realPath(e.source)) && !IsInclude(e.key)
  {
    hide Collected;
    var w, r := Collected(g, Top(path), map[]), g.realPath(e.source);
    CollectedOnce(g, Top(path), map[], r);
    CollectedExtends(g, Top(path), map[]);
    InOfFile(g, w.entries, e);
    OwnMembers(g, w.visits[r], |Content(g, w.visits[r])|, e);
  }

  /** The flag says that every way to the file passes a condition exactly when the first
      way passes none, or all of them do: a plain include that comes after a conditional
      one is the case in which it does not. */
  lemma FlagMeansEveryWay(g: Config, path: string, e: Entry, first: seq<nat>)
    requires NeverCut(g, Top(path), map[]) && PathsAgree(g) && e in Collected(g, Top(path), map[]).entries
    requires FirstWay(g, path, first, e)
    ensures (e.conditional <==> forall c :: WayTo(g, path, c, e) ==> PassesCondition(g, Top(path), c)) <==>
      !(PassesCondition(g, Top(path), first) && exists c :: WayTo(g, path, c, e) && !PassesCondition(g, Top(path), c))
  {
    hide Collected, ValidChain, Follow, Simple, PassesCondition, ChainLe, PathsAgree, NeverCut;
    FirstWayDecides(g, path, e);
    var c :| FirstWay(g, path, c, e) && (e.conditional <==> PassesCondition(g, Top(path), c));
    ChainsInOrder(c, first);
  }

  lemma {:induction false} ChainsInOrder(a: seq<nat>, b: seq<nat>)
    requires ChainLe(a, b) && ChainLe(b, a)
    ensures a == b
  {
    if a != [] {
      ChainsInOrder(a[1..], b[1..]);
      assert a == [a[0]] + a[1..] && b == [b[0]] + b[1..];
    }
  }

  /** A file included under a condition and then plainly: its line stays marked, although
      the second include line leads to it without any condition. */
  lemma PlainIncludeComesTooLate(g: Config, main: string, under: Directive, plain: Directive, b: string, line: Directive)
    requires IsInclude(under.key) && under.key != "include.path" && plain.key == "include.path" && !IsInclude(line.key)
    requires g.content(g.realPath(main)) == [under, plain] && b != g.realPath(main) && g.content(b) == [line]
    requires g.realPath(Target(g, under, main)) == b == g.realPath(Target(g, plain, main))
    ensures Collected(g, Top(main), map[]).entries == [Entry(line.key, line.value, Target(g, under, main), true)]
    ensures WayTo(g, main, [1], Entry(line.key, line.value, Target(g, under, main), true))
    ensures ValidChain(g, Top(main), [1]) && !PassesCondition(g, Top(main), [1])
  {
    hide Target;
    assert IsInclude("include.path");
    var v := Top(main);
    var start: map<string, Visit> := map[File(g, v) := v];
    var u, w := Step(g, v, 0), Step(g, v, 1);
    var inside := start[b := u];
    var es := [Entry(line.key, line.value, u.path, true)];
    LineAlone(g, u, start);
    assert [] + es == es && es + [] == es;
    assert FromDirectives(g, v, 1, start) == Walk([] + es, inside);
    assert Collected(g, w, inside) == Walk([], inside);
    assert FromDirectives(g, v, 2, start) == Walk(es + [], inside);
    assert [1][1..] == [] && ValidChain(g, w, []) && Follow(g, v, [1]) == w;
  }

  lemma LineAlone(g: Config, u: Visit, start: map<string, Visit>)
    requires u.depth <= MAXIMUM_INCLUDE_DEPTH && File(g, u) !in start && |Content(g, u)| == 1 && !IsInclude(Content(g, u)[0].key)
    ensures Collected(g, u, start) == Walk([Entry(Content(g, u)[0].key, Content(g, u)[0].value, u.path, u.conditional)], start[File(g, u) := u])
  {
    hide IsInclude;
    var e := Entry(Content(g, u)[0].key, Content(g, u)[0].value, u.path, u.conditional);
    var inside := start[File(g, u) := u];
    assert FromDirectives(g, u, 0, inside) == Walk([], inside) && OneDirective(g, u, 0, inside) == Walk([e], inside);
    assert [] + [e] == [e];
  }

  lemma {:induction false} InOfFile(g: Config, es: seq<Entry>, e: Entry)
    requires e in es
    ensures e in OfFile(g, es, g.realPath(e.source))
  {
    assert es == es[..|es| - 1] + [es[|es| - 1]];
    if e in es[..|es| - 1] { InOfFile(g, es[..|es| - 1], e); }
  }

  lemma {:induction false} OwnMembers(g: Config, v: Visit, k: nat, e: Entry)
    requires k <= |Content(g, v)| && e in Own(g, v, k)
    ensures Directive(e.key, e.value) in Content(g, v) && !IsInclude(e.key) && e.source == v.path && e.conditional == v.conditional
  {
    hide IsInclude;
    if k > 0 {
      if e in Own(g, v, k - 1) { OwnMembers(g, v, k - 1, e); } else { assert Content(g, v)[k - 1] in Content(g, v); }
    }
  }
}
