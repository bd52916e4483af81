# vaibify self-guards: a verified model

The repository guards itself with small algorithms whose being right is the point: an inventory of
call sites that must not drift, a harness that breaks the code on purpose and must put it back, text
tools that rewrite files, a digest that decides whether the running source changed, a lock two threads
share, a reconnect loop inside a fixed window. This project models twelve of those files and proves what
they are for. Where the original changes state in place (rows, files on disk, a shared set, module
state, a popped handle) the model does so too, and each such method is tied to a specification about
which the theorems are proved. `dafny verify dfyconfig.toml` checks everything.

Layout, by what is modelled:

- Scope model and visitor (`tools/generateMutationInventory.py`): `PythonTree`, `ScopeModel`,
  `LexicalScopes`, `ScopeTheorems`, `CallSites`, and where its readings hold good: `NameBinders`,
  `ListReadings`, `LambdaScopes`, `DefinitionHeaders`, `ImportOrder`. A syntax tree is a tree of nodes
  with the forms the tool reads and the forms that bind a name unseen by it; a scope is named by its
  path from the module. `ExpressionChains`, `BindingMeaning` and `CallMeaning` say what the bindings
  and the record mean, by how expressions, imports and calls are written.
- Inventories: `Inventory`, `InventoryDrift`, `BlindSpots` (same file), `HostInventory`, `HostDrift`
  (`tools/generateHostCapabilityInventory.py`), over `Occurrences` and `Records`.
- Attribution (`tools/mutationAttribution.py`): `Attribution`, `AttributionMeaning`, `AliasHops`,
  `Observations`.
- Falsification harness (`tools/reconfirmFalsification.py`, `tools/summarizeFalsificationShards.py`):
  `Preconditions`, `Falsification`, `VerdictMeaning`, `Shards`, `Summary`, `WorkerMerge`.
- Text tools: `Spelling`, `SpellingTheorems`, `SpellingMeaning`, `WordList`; `Json`, `JsonRoundTrip`,
  `Ledger`, `LedgerTheorems`, `LedgerOrder`; `PinText`, `PinLines`, `PinMeaning`, `PinBumps`,
  `PinPlaces`; `Archive`, `ArchiveMeaning`, `ArchiveEnds`; `ConfigValues`, `ConfigIncludes`.
- Tree identity (`vaibify/versionIdentity.py`): `TreeWalk`, `TreeDigest`, `StartupIdentity`,
  `SourceMeaning`.
- Lifecycle lock (`vaibify/cli/commandStart.py`): `LifecycleLock`, `LockRuns`. Reconnect budget
  (`vaibify/cli/commandRemote.py`): `Reconnect`.
- Shared: `Numerals`, `NumeralMeaning`, `Text`, `Orders`, `Cuts`, `Hashing`.

The modules named for a meaning state what the others compute without naming the functions that
compute it: by the texts an input is put together from, the rows and lines it holds, or the steps of
a run.

Abstractions: SHA-256 is an injective function with nonempty hexadecimal results; text is ASCII
characters; git, the file system, pytest, the container runtime and the clock are inputs or steps of a
state machine. JSON is the grammar of sections 2 to 7 of RFC 8259 without fractions and exponents.

## What the proofs found

Behaviour that falls short of what one would expect is kept as the code has it. Each item names the
lemma that shows it and, where the code does meet the expectation on a condition, the theorem that says
exactly when:

- A name assigned a list display and then something else still resolves to the display, and the launch
  of whatever it holds counts as readable: after another assignment (`ListReadings.ReboundNameIsRead`)
  and after a `def` of that name (`ListReadings.RedefinedNameIsRead`). A resolved name was bound to its
  display alone exactly when nothing else of the scope binds it: no parameter, no other store or
  deletion outside a comprehension, no import, nested definition or class, except handler or match
  pattern (`ListReadings.ReadingIsOnlyBinding`).
- What a scope counts as bound misses only the names of nested definitions and classes, of handlers and
  of patterns, and has too many only in the targets of comprehensions (`NameBinders.CountedExactly`). A
  name of the first kind does not shadow the outer one (`ListReadings.DefinitionDoesNotShadow`); one of
  the second hides it, and a launch with it (`NameBinders.TargetHidesLaunch`). Rebinding shadows what it
  should, and nothing else, exactly when no tracked name is bound in those ways only
  (`NameBinders.ShadowsExactly`).
- The visitor does not enter a lambda as a scope, although the scope model has an entry for it: a call on
  a lambda's own parameter named `subprocess` is recorded as an unreadable launch
  (`LambdaScopes.ParameterTakenForModule`). The visitor stands in the innermost scope exactly when that
  is no lambda (`LambdaScopes.StandsInOwner`), and the bindings agree all the same exactly when the
  lambdas bind no tracked name (`LambdaScopes.JudgedInScopeExactly`).
- Decorators, defaults and annotations are judged with the bindings of the definition's body, although
  they are evaluated outside it: in `def f(subprocess, x=subprocess.run(cmd))` the launch is not recorded
  (`DefinitionHeaders.DefaultTakenForParameter`). It makes no difference exactly when the definition
  leaves every binding around it as it is (`DefinitionHeaders.JudgedOutsideExactly`).
- Of the plain imports of listed modules that bind an alias the one written first is read, because the
  walk pops nodes from the end of the source backwards (`ImportOrder.FirstImportIsRead`,
  `ImportOrder.EarlierImportIsRead`); an import of any other module before it is passed over
  (`ImportOrder.UnlistedImportIsPassedOver`), and a later binding of the alias by other means changes
  nothing (`ImportOrder.LaterFromImportIsMissed`). Over all binders, an alias is read as what the scope
  binds it to last exactly when that first import and the last binder name one module
  (`ImportOrder.AliasReadExactly`).
- Two names called on one line that stand for the same row count as two hops, and the observation is
  refused (`AliasHops.TwoNamesAreRefused`). The only possible row is accepted exactly when a single
  called name leads to it (`AliasHops.PossibleRowAcceptedExactly`).
- A batch of clean runs that breaks off vouches for every test it never reached, so that a test failing
  on any sources is credited with a kill (`Falsification.AbortedBatchCreditsAKill`). A killed entry's test
  was seen passing exactly when it was checked alone, the batch ended well, or the batch's report lists it
  (`Falsification.KilledIsEarned`). Two node ids can share a case in that report
  (`Preconditions.ClassAndFileCollide`), and a failure is then charged to the wrong one
  (`Preconditions.SharedCaseIsVouchedFor`). A failing case of a parametrised test whose id names no
  parameters makes every test a suspect (`Preconditions.FailureOutsideSuspectsAll`).
- A worker that died leaves no trace in its parent's summary, and the summary job ends with 0
  (`WorkerMerge.CrashedWorkerUnnoticed`). Exit 0 proves that everything was killed exactly when every
  worker with a nonempty slice reported (`WorkerMerge.UnionProvesExactly`).
- A summary for a shard beyond the expected split, claiming the right count, passes unnoticed
  (`Summary.ExtraShardPasses`); a complete union is therefore what the summary checks, not an exact one.
- An ar header may claim a negative size. The reader ends exactly when no header position is met twice
  (`ArchiveEnds.EndsExactly`); while no size is below -61, that is exactly when none is -60 or -61
  (`ArchiveEnds.EndsUnlessStuck`). `ArchiveEnds.StickingHolds` gives an archive it never leaves.
- A pin whose version only begins with the bumped one is rewritten too, to a version nobody chose
  (`PinBumps.PrefixIsRewritten`: the bump is right exactly when the old version was the whole pin). The
  second block is rewritten in the wrong place exactly when its text is met earlier
  (`PinPlaces.SecondStageExactly`, `PinPlaces.EarlierCopyMisleads`, `PinBumps.SecondBlockMissed`);
  for tidy blocks it is enough to look at the original file (`PinPlaces.BumpingFromTheFile`).
- The count of pin-shaped lines is there so that no pin goes unread. Where every pin is indented it
  does what it is for: the block is accepted exactly when every such line is read and no package twice
  (`PinMeaning.AcceptedExactly`). An unindented pin after an empty line is read but not counted, and
  makes up for an indented one that is counted but not read (`PinMeaning.BrokenPinUnnoticed`).
- A config key whose two include parts share their dot, `includeif.path`, is followed as an include with
  a condition (`ConfigIncludes.IncludeKeys`).
- A config file included first under a condition stays marked conditional even when a plain include of
  it follows (`ConfigIncludes.PlainIncludeComesTooLate`): the first way in, depth first, decides
  (`ConfigIncludes.FirstWayDecides`; `ConfigIncludes.FlagMeansEveryWay` compares it with the others).
- A file first met at the include limit is not followed, even where a short way leads to it, so files
  can go unseen (`ConfigIncludes.DeepIncludeIsMissed`). All reachable files are seen exactly when
  whatever a file at the limit includes was seen in another way (`ConfigIncludes.SeenIsReachable`), and
  every file is found by its first way exactly when the limit never turns away a file not seen yet
  (`ConfigIncludes.FirstWaysExactly`).
- A logical config line broken after an escaped backslash is not joined again
  (`ConfigValues.EscapedBackslashEndsTheLine`); joining undoes breaking exactly when no break falls after
  a backslash (`ConfigValues.JoinUndoesBreaking`).
- With equal sizes, a time stamp that repeats or differs by 2^32 runs stale bytecode
  (`Falsification.StaleWithoutFreshStamps`, and exactly then, `VerdictMeaning.StaleExactly`): the fresh
  stamps are what prevents it.
- A file name with a bar in it lets two sites share a row key (`Inventory.BarredFileCollides`); without
  one the key is injective (`Inventory.RowKeyIsInjective`).
- Conversion leaves nothing to fix, on all texts, exactly when no replacement is itself an entry of the
  word list (`SpellingTheorems.CompleteExactlyWhenClosed`).
- The fallback of `_fnRestoreOriginals` to a git checkout brings back HEAD, which is the snapshot only
  where the file had no uncommitted change (`Falsification.Harness.RestoreOriginals`).
- Only delays count against the reconnect budget. Every attempt of an outage starts inside window minus
  margin exactly when the sessions that failed fit into what the delays leave
  (`Reconnect.OutageStartsInTime`); with the shipped constants the last of 33 attempts starts late when
  32 failures take more than 24 seconds together (`Reconnect.SlowSessionsOverrun`).

## Model

| member | source | states |
|---|---|---|
| ScopeModel.SplitScopeNodes | tools/generateMutationInventory.py:1566-1588 | the worklist's two lists are the region's own nodes and its nested scopes, in pop order |
| ScopeModel.RegionMembers | tools/generateMutationInventory.py:1566-1588 | a node is popped exactly when it lies below the scope with no other scope in between |
| ScopeModel.ListLiteralsMeaning | tools/generateMutationInventory.py:1711-1734 | a name resolves to a display exactly when one display assignment of the scope has it as a plain target, and to that display |
| ScopeModel.CollectListLiterals | tools/generateMutationInventory.py:1711-1734 | the loop over targets with its repeated-name set computes exactly those literals |
| ListReadings.ReadingIsOnlyBinding | tools/generateMutationInventory.py:1711-1734 | a resolved name was bound to its display alone exactly when it is no parameter and no other node of the scope binds it, nested definitions, classes, handlers and patterns included, targets of comprehensions not |
| ListReadings.ReboundNameIsRead | tools/generateMutationInventory.py:1711-1771 | a name rebound to a call still resolves to its earlier display, and its launch counts as readable |
| ListReadings.RedefinedNameIsRead | tools/generateMutationInventory.py:1711-1771 | a name assigned a display and then defined as a function still resolves to the display |
| ListReadings.DefinitionDoesNotShadow | tools/generateMutationInventory.py:1642-1708 | a function's own definition of a name does not shadow the display the module gave it |
| NameBinders.CountedExactly | tools/generateMutationInventory.py:1683-1708 | a bound name that is not counted is bound by a nested definition or class, a handler or a pattern, and a counted name that is not bound is the target of a comprehension |
| NameBinders.ShadowsExactly | tools/generateMutationInventory.py:1642-1708 | rebinding takes away the inherited meanings of the names a scope binds, and of no others, exactly when no tracked name is bound only uncounted or counted only unbound |
| NameBinders.TargetHidesLaunch | tools/generateMutationInventory.py:1642-1708 | a comprehension's target named `subprocess` keeps a launch by the module of that name from being one |
| LexicalScopes.EnterThrough | tools/generateMutationInventory.py:1591-1639 | entering a scope through a nested one gives the same bindings as entering it directly |
| LexicalScopes.ProcessedMembers | tools/generateMutationInventory.py:1591-1639 | the worklist processes exactly the scopes below its items, each with the recursive lexical bindings |
| LexicalScopes.RegionOnce | tools/generateMutationInventory.py:1566-1588 | no node of a region is met twice |
| LexicalScopes.ProcessedOnce | tools/generateMutationInventory.py:1591-1639 | no scope is processed twice |
| LexicalScopes.BuildScopeModel | tools/generateMutationInventory.py:1591-1639 | for every tree the model has an entry for exactly the scopes, and each entry is the lexical one |
| LexicalScopes.WorklistIsLexical | tools/generateMutationInventory.py:1591-1680 | what was recorded in worklist order is the recursive lexical definition, each scope once |
| ExpressionChains.ChainOfBuilt | tools/generateMutationInventory.py:1192-1236 | of an expression built from a root by attributes and calls in any order the chain holds the root and the attributes, calls left out |
| ExpressionChains.PartsAreChain | tools/generateMutationInventory.py:1192-1236 | every expression is built so, and its parts are its chain and no other |
| BindingMeaning.EntryMeans | tools/generateMutationInventory.py:1642-1680 | for every scope: a name is a client, a fetched object, a Docker or process module or a launcher exactly when it was one outside and the scope does not rebind it, or a statement of the scope makes it one: a Docker module's constructor, a client's collection anywhere in the chain, an import with or without `as`, a launcher |
| BindingMeaning.DisplayMeans | tools/generateMutationInventory.py:1642-1734 | for every scope: a name resolves to the display one target of the scope alone takes it from, or to the one it had outside when the scope does not rebind it |
| ScopeTheorems.OwnerIsUnique | tools/generateMutationInventory.py:1566-1588 | a node lies in the region of one scope only |
| ScopeTheorems.RegionsPartition | tools/generateMutationInventory.py:1566-1588 | every node below the module belongs to exactly its owner's region: the regions partition the tree |
| ScopeTheorems.SiblingsDoNotMatter | tools/generateMutationInventory.py:1642-1680 | editing the inside of scopes off the path never changes the bindings visible at a scope |
| ImportOrder.RegionBackwards | tools/generateMutationInventory.py:1566-1588 | a scope's own nodes are listed from the end of its source backwards |
| ImportOrder.FirstImportIsRead | tools/generateMutationInventory.py:1423-1440 | of the plain imports of listed modules that bind an alias in a scope the one written first is read |
| ImportOrder.FirstAndLastExist | tools/generateMutationInventory.py:1423-1440 | an alias that is read has such a first import and exactly one node that binds it last |
| ImportOrder.AliasReadExactly | tools/generateMutationInventory.py:1423-1440 | over every way of binding it, an alias is read as what the scope binds it to last exactly when the first import of a listed module and the last binder name one module |
| ImportOrder.EarlierImportIsRead | tools/generateMutationInventory.py:1423-1440 | after `import os as tool` and `import socket as tool`, `tool` is read as `os` |
| ImportOrder.UnlistedImportIsPassedOver | tools/generateMutationInventory.py:1423-1440 | after `import json as tool` and `import os as tool`, the second is read |
| ImportOrder.LaterFromImportIsMissed | tools/generateMutationInventory.py:1423-1440 | after `import os as tool` and `from builders import build as tool`, `tool` is read as `os`, which it is not bound to last |
| CallSites.UnknownRowsAreBlindSpots | tools/generateMutationInventory.py:1047-1080 | over a whole visit unknown-command rows and opaque-command blind spots are the same nodes in the same order |
| CallSites.Visitor.BindingsHere | tools/generateMutationInventory.py:857-868 | the key on the scope stack is always in the model, so the empty fallback is never used |
| CallSites.Visitor.VisitDefinition | tools/generateMutationInventory.py:843-848 | pushing and popping leaves both stacks as they were, and records the body's sites under the new scope |
| CallSites.Visitor.Collect | tools/generateMutationInventory.py:834-841 | the stateful visit records exactly the sites of the recursive reading, each judged with the model's bindings of the innermost definition or class around it |
| CallMeaning.RecordedAtNode | tools/generateMutationInventory.py:834-868 | the visit records at each node what the node contributes with the bindings of the definition it stands in, and nothing at it from elsewhere |
| CallMeaning.CallIsRecorded | tools/generateMutationInventory.py:882-917 | of every call: the row of its primitive, or an unreadable launch as row and blind spot exactly when its vector is none, begins with no constant, or begins with a shell under any path and holds a part that is no constant; a docker vector as its subcommand, changing something exactly by the table; an SDK chain as its last two parts, an untraceable one as blind spot |
| CallMeaning.ReferenceIsRecorded | tools/generateMutationInventory.py:958-1045 | a primitive named or fetched, but not as a call's callee, is recorded as passed on |
| CallMeaning.VolumeIsBound | tools/generateMutationInventory.py:1239-1264 | `volume = dockerClient.volumes.get(n)` makes `volume` a fetched object |
| CallMeaning.VolumeDeletionIsRecorded | tools/generateMutationInventory.py:1082-1109 | the deletion called on it afterwards is recorded as one that changes something |
| CallMeaning.ShellIsUnreadable | tools/generateMutationInventory.py:1752-1788 | a shell handed a command that is no constant is recorded as an unreadable launch |
| LambdaScopes.StandsInOwner | tools/generateMutationInventory.py:843-868 | the visitor stands in the innermost scope exactly when that is no lambda, else where the lambda stands |
| LambdaScopes.LexicalFromOwner | tools/generateMutationInventory.py:1591-1680 | every scope sees what its owner hands on, shadowed and extended by itself |
| LambdaScopes.JudgedInScopeExactly | tools/generateMutationInventory.py:857-868 | a node is judged with its own scope's bindings outside lambdas, and inside exactly when what the lambdas leave of the bindings handed to them is what the definition sees: outside class bodies, when they bind no tracked name |
| LambdaScopes.ParameterTakenForModule | tools/generateMutationInventory.py:888-903 | a call on a lambda's parameter is recorded as an unreadable launch that its own bindings would not record |
| DefinitionHeaders.LeavesExactly | tools/generateMutationInventory.py:1642-1680 | a scope sees what is visible around it exactly when all it says holds there already and every tracked name it rebinds it gives the same meaning again |
| DefinitionHeaders.JudgedOutsideExactly | tools/generateMutationInventory.py:843-868 | a decorator, default or annotation is judged as outside its definition exactly when the definition leaves the bindings around it as they are |
| DefinitionHeaders.DefaultTakenForParameter | tools/generateMutationInventory.py:843-903 | a launch in a default is not recorded where a parameter bears the module's name |
| Inventory.OrdinalsAreUnique | tools/generateMutationInventory.py:2093-2115 | rows of one identity get strictly growing ordinals |
| Inventory.OrdinalsAreContiguous | tools/generateMutationInventory.py:2093-2115 | below each ordinal every smaller one is taken by an earlier row of the same identity |
| Inventory.OrdinalsIgnoreScanOrder | tools/generateMutationInventory.py:2093-2115 | scanning the same sites in another order numbers them alike |
| Inventory.NumbersIgnoreScanOrder | tools/generateMutationInventory.py:2093-2115 | two scans that see the same file, function, primitive, kind and fingerprint equally often number them alike |
| Inventory.FingerprintsOrderNumbers | tools/generateMutationInventory.py:2093-2115 | sites that differ in the fingerprint alone are numbered in the order of their fingerprints |
| Inventory.RowKeyIsInjective | tools/generateMutationInventory.py:2118-2123 | a row key determines identity and ordinal, even when the primitive holds bars |
| Inventory.BarredFileCollides | tools/generateMutationInventory.py:2118-2123 | with a bar in a file name two sites share a key |
| Inventory.NumberedKeysDiffer | tools/generateMutationInventory.py:2093-2123 | after numbering all row keys differ |
| Inventory.NumberCells | tools/generateMutationInventory.py:2093-2115 | the counting loop writes those ordinals into the rows in place and returns them in key order |
| InventoryDrift.MergeReviews | tools/generateMutationInventory.py:2380-2391 | the in-place merge turns each scanned row into its merged form and no other |
| InventoryDrift.CompareRows | tools/generateMutationInventory.py:2144-2178 | each list of the report holds exactly the keys it names, sorted and without repetition |
| InventoryDrift.AlterationMeans | tools/generateMutationInventory.py:2160-2178 | an altered row is reported with exactly the fields that differ, in a fixed order, when its fingerprint does not |
| Records.DuplicatedKeys | tools/generateMutationInventory.py:2301-2307 | returns exactly the keys counted more than once, in order |
| Records.SilenceIsAgreement | tools/generateMutationInventory.py:2144-2178 | comparing two keyed lists finds nothing exactly when both hold the same rows, each as often |
| InventoryDrift.CleanExactlyWhenRowsAgree | tools/generateMutationInventory.py:2144-2178 | no drift is reported exactly when record and scan agree row for row on the machine-derived fields |
| InventoryDrift.FreshBuildIsClean | tools/generateMutationInventory.py:2380-2404 | an inventory built from a scan and any earlier record compares clean with that scan |
| InventoryDrift.ReviewSurvivesExactly | tools/generateMutationInventory.py:2380-2391 | a recorded review is in the rebuilt inventory exactly when key and fingerprint are unchanged |
| InventoryDrift.RebuildIsIdempotent | tools/generateMutationInventory.py:2380-2404 | building again from the same scan changes nothing |
| InventoryDrift.SiteDrift | tools/generateMutationInventory.py:2238-2289 | the blind-spot check says exactly the owed messages |
| InventoryDrift.SiteSilenceIsAgreement | tools/generateMutationInventory.py:2181-2289 | against sites with unique keys it is silent exactly when both lists hold the same keys with the same two fingerprints |
| BlindSpots.NumberSites | tools/generateMutationInventory.py:2047-2064 | the counting loop numbers repeated sites and returns them in key order |
| BlindSpots.NumbersIgnoreScanOrder | tools/generateMutationInventory.py:2047-2064 | two scans that see the same sites number them alike |
| BlindSpots.FingerprintsOrderNumbers | tools/generateMutationInventory.py:2047-2064 | sites that differ in the fingerprint alone are numbered in the order of their fingerprints |
| BlindSpots.ScannedSitesDiffer | tools/generateMutationInventory.py:2047-2072 | the numbered sites of any scan have pairwise different keys |
| BlindSpots.ScanSilenceIsAgreement | tools/generateMutationInventory.py:2238-2289 | against any scan the blind-spot check is silent exactly when record and scan agree, and a record of that scan is clean |
| HostInventory.FingerprintIdentifies | tools/generateHostCapabilityInventory.py:210-228 | two fingerprints are equal exactly for the same module, function, method, command and repeat |
| HostInventory.ScanModule | tools/generateHostCapabilityInventory.py:231-244 | the counting loop writes into each row the fingerprint of its repeat number |
| HostInventory.FingerprintsAreUnique | tools/generateHostCapabilityInventory.py:231-263 | no two rows of a package scan share a fingerprint, identical sites included |
| HostInventory.ScanHoldsEverySite | tools/generateHostCapabilityInventory.py:247-263 | a package scan reports the call sites of all its modules, each as often as it is there, ordered by module, function, method, command and fingerprint |
| HostDrift.SchemaViolations | tools/generateHostCapabilityInventory.py:284-314 | lists exactly the orphaned and malformed dispositions, with the fields at fault |
| HostDrift.ViolationMeans | tools/generateHostCapabilityInventory.py:284-314 | which sentences are owed: no row has the fingerprint, the disposition is none of the three, a field is missing or all white space |
| HostDrift.Compare | tools/generateHostCapabilityInventory.py:317-355 | each part of the drift report means what its name says |
| HostDrift.FreshBuildIsClean | tools/generateHostCapabilityInventory.py:370-403 | a fresh build compares clean exactly when every surviving disposition is well formed |
| HostDrift.RowsCleanMeansEqual | tools/generateHostCapabilityInventory.py:317-355 | the row checks are silent exactly when recorded and scanned rows are equal up to order |
| HostDrift.BudgetAccountsForRows | tools/generateHostCapabilityInventory.py:276-403 | dispositions plus budget equal the number of rows: no disposition covers two sites |
| Attribution.MatchAliasBindings | tools/mutationAttribution.py:433-457 | the binding dictionary and loop find the rows behind names with exactly one plain assignment in the definition; other ways of binding are not looked at |
| Attribution.MatchFrame | tools/mutationAttribution.py:344-399 | a row is accepted exactly when it is the only fingerprint match, or else the only one-hop match |
| Attribution.AttributeFrames | tools/mutationAttribution.py:315-341 | the outcome is that of the first frame with a candidate outside the gateway |
| Attribution.AcceptedIsSound | tools/mutationAttribution.py:315-399 | an accepted row is a candidate of that frame, and no other candidate fits its evidence |
| AttributionMeaning.OutcomeMeans | tools/mutationAttribution.py:315-457 | the innermost frame with a row outside the gateway decides: a row is accepted by fingerprint exactly when it is the only one of the function on the line, by a hop exactly when none is and one called name, bound once, leads to it alone; no frame exactly when none settles it |
| Attribution.AcceptedRowIsUnique | tools/mutationAttribution.py:315-399 | at most one row can be accepted for a stack |
| Attribution.OuterFramesAreIgnored | tools/mutationAttribution.py:315-341 | once a frame decides, acceptance or refusal does not depend on outer frames |
| Attribution.InnerFramesAreSkipped | tools/mutationAttribution.py:315-341 | frames without candidates and pure gateway frames make no difference |
| AliasHops.PossibleRowAcceptedExactly | tools/mutationAttribution.py:371-457 | the only row the called names can stand for is accepted exactly when a single name leads to it |
| AliasHops.TwoNamesAreRefused | tools/mutationAttribution.py:371-457 | two names for one recorded site, called on one line, are refused |
| Observations.MergeObservations | tools/mutationAttribution.py:513-550 | the merged record unions every dimension over exactly the row's observations |
| Observations.MergeIgnoresOrder | tools/mutationAttribution.py:513-550 | the merge does not depend on the order of arrival |
| Observations.CountsSumToAttributed | tools/mutationAttribution.py:513-550 | the counts sum to the number of attributed observations |
| Observations.SelectForTracing | tools/mutationAttribution.py:553-587 | returns, in order, the rows no merged entry exists for |
| Observations.PendingExactly | tools/mutationAttribution.py:553-587 | a row is pending exactly when no observation was attributed to it |
| Falsification.MutationChangesText | tools/reconfirmFalsification.py:531-560 | a mutation whose pattern occurs as often as claimed changes the text |
| Falsification.StaleWithoutFreshStamps | tools/reconfirmFalsification.py:146-194 | equal sizes with a repeated or wrapped stamp run the old code |
| Falsification.KilledIsEarned | tools/reconfirmFalsification.py:441-560 | a killed entry failed on really changed source, and its test was seen passing exactly when it was checked alone, the batch ended well or its report lists it |
| VerdictMeaning.RunVerdictsMean | tools/reconfirmFalsification.py:299-324 | killed, survived, skipped, timed out and not in the call phase each hold exactly when the entry was tried and its mutated run ended so |
| VerdictMeaning.EarlyVerdictsMean | tools/reconfirmFalsification.py:531-560 | the verdicts given before a mutated run, each with its exact condition on the texts and the clean run |
| VerdictMeaning.CutsAreReplaced | tools/reconfirmFalsification.py:531-560 | the mutant is the source with the new text at every place where the old one is counted, the places found from the left |
| VerdictMeaning.StaleExactly | tools/reconfirmFalsification.py:190-195 | a cached compilation runs another text than the file's exactly when texts differ and stamps and lengths agree in 32 bits |
| Falsification.AbortedBatchCreditsAKill | tools/reconfirmFalsification.py:441-560 | after a batch that broke off, a test that always fails is credited with a kill |
| Preconditions.ReadUnpassed | tools/reconfirmFalsification.py:475-497 | the loop over the report returns the requested tests shown not passing, or nothing when the report names another |
| Preconditions.SelectSuspects | tools/reconfirmFalsification.py:441-472 | the suspects are none after a clean exit, those the report names, or everyone |
| Preconditions.NoSuspectsExactly | tools/reconfirmFalsification.py:441-472 | nobody is suspected exactly after a run that ended in time with code 0 and skipped nothing |
| Preconditions.VouchedForExactly | tools/reconfirmFalsification.py:441-497 | a test that is no suspect was shown passing, in all its listed cases, exactly when the batch ended well or its report lists the test, under its own name or with parameters in brackets |
| Preconditions.FailureOutsideSuspectsAll | tools/reconfirmFalsification.py:441-497 | a failing case that is no requested id's own makes every test a suspect |
| Preconditions.SharedCaseIsVouchedFor | tools/reconfirmFalsification.py:482-497 | of two ids with one case the failure is charged to the later, and the earlier is vouched for |
| Preconditions.ClassAndFileCollide | tools/reconfirmFalsification.py:500-504 | a method of a class and a function in a file named like it share their case |
| Falsification.Harness.WriteFresh | tools/reconfirmFalsification.py:190-194 | a write gives one file new text and a stamp no cached code carries |
| Falsification.Harness.Load | tools/reconfirmFalsification.py:198-211 | through the shared cache, what runs is always the code of the file's current text |
| Falsification.Harness.RunMutated | tools/reconfirmFalsification.py:299-324 | the run sees exactly one source differ from its snapshot, and afterwards none does |
| Falsification.Harness.ReconfirmOne | tools/reconfirmFalsification.py:531-560 | the verdict is the one the entry's texts earn, and the files end as they began |
| Falsification.Harness.ReconfirmEntries | tools/reconfirmFalsification.py:914-934 | over any sequence of entries each verdict is the one the entry's texts earn, and no run sees another entry's mutation |
| Falsification.Harness.ReconfirmAll | tools/reconfirmFalsification.py:937-996 | the whole replay judges by the suspects of one batched run on the clean sources, and leaves every source as it was |
| Falsification.Harness.RestoreOriginals | tools/reconfirmFalsification.py:593-602 | every captured text is back, except that unwritable files get their HEAD text |
| Shards.SliceOfSlice | tools/reconfirmFalsification.py:886-911 | a stride slice of a stride slice is one stride slice |
| Shards.ShardOfIndex | tools/reconfirmFalsification.py:886-911 | index j belongs to shard j mod N plus one and to no other |
| Shards.ShardsPartition | tools/reconfirmFalsification.py:886-911 | the N shards together are the whole list, each element once |
| Shards.SubShardIsLegal | tools/reconfirmFalsification.py:1086-1097 | every worker's sub-shard index is legal |
| Shards.WorkersPartition | tools/reconfirmFalsification.py:1086-1097 | the workers of shard I cover exactly the stride slice of shard I |
| Shards.RegistryPartition | tools/reconfirmFalsification.py:836-911 | class by shard by worker, the selections partition the registry |
| Shards.EntriesRunInTheirClass | tools/reconfirmFalsification.py:836-853 | the exclusive shards run each exclusive entry as often as the registry has it and no other, the shareable shards the rest, and without a class nothing is left out |
| Shards.ClassKeepsOrder | tools/reconfirmFalsification.py:836-853 | a class is a part of the registry in its order |
| Shards.WorkersOfWhole | tools/reconfirmFalsification.py:1086-1097 | without a parent's shard the workers split the whole list |
| Shards.ParseShardArgument | tools/reconfirmFalsification.py:1223-1244 | every accepted argument is a legal shard |
| Shards.ShardArgumentMeans | tools/reconfirmFalsification.py:1223-1244 | an argument is taken exactly when its first slash stands between two integers, the first from one up to the second |
| Shards.WorkersReadTheirSlices | tools/reconfirmFalsification.py:1137-1149 | a worker reads back from its command line exactly the slice its parent computed |
| Summary.DescribeMissingShards | tools/summarizeFalsificationShards.py:78-104 | exactly the owed problems are described |
| Summary.DescribeSurvivors | tools/summarizeFalsificationShards.py:107-118 | exactly the survivors of every leg are listed |
| Summary.SummarizeShards | tools/summarizeFalsificationShards.py:121-149 | returns 0 exactly for a complete union without survivors and without unexpected legs |
| Summary.CleanVerdictMeansAllKilled | tools/summarizeFalsificationShards.py:121-149 | exit 0 over summaries that say what their shards found means every evaluable entry of the class was killed |
| Summary.TotalsAreTheClass | tools/reconfirmFalsification.py:1034-1061 | killed equals run, and run plus deferred equal the size of the class |
| Summary.ExtraShardPasses | tools/summarizeFalsificationShards.py:78-104 | a shard beyond the split passes unnoticed |
| WorkerMerge.ReportWorkers | tools/reconfirmFalsification.py:1171-1220 | the parent's summary adds up the files its workers left, survivors in the order of the file names, and its exit code is 0 exactly when every worker's is |
| WorkerMerge.MergeIsParent | tools/reconfirmFalsification.py:1086-1220 | when every worker reported, the merge says what the parent's own run of its shard would have said |
| WorkerMerge.UnionProvesExactly | tools/summarizeFalsificationShards.py:121-149 | over merged summaries exit 0 proves all killed exactly when every worker with a nonempty slice reported |
| WorkerMerge.CrashedWorkerUnnoticed | tools/reconfirmFalsification.py:1171-1220 | a survivor in a crashed worker's slice goes unnoticed |
| Spelling.WholeRunOnly | tools/checkAmericanSpelling.py:168-185 | between word boundaries an alternative matches only the whole run, in any order of alternatives |
| Spelling.FindIterIsWholeWords | tools/checkAmericanSpelling.py:205-216 | the masked search finds exactly the listed whole words outside code, at their places |
| SpellingTheorems.LocateBritishSpellings | tools/checkAmericanSpelling.py:205-216 | the appended locations are exactly those hits with their replacements |
| SpellingTheorems.ConvertText | tools/checkAmericanSpelling.py:219-228 | the cursor loop fixes every whole word outside code and copies everything else |
| SpellingMeaning.WordIsRewritten | tools/checkAmericanSpelling.py:196-228 | a run of word characters that reads as an entry becomes the replacement with the capitals of the original, all of it or the first letter, and any other run is kept |
| SpellingMeaning.FencedIsKept | tools/checkAmericanSpelling.py:188-228 | a fence and all up to the next one is kept |
| SpellingMeaning.InlineIsKept | tools/checkAmericanSpelling.py:188-228 | code between two single backticks on one line is kept |
| SpellingMeaning.MarkIsKept | tools/checkAmericanSpelling.py:188-228 | every other character is kept, a backtick that opens no span included |
| SpellingMeaning.LocatedMeans | tools/checkAmericanSpelling.py:205-216 | each hit is reported with the text found and the replacement written its way |
| SpellingTheorems.SpanBySkeleton | tools/checkAmericanSpelling.py:188-193 | whether a code span starts at a place depends only on the backtick and newline structure from there on |
| SpellingTheorems.TokensOfConverted | tools/checkAmericanSpelling.py:188-228 | the converted text splits into the converted tokens: rewriting preserves the span structure |
| SpellingTheorems.NothingLeftToFix | tools/checkAmericanSpelling.py:219-237 | the converted text has no hit left |
| SpellingTheorems.CompleteExactlyWhenClosed | tools/checkAmericanSpelling.py:155-237 | over all texts nothing is left exactly when no replacement is an entry |
| SpellingTheorems.ConversionIsIdempotent | tools/checkAmericanSpelling.py:219-228 | converting twice is converting once |
| SpellingTheorems.CodeAndLinesSurvive | tools/checkAmericanSpelling.py:219-228 | code spans and the number of lines are unchanged |
| SpellingTheorems.ReportMatchesRewrite | tools/checkAmericanSpelling.py:231-237 | the report is empty exactly when the conversion changes nothing |
| WordList.BuildVocabulary | tools/checkAmericanSpelling.py:155-161 | the nested loops put every form of every stem on top of the table |
| WordList.BuiltIsClosed | tools/checkAmericanSpelling.py:52-161 | over stems without z no replacement of the generated list is an entry as soon as the table is good by itself |
| JsonRoundTrip.StringRoundTrip | tools/ledgerFormat.py:88-110 | an encoded string parses back, escapes and surrogate pairs included |
| JsonRoundTrip.RoundTrip | tools/ledgerFormat.py:58-110 | every rendered value parses back, whatever follows it |
| JsonRoundTrip.DumpsRoundTrip | tools/ledgerFormat.py:58-110 | compact and indented dumps parse back to the value with sorted keys |
| Ledger.ReindentedIsDeeper | tools/ledgerFormat.py:58-85 | the split-and-join re-indentation puts two spaces after every line break |
| Ledger.DeeperRender | tools/ledgerFormat.py:58-85 | re-indenting never reaches inside a string: it is rendering one level deeper |
| LedgerTheorems.RenderRecords | tools/ledgerFormat.py:88-110 | the appending loop gives one line per record with commas between |
| LedgerTheorems.RenderLedger | tools/ledgerFormat.py:58-85 | the appending loop gives the ledger text |
| LedgerTheorems.LedgerRoundTrip | tools/ledgerFormat.py:58-85 | the ledger text parses back to the ledger, top-level order kept |
| LedgerTheorems.RenderingIsCanonical | tools/ledgerFormat.py:58-85 | rendering the parse gives identical bytes |
| LedgerOrder.LedgerTextIgnoresKeyOrder | tools/ledgerFormat.py:58-110 | two ledgers alike but for the order of inner keys are written alike |
| LedgerOrder.LedgerTextReads | tools/ledgerFormat.py:58-110 | the text reads back with the top-level keys in the ledger's order and, below, every object's keys ascending by the first differing character, with the fields the ledger holds |
| LedgerOrder.CompactBytes | tools/ledgerFormat.py:88-110 | a record stands on one line with a space after every comma and colon |
| LedgerOrder.IndentedBytes | tools/ledgerFormat.py:58-85 | any other value is indented by two spaces a level |
| LedgerOrder.UnitEscapes | tools/ledgerFormat.py:88-110 | what is not printable ASCII is written by its code units |
| LedgerTheorems.OneRecordOneLine | tools/ledgerFormat.py:58-110 | replacing one record of a list collection by a different one changes exactly one line, by the same one none |
| PinText.NoNewMatch | tools/checkToolchainPinDrift.py:518-548 | rewriting a value after an equals sign creates no match of a marker, closing word or package mention |
| PinText.OnlyOccurrence | tools/checkToolchainPinDrift.py:537-546 | when one occurrence is counted, replacement happens at that place alone |
| PinLines.PinsWithOneVersion | tools/checkToolchainPinDrift.py:158-187 | changing one pin's version changes the parsed map at that package only, and not the shape count |
| PinMeaning.PinMeans | tools/checkToolchainPinDrift.py:102-187 | a line is read as a pin exactly when it is white space, a package, an equals sign, a version and at most a continuation, indented or after a line of white space |
| PinMeaning.PinsMean | tools/checkToolchainPinDrift.py:165 | the parsed map holds each pinned package with the version of its last pin |
| PinMeaning.ParseMeans | tools/checkToolchainPinDrift.py:158-187 | no pins exactly when no line pins anything; refused else exactly when pin-shaped lines and packages are not equally many |
| PinMeaning.AcceptedExactly | tools/checkToolchainPinDrift.py:158-187 | where every pin is indented, a block with pins is accepted exactly when every pin-shaped line is read and no package twice |
| PinMeaning.BrokenPinUnnoticed | tools/checkToolchainPinDrift.py:102-187 | an unindented pin after an empty line makes up for a pin-shaped line that is not read |
| PinBumps.RewritePin | tools/checkToolchainPinDrift.py:537-546 | the one replacement rewrites the last pin of the package and leaves every other pin |
| PinBumps.BlockCommutes | tools/checkToolchainPinDrift.py:518-548 | for one block, parsing the bumped text is overriding the parsed pins, parse failures included |
| PinBumps.ApplyPinBumps | tools/checkToolchainPinDrift.py:518-548 | the nested loops rewrite block by block, and raise where the specification has no value |
| PinBumps.ExtractsBlocks | tools/checkToolchainPinDrift.py:131-155 | in a laid-out file extraction returns each architecture's own block |
| PinBumps.ExtractMeans | tools/checkToolchainPinDrift.py:124-155 | what is cut out: the text after the first test for the architecture up to the first closing word or the end |
| PinBumps.BumpingCommutesWithParsing | tools/checkToolchainPinDrift.py:131-187 | when the rewriter returns, each block parses to its old pins overridden, and all text outside is unchanged |
| PinBumps.PrefixIsRewritten | tools/checkToolchainPinDrift.py:537-546 | a pin that extends the old version becomes the new version with the same extension |
| PinBumps.SecondBlockMissed | tools/checkToolchainPinDrift.py:547-548 | a block text met earlier in the file is replaced there instead |
| PinPlaces.SecondStageExactly | tools/checkToolchainPinDrift.py:532-548 | when the bumps change the second block, its rewriting gives the promised text exactly when its text is first met in its own place |
| PinPlaces.EarlierCopyMisleads | tools/checkToolchainPinDrift.py:518-548 | with a copy of the second block before both blocks the whole rewriting never gives the promised text |
| PinPlaces.BumpingFromTheFile | tools/checkToolchainPinDrift.py:131-187 | when both blocks are first met in their own places in the original file, bumping commutes with parsing and nothing outside changes |
| Archive.ReadArchiveMembers | tools/checkToolchainPinDrift.py:229-242 | the position loop reads what the recursive reading says, for any number of steps |
| ArchiveMeaning.HeaderMeans | tools/checkToolchainPinDrift.py:236-238 | a header is read exactly when its two fields are ASCII, the name is the first without white space around it, and the second reads as the size |
| ArchiveMeaning.SliceMeans | tools/checkToolchainPinDrift.py:240 | what a member's slice holds, byte by byte, also past the end |
| NumeralMeaning.IntMeans | tools/checkToolchainPinDrift.py:237-238 | the texts read as an integer: white space, a sign, digit groups joined by single underscores, white space; and the number read |
| Archive.ReadUndoesLayout | tools/checkToolchainPinDrift.py:229-242 | the reader inverts the ar layout for every list of storable members |
| Archive.ReaderTerminates | tools/checkToolchainPinDrift.py:229-242 | it ends whenever every size it meets is at least -59 |
| Archive.NegativeSizeSticks | tools/checkToolchainPinDrift.py:229-242 | a size of -60 or -61 never ends |
| ArchiveEnds.EndsExactly | tools/checkToolchainPinDrift.py:229-242 | the reader ends exactly when no header position is met twice |
| ArchiveEnds.EndsUnlessStuck | tools/checkToolchainPinDrift.py:229-242 | while every size met is at least -61 it ends exactly when none is -60 or -61 |
| ArchiveEnds.StickingHolds | tools/checkToolchainPinDrift.py:229-242 | an archive with the size -60 in its one header keeps the reader for ever |
| ConfigValues.DecodeConfigValue | tools/inventoryRepositoryGitSurface.py:69-89 | the index-and-flag loop computes the recursive reading |
| ConfigValues.ValueMeans | tools/inventoryRepositoryGitSurface.py:69-89 | a raw value reads as plain characters, escapes and quotes with nothing, a lone backslash or a comment after them, and decodes to the strip of what these give |
| ConfigValues.DecodeUndoesQuote | tools/inventoryRepositoryGitSurface.py:69-89 | a quoted and escaped value decodes to its strip, whatever comment follows |
| ConfigValues.QuotedValueSurvives | tools/inventoryRepositoryGitSurface.py:69-89 | a value survives exactly when it neither begins nor ends with white space |
| ConfigValues.JoinContinuationLines | tools/inventoryRepositoryGitSurface.py:92-104 | the pending-line loop computes the logical lines |
| ConfigValues.JoinUndoesBreaking | tools/inventoryRepositoryGitSurface.py:92-104 | logical lines broken over physical ones come back whole, in order, exactly when no break falls after a backslash |
| ConfigValues.EscapedBackslashEndsTheLine | tools/inventoryRepositoryGitSurface.py:96-99 | a line broken after an escaped backslash ends in three backslashes and is not continued |
| ConfigIncludes.Collector.Collect | tools/inventoryRepositoryGitSurface.py:185-206 | the recursion with its shared set collects the specified entries and terminates on every include graph |
| ConfigIncludes.IncludeKeys | tools/inventoryRepositoryGitSurface.py:195-206 | which keys are followed: the plain one, and those with a condition between the two parts, which may share their dot |
| ConfigIncludes.CollectedOnce | tools/inventoryRepositoryGitSurface.py:185-206 | each real file contributes its plain lines at most once, complete and in order |
| ConfigIncludes.EntryComesFromChain | tools/inventoryRepositoryGitSurface.py:185-206 | an entry is marked conditional exactly when the one chain by which its file was reached passes a conditional include |
| ConfigIncludes.SeenIsReachable | tools/inventoryRepositoryGitSurface.py:185-206 | only files a chain of includes leads to are seen, and all of them exactly when every include of a file met at the depth limit was seen in another way |
| ConfigIncludes.FirstWaysExactly | tools/inventoryRepositoryGitSurface.py:185-206 | every file some way leads to is seen by the first of its ways, depth first, exactly when the depth limit never turns away a file not seen yet |
| ConfigIncludes.FirstWayDecides | tools/inventoryRepositoryGitSurface.py:185-206 | an entry's flag is then that of the first, in depth-first order, of all ways that lead to its file without passing one twice |
| ConfigIncludes.DeepIncludeIsMissed | tools/inventoryRepositoryGitSurface.py:185-206 | a file included by one first met at the limit is never seen, although two includes lead to it |
| ConfigIncludes.PlainIncludeComesTooLate | tools/inventoryRepositoryGitSurface.py:199-205 | a plain include after a conditional one of the same file leaves its line marked |
| TreeWalk.TreeEntries | vaibify/versionIdentity.py:400-420 | the loops over the walk collect the found items, or fail when anything cannot be read |
| TreeWalk.FoundMembers | vaibify/versionIdentity.py:400-446 | an item is found exactly at a kept name below entered directories; links are never followed |
| TreeDigest.FramingIsInjective | vaibify/versionIdentity.py:383-397 | the byte framing decodes uniquely, even for paths with line breaks |
| TreeDigest.FoundPathsDiffer | vaibify/versionIdentity.py:400-420 | no path is entered twice |
| TreeDigest.ComputeDigest | vaibify/versionIdentity.py:383-397 | the hasher is fed the framed entries in path order |
| StartupIdentity.SortingForgetsOrder | vaibify/versionIdentity.py:400-420 | sorting removes the order of the walk |
| StartupIdentity.DigestDecidesSource | vaibify/versionIdentity.py:383-420 | two readable trees have equal digests exactly when they hold the same source |
| StartupIdentity.ChangedMeansSourceDiffers | vaibify/versionIdentity.py:289-306 | changed since start is true exactly when the sources differ, unknown exactly when one is unreadable, whatever HEAD does |
| SourceMeaning.ChangedMeans | vaibify/versionIdentity.py:289-446 | changed is unknown exactly when a tree cannot be read, and true exactly when some file's text or link's target outside the caches differs |
| SourceMeaning.EditIsSeen | vaibify/versionIdentity.py:289-446 | a regular file with another text, outside the caches and not called like bytecode, is a change |
| SourceMeaning.RetargetIsSeen | vaibify/versionIdentity.py:289-446 | so is a link with another target |
| SourceMeaning.CachesAreIgnored | vaibify/versionIdentity.py:289-446 | trees that agree on those paths are unchanged |
| SourceMeaning.UnreadableIsUnknown | vaibify/versionIdentity.py:370-383 | a directory that cannot be read makes the answer unknown and is reported |
| SourceMeaning.IdentityMeans | vaibify/versionIdentity.py:190-270 | the captured identity: git's exactly when it answered every question, modified exactly by its describe or an untracked file, each problem exactly when it occurred |
| SourceMeaning.MovedCommitMeans | vaibify/versionIdentity.py:309-325 | a commit is named exactly when the source of a checkout changed and HEAD is read and another |
| StartupIdentity.Startup.StartupIdentity | vaibify/versionIdentity.py:155-164 | the identity is captured once and never replaced |
| StartupIdentity.Startup.Describe | vaibify/versionIdentity.py:112-130 | an answer compares the current digest with the captured one and names the moved commit only when changed |
| StartupIdentity.Startup.Run | vaibify/versionIdentity.py:112-164 | over any run of descriptions every answer is against the first moment |
| LifecycleLock.Holder.ReleaseHeld | vaibify/cli/commandStart.py:101-107 | the handle is released if still there and is gone afterwards |
| LifecycleLock.ReleaseManyTimes | vaibify/cli/commandStart.py:101-107 | however often the holder is released, its handle is released exactly once |
| LifecycleLock.RunsKeepInvariant | vaibify/cli/commandStart.py:84-160 | in every interleaving the handle is in the holder, in one thread's hand, or released |
| LifecycleLock.ReleasedExactlyOnce | vaibify/cli/commandStart.py:101-160 | released at most once, and exactly once when the launcher has left |
| LifecycleLock.HeldUntilWatched | vaibify/cli/commandStart.py:139-160 | until the watcher is spawned the lock covers the check, the clear and the start |
| LifecycleLock.ReleasedEarlyForCause | vaibify/cli/commandStart.py:110-124 | while attached, an early release means the container ran or the deadline passed |
| LockRuns.LostOnlyForCause | vaibify/cli/commandStart.py:80-124 | while attached, the lock goes only after a start of the container or three hundred seconds on the clock since the watcher was spawned |
| LockRuns.LookingEnds | vaibify/cli/commandStart.py:110-124 | after seeing the container run, the handle gone or the deadline passed the watcher looks no more, in any interleaving |
| LockRuns.OneMoreQuestion | vaibify/cli/commandStart.py:110-124 | once the handle is gone the container is asked about at most once more |
| LockRuns.DetachedReleasesItself | vaibify/cli/commandStart.py:139-160 | a detached launcher starts no watcher, and when it has left it released the handle itself, once |
| LockRuns.MutexComesBack | vaibify/cli/commandStart.py:101-107 | however a run stands, at most three more steps of the watcher free the mutex it holds |
| LifecycleLock.NeverStuck | vaibify/cli/commandStart.py:101-160 | the launcher can move, or the watcher holds the mutex and can move |
| LifecycleLock.MutexIsReturned | vaibify/cli/commandStart.py:101-107 | each step of the watcher inside the mutex is enabled and brings it closer to giving it back |
| Reconnect.HoldAndReconnect | vaibify/cli/commandRemote.py:233-271 | elapsed time is the sum of the delays since the last success, and it gives up at the first outcome that spends the budget |
| Reconnect.WaitStaysInBudget | vaibify/cli/commandRemote.py:135-146 | in every run the time waited since the last success stays within window minus margin |
| Reconnect.OutagesAreBounded | vaibify/cli/commandRemote.py:233-271 | an outage longer than the budget has room for has ended in surrender, for any positive policy |
| Reconnect.OutageLength | vaibify/cli/commandRemote.py:233-271 | an outage after a success gets exactly the allowed attempts |
| Reconnect.ShippedAttempts | vaibify/cli/commandRemote.py:49-51 | the shipped constants allow exactly 33 attempts, 871 seconds of waiting |
| Reconnect.OutageStartsInTime | vaibify/cli/commandRemote.py:135-271 | every attempt of an outage starts inside window minus margin exactly when the failed sessions fit into what the delays leave |
| Reconnect.SlowSessionsOverrun | vaibify/cli/commandRemote.py:49-271 | with the shipped constants the last attempt starts in time exactly when the 32 failures before it took 24 seconds at most |

## Left out

- The full Python grammar, `ast.unparse` and source-slice fingerprints: trees and fingerprints are abstract.
- Acquisition rows and type-only imports of the visitor: the same record-and-number shape as the call sites, with more name tables.
- The merge of acquisition dispositions: the row merge again with two fingerprints.
- The schema checks of the mutation inventory's reviewer vocabulary: one comprehension over constant tables.
- Recorded rows without a fingerprint field: the comparison raises on them.
- CallSites.Visitor.Collect: says nothing of the acquisitions and type-only imports that the same visit records; the table of primitives is a parameter, and the order of a function's decorators, defaults and body is the order of the node's children.
- Attribution.MatchAliasBindings: a definition is the list of its plain assignments, so that names also bound by a parameter, a loop or an import, which the source accepts as bound once, cannot be told apart.
- Declarations `global` and `nonlocal`, star imports and deletion at the end of a handler: no name they affect is read off the node.
- WordList.BuiltIsClosed: the table of irregular spellings and the list of stems are parameters; that the shipped table has no replacement among its own entries or the stems' forms is read off the data, not proved.
- Unicode word characters and case folding in the spelling matcher: text is ASCII.
- Fractions, exponents and duplicate keys in JSON: ledgers hold neither.
- Falsification.Harness.ReconfirmEntries: the answer of a test run is a function of the texts it sees; the process group, the time limits and what pytest writes into its report are inputs.
- PinPlaces.BumpingFromTheFile: asks besides that the second block begins with a space and mentions each bumped package only where it pins it.
- PinBumps.BumpingCommutesWithParsing: requires the amd64 block to stand before the arm64 block, as shipped, versions in Debian's alphabet, and texts whose only line break is the line feed.
- PinBumps.ApplyPinBumps: the two raised errors are one missing value.
- Package download, payload comparison and the zstd and tar formats of `checkToolchainPinDrift.py`.
- Archive.ReadArchiveMembers: carries a step bound the source does not have, because the source's loop need not end.
- Section headers and key parsing of a config file: a parsed file is a list of directives.
- ConfigIncludes.FirstWayDecides: speaks of runs in which the depth limit turns away no file not seen yet; `FirstWaysExactly` says that in all others some file is missed or found by a later way, and `EntryComesFromChain` holds for all.
- The decision which config keys run a program, hooks and attributes: one-branch decisions over constant tables.
- The texts of error messages and the display path of a config source.
- Links swapped in during hashing, and reads that fail half way: a file is readable or not.
- A failing operating-system release of the lifecycle lock, and the process ending under the watcher.
- Rounding of the backoff's floating point, and the overflow of 2.0 to a power above 1023, which needs far more attempts than the shipped constants allow.
- Command-line parsing beyond the shard argument, printed messages, and the modules these files call that are not modelled here.
