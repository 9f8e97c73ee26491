# Verified models of the repository's tooling scripts

The scripts under `scripts/` generate catalogs, publish packages, gate test startup and check
documents. This project models the algorithms and protocols in them that have unbounded inputs and
proves what each of them promises. Each module takes the form of the code it models: pure expressions
are functions, loops and objects that change state are methods and classes proved against a
specification function, protocols are state machines whose steps are the code between two awaits or
two remote calls.

- **Config catalog** (`TypeLookup`, `TypeMeaning`, `TypeTruth`, `TypeBlindSpots`, `TypeSoundness`,
  `TypePrecision`, `TypeTermination`, `TypeBudget`, `TypeBoundaries`, `TypeWrappers`, `TypeWalk`, `SchemaPath`,
  `DeclSearch`, `PasteClosure`). `lookupPath` is a three-valued walk over a possibly cyclic graph of
  declarations whose recursive calls all share one mutable `seen` set. `TypeLookup` gives it as a
  function of fuel. `TypeMeaning` says independently what a type *may* and *must* have as far as the
  code looks. `TypeTruth` says what a type *has* and *can have* by the rules of the language: elements
  of every kind declare their keys, declarations of one name merge, type arguments are substituted,
  a name means what it denotes where it stands, and an index signature speaks only for keys nothing
  more specific declares. `TypeBlindSpots` is exactly where the two part. `TypeSoundness` says what
  the definite answers mean, `TypePrecision` exactly when they are given, `TypeTermination` exactly
  when the walk ends, and `TypeWalk` is the recursion as it runs, on a mutable set. `DeclSearch` is
  the name resolution underneath, against what the modules export.
- **Publication** (`Publication`, `PublishChecks`, `PublishRun`). The registry is a map of immutable versions and a map
  of movable tags. Any number of runs of any number of bundles interleave call by call, fail or stop,
  and other writers may do anything but replace a version or point the entry's `latest` at a bundle.
- **Startup barrier** (`StartupBarrier`, `BarrierProgress`). The patched registration, the host it
  starts and the ready chain, over a tree of fibers that may change state at any moment.
- **Worker pool and watch latch** (`PublintPool`, `WatchLatch`). Every interleaving of the workers,
  every order of build events.
- **Graphs** (`TopoSort`, `ReferenceFaces`).
- **Text** (`CommentSweep`, `LinkScanner`, `DocSite`, `LinkFailures`, `JsDoc`, `JsDocTexts`, `ShellQuote`,
  `JsText`). Each scanner
  or sweep is proved against a description that does not scan: a grammar of pieces, a tree of
  references, a per-character filter, a list of words.
- **Encodings and append-only contracts** (`DecimalText`, `ArtifactFraming`, `ContractDigest`,
  `ArchiveManifest`).

## Where the code falls short of its own description

The model follows the code. These differences are stated as lemmas.

- `lookupPath` promises that what it cannot see through is `unknown`, never `missing`. It sees only
  property signatures spelled exactly like the key, so a key declared by a method, an accessor, a
  quoted name or an index signature is reported `missing`. It takes a name for the first declaration
  of that name in a file, so the keys of other bodies of a merged interface are reported `missing`; it
  takes a type parameter for a declaration of the same name, and `Partial` or `Array` for the global
  types even where a file declares its own. `TypeSoundness.MissingExistsIff` is the exact condition
  for any path; `TypeBoundaries.MisreportedKeyIff` its simplest case.
- A `keyof` type is walked as if it were its operand (`TypeSoundness.FoundTrueIff`,
  `TypeBoundaries.KeyOfMisreportedIff`).
- `findExportedTypeDecl` promises an exported declaration. It takes any declaration of the name,
  exported or not, and the first re-export in the order of the statements, where an export by name
  takes precedence over every `export *`. `DeclSearch.ExportsIff` is the exact condition under which
  it ends where the module's export leads, `DeclSearch.BothStray` the two inputs.
- The shared `seen` set makes an ordinary diamond of interfaces `unknown` instead of `missing`
  (`TypePrecision.DiamondIsUnknown`): precision is lost, soundness is not. A definite `missing` needs
  a walk without a repeated key (`TypePrecision.MissingIff`).
- A type indexed through itself lengthens the path for ever (`TypeBoundaries.SelfIndexedDiverges`).
  Because the `seen` set is shared, whether such a path goes on for ever can hang on the order of the
  parts of an intersection (`TypeBoundaries.OrderDecides`).
- `htmlCommentRanges` adds a node's offset to positions in its value, from which the parser has
  stripped the markers and the indentation of the containers around it: the columns are right if and
  only if nothing was stripped up to the line in which the comment ends
  (`CommentSweep.OffsetIsRightIff`).
- `resolveTypeName` has no guard against a chain of relative imports that comes back to itself. Such
  a chain overflows the stack; the model counts that as a throw (`PasteClosure.ChainThrowsIff`).
- Schema keys that contain a dot or end in `[]` do not survive the path syntax
  (`SchemaPath.ParseRoundTripIff`).
- A bundle whose own dist-tag is `latest` can expose an incomplete release, because every package is
  tagged as it is published, unless the entry package comes last (`Publication.SafeTagIsNeeded`). The
  packer never writes that tag; the loader accepts it.
- `destinationRange` treats a backslash as escaping whatever follows, so a bare destination that ends
  in a lone backslash swallows the title, and it counts brackets CommonMark does not count, such as
  those in a code span. It ends a bare destination at any white space, where section 6.3 of CommonMark
  0.31.2 ends it only at ASCII control characters and the space: a destination with a no-break or an
  ideographic space in it is cut. Inside a block quote it takes the marker of a continued line for the
  destination. All four are in the condition of `DocSite.DestinationExactIff`.
- The doc comment of `collectProjectReferenceFaceViolations` asks for the leaf of the aggregate the
  traversal began from; the code asks for the leaf of each config's own face
  (`ReferenceFaces.AggregateLeavesIff`).
- A digest without a payload for one of its event types lets that payload change unnoticed across two
  refreshes (`ContractDigest.TransitiveIff`, `ContractDigest.MissingPayloadForgets`).

## Model

| member | source | states |
|---|---|---|
| TypeSoundness.MissingExistsIff | scripts/gen-config-catalog.ts:309-403 | for every graph, fuel, `seen` set and height: a path reported `missing` of a name can be there after all if and only if the walk itself comes to a key declared by an element it overlooks (a method, an accessor, a quoted name, an index signature nothing outranks), or to a name it takes for something else than it denotes, and by that element's type or those declarations the rest can be there |
| TypeSoundness.MissingDecl | scripts/gen-config-catalog.ts:317-361 | `missing` on a declaration means the walk's own reading has no derivation of any height, whatever `seen` held |
| TypeSoundness.MissingTy | scripts/gen-config-catalog.ts:362-403 | the same for every type node: literals, parentheses, intersections, unions, arrays, operators, indexed accesses, wrappers and references |
| TypeSoundness.MissingEach | scripts/gen-config-catalog.ts:367-376 | a branch reported `missing` truly lacks the path although its siblings have already filled the shared `seen` set |
| TypeSoundness.MissingBases | scripts/gen-config-catalog.ts:348-359 | the same for the bases of an interface; a computed base is never `missing` |
| TypeSoundness.FoundTrueIff | scripts/gen-config-catalog.ts:317-403 | a path reported `found` is present in every branch of every union as far as the code looks, at every height from the fuel on, and truly so at such a height if and only if not everything the walk has it by goes through a `keyof`, past the element that names the key, or into a declaration the name does not denote |
| TypeSoundness.FoundDecl | scripts/gen-config-catalog.ts:317-361 | `found` on a declaration means the walk's reading must have the path |
| TypeSoundness.FoundTy | scripts/gen-config-catalog.ts:362-403 | the same for every type node |
| TypeSoundness.FoundEach | scripts/gen-config-catalog.ts:367-376 | every branch reported `found` must have the path |
| TypeSoundness.FoundBases | scripts/gen-config-catalog.ts:348-359 | a base reported `found` is a named one that must have the path |
| TypeWrappers.SeenThrough | scripts/gen-config-catalog.ts:307-397 | of names that resolve to nothing in reach, `Partial`, `Required`, `Readonly` and `NonNullable` answer for their argument, `Array` and `ReadonlyArray` for it after an element step, and every other is `unknown` |
| TypeWrappers.TrulyTransparent | scripts/gen-config-catalog.ts:306-307 | where a file does not declare those names, such a type has and can have exactly the paths of its argument, and no other undeclared name is known to have anything |
| TypeWrappers.WrappedProperty | scripts/gen-config-catalog.ts:335-342 | a key below a wrapped property is answered as if the wrapper were not there, `missing` included |
| TypeBlindSpots.SeesFirstSpelled | scripts/gen-config-catalog.ts:335-343 | what the walk sees of a member list is its first property signature spelled like the key, and nothing else |
| TypeBlindSpots.HiddenIff | scripts/gen-config-catalog.ts:335-361 | within any height, what is hidden from the walk in a declaration can be there, and what can be there is either hidden or in the walk's reading |
| TypeBlindSpots.HiddenTy | scripts/gen-config-catalog.ts:362-403 | the same for every type node |
| TypeBlindSpots.OverstatedIff | scripts/gen-config-catalog.ts:335-361 | where the walk's reading has a derivation, a true one exists exactly if not all of them overstate |
| TypeMeaning.MustMayDecl | scripts/gen-config-catalog.ts:370-376 | in the walk's reading, what every branch must have some branch may have |
| TypeBlindSpots.PlainAgrees | scripts/gen-config-catalog.ts:335-342 | on a list of plain property signatures the walk sees exactly the element that names the key |
| TypeTruth.HasCanRef | scripts/gen-config-catalog.ts:309-316 | what a name surely has is never ruled out, whatever index signatures and intersections are around it |
| TypeTruth.SureSilencesIndex | scripts/gen-config-catalog.ts:335-359 | no index signature speaks for a key that the type or the declarations around it surely have by name |
| TypePrecision.MissingIff | scripts/gen-config-catalog.ts:317-326 | with a fresh `seen` set and enough fuel the answer is `missing` if and only if the path is absent and the unguarded walk meets no (declaration, length) key twice |
| TypePrecision.AbsentIsUnknownIff | scripts/gen-config-catalog.ts:322-326 | an absent path is never `found`, and `unknown` exactly when some key repeats |
| TypePrecision.FreshIsExact | scripts/gen-config-catalog.ts:329-376 | while no key repeats the answer is the three-valued truth of the walk's reading |
| TypePrecision.DiamondIsUnknown | scripts/gen-config-catalog.ts:322-326 | any interface two of whose bases come to a common declaration reports a key nobody declares as `unknown` |
| TypePrecision.ReadableDecl | scripts/gen-config-catalog.ts:399-400 | a lookup throws only on a file that cannot be read |
| TypeTermination.TerminatesIff | scripts/gen-config-catalog.ts:317-403 | a lookup ends, on a graph of any shape, if and only if the path with which it enters declarations stays bounded |
| TypeTermination.HaltsDecl | scripts/gen-config-catalog.ts:317-326 | while no path is longer than a bound, fuel linear in the unseen (declaration, length) keys is enough on any declaration, and `seen` only grows |
| TypeTermination.HaltsTy | scripts/gen-config-catalog.ts:362-403 | the same for type nodes, with their nesting depth added |
| TypeTermination.HaltsEach | scripts/gen-config-catalog.ts:367-376 | the same for sibling branches one after another, on what their predecessors left in `seen` |
| TypeTermination.HaltsBases | scripts/gen-config-catalog.ts:348-359 | the same for the bases of an interface |
| TypeTermination.MoreFuel | scripts/gen-config-catalog.ts:317-403 | once fuel suffices the answer does not depend on it |
| TypeTermination.StableDecl | scripts/gen-config-catalog.ts:317-403 | and no larger fuel makes the walk's path longer |
| TypeBudget.Terminates | scripts/gen-config-catalog.ts:380-387 | a budget for indexed accesses, checked declaration by declaration, is enough for every lookup to end |
| TypeBudget.IndexFreeTerminates | scripts/gen-config-catalog.ts:317-403 | on a graph without indexed accesses every lookup ends, however cyclic the graph |
| TypeBudget.FitsBoundsDecl | scripts/gen-config-catalog.ts:380-387 | a budget bounds the path of every walk |
| TypeBoundaries.SelfIndexedDiverges | scripts/gen-config-catalog.ts:381-385 | a type that indexes itself exhausts any fuel |
| TypeBoundaries.SelfIndexedIsUnbounded | scripts/gen-config-catalog.ts:381-385 | its path has no bound and no budget fits it |
| TypeBoundaries.OrderDecides | scripts/gen-config-catalog.ts:317-385 | two intersections of the same two parts: with one order the lookup of a path ends, cut short by a key its sibling has put into `seen`, with the other it exhausts any fuel |
| TypeBoundaries.BudgetIsNotNecessary | scripts/gen-config-catalog.ts:381-385 | `type A = { x: A['y']['z'] }` admits no budget, and every lookup on it ends |
| TypeBoundaries.SmallestDiamond | scripts/gen-config-catalog.ts:322-326 | the acyclic diamond of four empty interfaces answers `unknown` about a key nobody declares |
| TypeBoundaries.MisreportedKeyIff | scripts/gen-config-catalog.ts:131-343 | for a top-level key of interfaces without heritage that merge under one name the condition becomes: declared in some body, but by no property signature of the first spelled like it |
| TypeBoundaries.InheritedBesideIndex | scripts/gen-config-catalog.ts:344-359 | a key inherited beside an index signature of the interface's own is found, and it is there |
| TypeBoundaries.NamedSilencesIndex | scripts/gen-config-catalog.ts:344-359 | and a key below it that its type does not declare is ruled out, whatever the index signature says |
| TypeBoundaries.KeyOfMisreportedIff | scripts/gen-config-catalog.ts:380-380 | a `keyof` of a type literal or of an interface without heritage is reported to have a key, which no `keyof` has, if and only if the operand has a property signature spelled like it |
| TypeWalk.LookupPath | scripts/gen-config-catalog.ts:759-763 | one check with a fresh `seen` set that ends: `missing` exactly for absent paths without a repeated key; without a repeated key every answer, `found` included, is the three-valued truth of what the code looks at; a path reported missing can be there exactly if it is hidden; a path found is there as far as the code looks, and truly so exactly if not all of that overstates; it throws only on an unreadable file |
| TypeWalk.Walker.WalkDecl | scripts/gen-config-catalog.ts:317-361 | the recursion on one mutable `seen` set computes the evaluator's answer and leaves its `seen` set |
| TypeWalk.Walker.WalkTy | scripts/gen-config-catalog.ts:362-403 | the same for type nodes |
| TypeWalk.Walker.WalkEach | scripts/gen-config-catalog.ts:367-376 | the loop over branches threads the same set through all of them, in order |
| TypeWalk.Walker.WalkBases | scripts/gen-config-catalog.ts:348-358 | the same for the loop over bases |
| SchemaPath.ParseRoundTripIff | scripts/gen-config-catalog.ts:232-245 | reading back a path written by the schema walk gives the same steps if and only if no key contains a dot or ends in `[]` |
| SchemaPath.ParseRender | scripts/gen-config-catalog.ts:432-451 | for such keys the very segments come back |
| SchemaPath.StepsInjective | scripts/gen-config-catalog.ts:241-242 | different segment lists never give the same steps |
| SchemaPath.ParsePath | scripts/gen-config-catalog.ts:232-245 | the loops of `parsePath` compute the split, stripped and flattened steps |
| SchemaPath.StripHops | scripts/gen-config-catalog.ts:235-240 | the inner loop strips every trailing `[]` and counts them |
| SchemaPath.PathIs | scripts/gen-config-catalog.ts:432-451 | how a path is spelled and what its steps are: a key, one `[]` for each hop, and a dot before the next |
| DeclSearch.Search.Find | scripts/gen-config-catalog.ts:256-278 | the search with its shared `seen` set ends on cyclic re-exports and answers with the first hit in depth-first order of the export statements; a hit is declared and reachable, a miss leaves only exhausted places behind, a throw comes from a reachable unreadable file |
| DeclSearch.FollowsSends | scripts/gen-config-catalog.ts:262-274 | the search follows a statement exactly as written: a star passes the name on, a list passes on the source of its first element of that exported name |
| DeclSearch.FirstStatementWins | scripts/gen-config-catalog.ts:262-276 | the first statement that re-exports the name decides, if its target declares it |
| DeclSearch.RenamingList | scripts/gen-config-catalog.ts:269-274 | through a list the search ends at what is exported under the name, whatever it is called in its own file, and comes up empty exactly if no element has that exported name |
| DeclSearch.Search.DeclFor | scripts/gen-config-catalog.ts:283-304 | a name resolves to its local declaration, else through its import to the first hit of that search, which is what the module exports if and only if the search did not stray; a miss means no re-export chain of any length reaches a declaration |
| DeclSearch.ExportsIff | scripts/gen-config-catalog.ts:254-278 | where a search ends is what the module exports if and only if it did not stray, that is, did not take a private declaration, or a star past an export by name, where the exports lead elsewhere |
| DeclSearch.OrderlyIsRight | scripts/gen-config-catalog.ts:254-278 | it never strays if every declared name is exported and every name is re-exported in one way |
| DeclSearch.MissedByList | scripts/gen-config-catalog.ts:263-275 | what is exported although no re-export chain comes to a declaration is exported by a list without a module |
| DeclSearch.BothStray | scripts/gen-config-catalog.ts:254-278 | with `export *` before an export by name, or a private declaration in front of an exported one, the search ends in a declaration the module does not export |
| DeclSearch.ClosedContains | scripts/gen-config-catalog.ts:256-278 | a closed set of places contains everything any chain reaches |
| DeclSearch.UniverseClosed | scripts/gen-config-catalog.ts:262-273 | the known files crossed with the known names are closed under re-exports, so the search is finite |
| PasteClosure.Collect | scripts/gen-config-catalog.ts:663-717 | the paste queue ends; it throws only on a reached place that throws; its violations are exactly the names the fence should carry and does not have; it records none if and only if every reached name has one meaning, and then the fence is closed and unambiguous |
| PasteClosure.ResolvesIff | scripts/gen-config-catalog.ts:146-171 | what resolving a name answers, exactly: the chain of relative imports under the same name ends in a file that declares it, that imports it from a package under such a name, or that does neither or imports it under another name or from no `.ts` file |
| PasteClosure.AliasIsAmbiguous | scripts/gen-config-catalog.ts:161-164 | a reached name that is imported under another name is unresolved, so the collection complains |
| PasteClosure.Round | scripts/gen-config-catalog.ts:671-715 | one item keeps the queue's invariant, complaining only when the fence really is ambiguous, and either shortens the queue or pastes a new name |
| PasteClosure.Finished | scripts/gen-config-catalog.ts:664-717 | an empty queue without violations is a closed fence in which each name means what every file that reached it means by it |
| PasteClosure.AllHandled | scripts/gen-config-catalog.ts:709-714 | with an empty queue and no violation everything reachable has been handled |
| PasteClosure.ChainThrowsIff | scripts/gen-config-catalog.ts:146-171 | resolving a name throws if and only if its chain of relative imports reaches an unreadable file or never ends |
| Publication.LatestAlwaysComplete | scripts/publish-npm-baseline.ts:625-654 | in every interleaving of runs, stops and foreign writes, whenever `latest` of the entry names a bundle, every package of it is in the registry with its recorded integrity |
| Publication.InvNext | scripts/publish-npm-baseline.ts:630-653 | every step of the system keeps that invariant |
| Publication.StepKeepsRun | scripts/publish-npm-baseline.ts:630-650 | a step of a run changes no published version, and what the run has confirmed stays true |
| Publication.StepMovesLatest | scripts/publish-npm-baseline.ts:651-651 | a step moves the entry's `latest` only to its own version and only when the whole bundle is there |
| Publication.SafeTagIsNeeded | scripts/publish-npm-baseline.ts:359-387 | one bundle is safe in all executions if and only if its dist-tag is not `latest` or its entry package comes last |
| Publication.PackedDistTag | scripts/publish-npm-baseline.ts:523-523 | the packed dist-tag is `dev-` and the base version, never `latest` |
| PublishChecks.FinishedMeans | scripts/publish-npm-baseline.ts:651-698 | in any execution a finished run has, in the step by which it finished, seen the entry's `latest` name its version in that very state, has written nothing for some time before, and in that time has seen the recorded integrity and the dist-tag of each of its packages |
| PublishChecks.CheckedSince | scripts/publish-npm-baseline.ts:656-698 | whatever others do in between, each fact a verifying run has passed was right in some state since its last write |
| PublishChecks.OvertakenNeverFinishes | scripts/publish-npm-baseline.ts:684-698 | a run that has not finished does not finish while `latest` names something else |
| PublishChecks.OvertakenStops | scripts/publish-npm-baseline.ts:684-698 | and if it looks at `latest` then, it stops for good |
| PublishRun.RegistryPublication.Publish | scripts/publish-npm-baseline.ts:625-654 | an uninterrupted run succeeds if and only if nothing conflicts and there is an entry package; the resulting registry is exactly the published one, accepted by both verifiers, with no published version changed; a second run writes nothing; a failed run leaves a prefix of the packages settled |
| PublishRun.RegistryPublication.PublishPackage | scripts/publish-npm-baseline.ts:630-650 | publishes a missing version, refuses a different one, and tags it; writes nothing when both are in place |
| PublishRun.RegistryPublication.EnsureDistTag | scripts/publish-npm-baseline.ts:755-764 | the tag names this version afterwards, with one write if and only if it did not before |
| PublishRun.RegistryPublication.VerifyRemote | scripts/publish-npm-baseline.ts:656-698 | the verifiers accept exactly when every version, integrity and dist-tag and the entry's `latest` are right |
| PublishRun.PublishedIs | scripts/publish-npm-baseline.ts:625-654 | the published registry is accepted, extends the old one, and differs only in the bundle's version, its dist-tag and the entry's `latest` |
| PublishRun.SettleAllIs | scripts/publish-npm-baseline.ts:630-650 | exactly which versions and tags the first packages change |
| PublishRun.SettleAllExtends | scripts/publish-npm-baseline.ts:640-644 | no version already there changes |
| PublishRun.PublishedAgain | scripts/publish-npm-baseline.ts:639-649 | on an accepted registry the package loop is the identity |
| PublishRun.InterruptedRunsLeaveMatching | scripts/publish-npm-baseline.ts:625-654 | whatever interrupted runs leave behind conflicts with no bundle, so it can be resumed |
| PublishRun.UndisturbedRunFinishes | scripts/publish-npm-baseline.ts:625-654 | the call-by-call run of the interleaved machine, left alone, finishes in that same published registry |
| PublishRun.UndisturbedRunStops | scripts/publish-npm-baseline.ts:625-654 | and with a conflicting version or no entry package it stops |
| StartupBarrier.NobodyStartsEarly | scripts/test-invariants.ts:67-98 | in every run a fiber outside the host's subtree has entered its callback only if the host's fibers for the service and every selected companion have each been active in some state before |
| StartupBarrier.ObservedWasActive | scripts/test-invariants.ts:227-233 | a fiber the ready chain has passed really was active |
| StartupBarrier.FailureHoldsTheGate | scripts/test-invariants.ts:180-206 | once the service, an import or a companion has failed, no gated plugin ever begins |
| StartupBarrier.HostNeverWaitsForItself | scripts/test-invariants.ts:79-84 | a registration below a starting or running host fiber, or below a plugin that has crossed the barrier, is neither gated nor joined |
| StartupBarrier.RegistrationIs | scripts/test-invariants.ts:67-98 | what a registration comes back with: joined to readiness exactly if no ancestor of its context is a live owner; the host's own fiber for a known callback, otherwise a new child of the context, gated and made an owner exactly if joined; it throws only for an invalid callback or a disposed context |
| StartupBarrier.HostIs | scripts/test-invariants.ts:158-180 | the first registration starts a host that knows the service alone, as a fiber under the root |
| StartupBarrier.InvAlways | scripts/test-invariants.ts:67-225 | the barrier's invariant holds in every reachable state |
| StartupBarrier.InvNext | scripts/test-invariants.ts:67-225 | registrations, fiber moves and steps of the ready chain all keep it |
| BarrierProgress.ChainNeverStuck | scripts/test-invariants.ts:180-206 | in every reachable state, until the barrier is ready or broken, the ready chain has a step to take |
| BarrierProgress.ActiveOpens | scripts/test-invariants.ts:199-205 | with everything waited for active, each step brings the chain closer and after one step for each and one more readiness is provided |
| BarrierProgress.CanStillOpen | scripts/test-invariants.ts:158-210 | every reachable state in which nothing has failed has a run that opens the barrier |
| StartupBarrier.OwnerMeans | scripts/test-invariants.ts:212-225 | a live owner above a fiber means it is in the host's subtree or readiness has been provided |
| StartupBarrier.HasBarrierOwner | scripts/test-invariants.ts:212-225 | the walk up the parents answers whether some ancestor is an owner that is loading or active |
| StartupBarrier.PatchedRegistry.Register | scripts/test-invariants.ts:67-98 | the patched method, its host start and its owner set compute the registration step of the machine |
| StartupBarrier.PatchedRegistry.StartInvariantHost | scripts/test-invariants.ts:158-210 | the first registration mounts the service under the root and records its host |
| TopoSort.TopoSort | scripts/package-graph.ts:59-75 | throws if and only if some dependency walk runs into a gap or into itself; otherwise returns the packages sorted by longest-dependency depth, then by `comparePackages` |
| TopoSort.OutputUnique | scripts/package-graph.ts:59-83 | that order is unique |
| TopoSort.InputOrderFree | scripts/package-graph.ts:60-60 | listing the same packages in another order changes nothing |
| TopoSort.DependenciesFirst | scripts/package-graph.ts:64-72 | every dependency precedes its dependents |
| TopoSort.NoDeadEnd | scripts/package-graph.ts:64-67 | a graph with depths has no walk into a gap or a cycle |
| TopoSort.StuckHasDeadEnd | scripts/package-graph.ts:67-67 | packages none of which can be placed contain such a walk |
| TopoSort.CompareTransitive | scripts/package-graph.ts:77-83 | the comparison is transitive |
| TopoSort.CompareTotal | scripts/package-graph.ts:77-83 | it is antisymmetric and only equal on equal names |
| TopoSort.CompareIff | scripts/package-graph.ts:77-83 | the comparison is the listed order of the groups by first mention, unlisted groups after them by name, and names within a group |
| TopoSort.WithinLayer | scripts/package-graph.ts:58-67 | of two packages of one depth the one that precedes in that order comes first |
| TopoSort.LastOneCounts | scripts/package-graph.ts:59-59 | of packages with one short name the last one listed is sorted |
| TopoSort.SortReady | scripts/package-graph.ts:64-66 | any listing of a layer sorts to its strictly increasing order |
| ReferenceFaces.CollectViolations | scripts/project-reference-faces.ts:30-63 | the work list ends on cyclic graphs, throws if and only if a config it needs is malformed, and otherwise reports exactly the references by which a config reached through good references enters an innermost split project by the wrong leaf |
| ReferenceFaces.ScanReferences | scripts/project-reference-faces.ts:40-59 | of one config's references exactly the wrong leaves are reported and exactly the others are put on the work list |
| ReferenceFaces.CleanIffAllGood | scripts/project-reference-faces.ts:30-63 | nothing is reported if and only if every config reachable at all has only good references |
| ReferenceFaces.AggregateLeavesIff | scripts/project-reference-faces.ts:20-30 | with nothing reported, every reference reached from an aggregate names that aggregate's leaf if and only if no config reached from it enters a split project with the other face |
| ReferenceFaces.BadMeans | scripts/project-reference-faces.ts:41-57 | a reference is bad if and only if it enters an innermost split project by another file than its leaf for the source's face |
| ReferenceFaces.FirstIsInnermost | scripts/project-reference-faces.ts:65-71 | with roots sorted by length the first containing root is the innermost, whatever the ties |
| ReferenceFaces.FaceIsFirst | scripts/project-reference-faces.ts:88-103 | the face is the first one on the possibly cyclic chain of extended configs, and none if and only if there is none |
| ReferenceFaces.FacesByName | scripts/project-reference-faces.ts:97-100 | exactly which configs show a face by their own path: the leaves by name, and the two base configs of the repository |
| ReferenceFaces.GoodKeepsFace | scripts/project-reference-faces.ts:41-60 | a reference that passes into a split project arrives at a config of the face it came from |
| ReferenceFaces.SortRoots | scripts/project-reference-faces.ts:65-71 | the split roots in descending length, none lost or added |
| CommentSweep.MarkdownProseLines | scripts/markdown.ts:160-176 | keeps, verbatim and in order, exactly the unfenced lines that no comment touches or that have a non-blank character outside every comment |
| CommentSweep.HasRenderedText | scripts/markdown.ts:143-153 | for any ranges, overlapping and unsorted: visible if and only if some non-blank column is uncovered |
| CommentSweep.Sweep | scripts/markdown.ts:145-151 | the cursor sweep keeps exactly the uncovered characters, in order |
| CommentSweep.LineRangesMean | scripts/markdown.ts:125-138 | the ranges projected on a line cover the same characters as the comments, and exist if and only if a comment touches the line |
| CommentSweep.CommentRanges | scripts/markdown.ts:123-139 | the map of all lines holds each line's projection and no key for untouched lines |
| CommentSweep.NodeComments | scripts/markdown.ts:110-121 | the two index searches find the comments a left-to-right reader finds |
| CommentSweep.WrittenComment | scripts/markdown.ts:110-121 | a written comment is found from its opening to its close, what follows is read on its own, and one that is not closed takes all the rest |
| CommentSweep.LineOffsetIs | scripts/markdown.ts:124-138 | a line's running offset is where the line stands in the source |
| CommentSweep.ProseLinesAre | scripts/markdown.ts:167-174 | the lines kept are exactly the prose lines, under their numbers from one |
| CommentSweep.OffsetIsRightIff | scripts/markdown.ts:105-121 | adding the node's offset gives the place of a comment in the source if and only if the parser stripped nothing from any line of the node up to the one in which the comment ends |
| CommentSweep.LostIsRight | scripts/markdown.ts:111-119 | the characters of a node's value stand in the source as far on as characters were stripped before them |
| LinkScanner.LabelEndIff | scripts/project-doc-site.ts:71-87 | a position is returned if and only if the text from the first bracket to it is a balanced label, nested to any depth, escapes included |
| LinkScanner.LabelEndFinds | scripts/project-doc-site.ts:71-87 | the closing bracket of any balanced label is found |
| LinkScanner.ScanLabelPieces | scripts/project-doc-site.ts:74-85 | the scan passes over balanced pieces at any depth as if they were not there |
| LinkScanner.ScanBarePieces | scripts/project-doc-site.ts:117-130 | the same for a bare destination and its parentheses, inside which any character CommonMark allows may stand |
| LinkScanner.ScanStopsShort | scripts/project-doc-site.ts:127-129 | white space that CommonMark allows in a bare destination, outside parentheses, ends the scan early |
| LinkScanner.ScanAnglePieces | scripts/project-doc-site.ts:109-113 | the same for a destination in angle brackets |
| LinkScanner.FindLabelEnd | scripts/project-doc-site.ts:71-87 | the loop computes the scan |
| LinkScanner.FindBareEnd | scripts/project-doc-site.ts:117-131 | the loop computes the scan |
| LinkScanner.FindAngleEnd | scripts/project-doc-site.ts:109-114 | the loop computes the scan |
| LinkScanner.FindDestination | scripts/project-doc-site.ts:89-132 | `destinationRange`, with its errors, computes the specified range |
| DocSite.DestinationExactIff | scripts/project-doc-site.ts:89-132 | for every link, image or definition CommonMark 0.31.2 allows, bare or in angle brackets, the range is exactly the authored destination if and only if the label balances by bracket count, no block-quote marker stands before the destination, and a bare destination has no white space outside parentheses and no lone backslash running into what follows |
| DocSite.BareDestinationIff | scripts/project-doc-site.ts:117-131 | the part of that condition that concerns bare destinations |
| DocSite.AngleDestinationIff | scripts/project-doc-site.ts:109-115 | the part that concerns angle brackets |
| DocSite.LabelWasBalanced | scripts/project-doc-site.ts:90-107 | an inline destination found in its place means the label balances |
| DocSite.PageApart | scripts/project-doc-site.ts:256-261 | destinations of different references never overlap or touch |
| DocSite.SplicesPage | scripts/project-doc-site.ts:272-276 | the descending splices turn any stretch of page into its rewritten form and leave the text around it alone |
| DocSite.CollectsPage | scripts/project-doc-site.ts:231-270 | the visit over the parser's nodes finds exactly the page's replacements, in some order |
| DocSite.SortsTo | scripts/project-doc-site.ts:273-273 | sorting puts them in the one descending order, whatever order they were found in |
| DocSite.AnyOrder | scripts/project-doc-site.ts:272-276 | sorting and splicing replacements found in any order gives the rewritten page |
| DocSite.RewriteReplacesDestinations | scripts/project-doc-site.ts:225-277 | on a page whose references to rewrite meet that condition the rewrite replaces exactly their destinations, however deep they nest, and nothing else |
| LinkFailures.RewriteFailsIff | scripts/project-doc-site.ts:229-270 | the rewrite fails exactly if some reference to rewrite, at any depth, has no destination to be found |
| LinkFailures.LocatesIff | scripts/project-doc-site.ts:89-131 | a destination is located exactly if there is a balanced label with its separator after it, and what follows is not an angle bracket that is never closed |
| LinkFailures.AngleEndIff | scripts/project-doc-site.ts:109-115 | the angle scan ends exactly at the first closing bracket that is not escaped |
| DocSite.Visit | scripts/project-doc-site.ts:231-270 | the recursive visit pushes the specified replacements or reports the first destination it cannot locate |
| DocSite.RewriteMarkdown | scripts/project-doc-site.ts:225-277 | visit, sort and splice loop compute the specified rewrite |
| JsDoc.ParseLines | scripts/jsdoc.ts:38-79 | the four-buffer machine computes the described blocks of the lines before the first tag, the last valid mode, and whether a mode tag occurs at all |
| JsDocTexts.PageReads | scripts/jsdoc.ts:47-90 | before link rendering, a comment made of sections of prose, bullet lists and blank lines reads as their text: words one space apart, items on lines of their own, an empty line between prose, lists and sections |
| JsDocTexts.ModeIff | scripts/jsdoc.ts:65-67 | a line names a mode exactly if it is the tag, white space, one of the five modes and nothing else but white space |
| JsDocTexts.ModeTagIff | scripts/jsdoc.ts:68-68 | a line has a mode tag exactly if its first word is the whole tag |
| JsDocTexts.TagIff | scripts/jsdoc.ts:69-69 | a line is a tag exactly if its first character that is not white space is an at sign |
| JsDocTexts.BulletIff | scripts/jsdoc.ts:72-72 | a line is a bullet exactly if it is a dash and white space |
| JsDocTexts.LastModeIff | scripts/jsdoc.ts:64-67 | the mode is the one named by the last line that names any |
| JsDocTexts.ProseIs | scripts/jsdoc.ts:69-70 | the prose is the lines before the first tag |
| JsDocTexts.LinkTagIff | scripts/jsdoc.ts:88-88 | a link tag stands at the front of a text exactly if it is written so, with its length and target |
| JsDoc.ProseIsConserved | scripts/jsdoc.ts:60-80 | up to the rendering of links, the words of the description are exactly the words of the lines before the first tag, in order |
| JsDoc.DescriptionKeepsWords | scripts/jsdoc.ts:60-81 | without a brace in the prose the finished description has exactly those words |
| JsDoc.LinkRendersTarget | scripts/jsdoc.ts:80-80 | a link tag renders as its target, between any text after it and any text before it that leaves no tag open, both rendered on their own |
| JsDoc.RenderSplits | scripts/jsdoc.ts:80-80 | rendering splits in front of any brace as long as no tag is open there |
| JsDoc.PlainTextStays | scripts/jsdoc.ts:80-80 | text without a brace is left alone |
| JsDoc.WordsOfBlocks | scripts/jsdoc.ts:46-59 | chunking into paragraphs, lists and items loses and moves no word |
| JsDoc.JoinSpacesWords | scripts/jsdoc.ts:45-45 | joining lines gives their words one space apart and nothing else |
| JsDoc.FlushSettles | scripts/jsdoc.ts:46-59 | where a run of lines ends, the buffers owe exactly what a flush pushes |
| JsDoc.BulletOpens | scripts/jsdoc.ts:68-75 | a bullet closes the open paragraph or item and opens the next |
| JsDoc.PlainJoins | scripts/jsdoc.ts:76-77 | a plain line continues the open item, else the paragraph |
| JsDoc.LineMachine.Take | scripts/jsdoc.ts:67-77 | one prose line keeps the buffer invariant (a paragraph excludes list and item, a list implies an item) and what is owed |
| JsDoc.LineMachine.FlushPara | scripts/jsdoc.ts:55-59 | empties the buffers and pushes what they owe |
| JsDoc.InnerReadsLines | scripts/jsdoc.ts:33-37 | stripping a comment gives back the lines it was written from |
| JsDocTexts.InnerIs | scripts/jsdoc.ts:33-37 | between its delimiters a comment is read line by line, be it one line or many |
| JsDocTexts.StripLineIs | scripts/jsdoc.ts:37-37 | a line loses its indentation, a star with one white space after it, if any, and what trails |
| JsDoc.ParseJsDoc | scripts/jsdoc.ts:32-82 | the whole reader: the joined blocks with link tags rendered and trimmed, the mode and the mode flag |
| PublintPool.StartedOnceWithinLimit | scripts/publint-all.ts:127-138 | in every interleaving no target is started twice and at most `concurrency` are in flight |
| PublintPool.EveryInterleaving | scripts/publint-all.ts:127-138 | targets are started in order, each started one is done or held by one worker, results sit in their own slots, and every step begins a worker or writes a result |
| PublintPool.RunLength | scripts/publint-all.ts:130-138 | every run ends; a complete one takes one step for each worker and one for each target |
| PublintPool.NeverStalls | scripts/publint-all.ts:131-137 | until every worker has returned some step can happen |
| PublintPool.MissingResultIff | scripts/publint-all.ts:140-144 | when all workers have returned, every slot is filled if and only if there was a worker or nothing to do, and each filled slot holds its own target's report |
| PublintPool.StoredAsSettled | scripts/publint-all.ts:127-138 | what is in a slot is the very report some check settled with |
| PublintPool.CollectReports | scripts/publint-all.ts:140-144 | the final pass succeeds exactly when no slot is missing and keeps every report in its place |
| PublintPool.ConcurrencyIff | scripts/publint-all.ts:51-58 | a setting is accepted if and only if it is the decimal spelling of a positive safe integer |
| PublintPool.ConcurrencyBounds | scripts/publint-all.ts:48-61 | at least one worker whenever there is a target, never more workers than targets |
| PublintPool.NoSetting | scripts/publint-all.ts:48-62 | without a setting there are as many workers as processors, but no more than targets |
| PublintPool.SharedPool.TakeNext | scripts/publint-all.ts:131-136 | the code from the top of the loop to the await is one step of the machine |
| PublintPool.SharedPool.Continue | scripts/publint-all.ts:131-136 | storing a settled result and going on is one step of the machine |
| WatchLatch.ResolvedIffReady | scripts/dev-web.ts:59-86 | after every order of build events the promise is resolved if and only if the count is known and that many distinct bundles have been built |
| WatchLatch.OrderDoesNotMatter | scripts/dev-web.ts:68-83 | rebuilds and order do not matter |
| WatchLatch.Readiness.BuildDone | scripts/dev-web.ts:68-76 | the hook keeps the variables equal to what the history says |
| WatchLatch.Readiness.BuildReturned | scripts/dev-web.ts:82-83 | so does the return of `build` |
| ShellQuote.CopyableCommandReadsBack | scripts/publish-npm-baseline.ts:993-1002 | lexing the printed command by the quoting rules of section 2.2 of the POSIX.1-2017 Shell Command Language gives exactly the command and its arguments, for all strings |
| ShellQuote.LexQuoted | scripts/publish-npm-baseline.ts:997-1002 | one quoted argument reads back as one word whatever follows it |
| ShellQuote.QuotesOnlyWhereNeeded | scripts/publish-npm-baseline.ts:997-999 | a word of letters, digits and `_./:@=+-` is copied as it is, any other stands between single quotes |
| ShellQuote.LexEscaped | scripts/publish-npm-baseline.ts:999-1001 | any run of single quotes inside the argument is restored |
| DecimalText.CanonicalIff | scripts/publint-all.ts:53-54 | a text is the spelling of some number if and only if it is digits without a leading zero |
| DecimalText.ValueOfDecimal | scripts/publint-all.ts:53-54 | reading a spelling gives the number back |
| ArtifactFraming.StreamRoundTrip | scripts/client-build-environment.ts:224-231 | the byte stream of any list of artifacts decodes to that list |
| ArtifactFraming.FrameIs | scripts/client-build-environment.ts:227-230 | a file is fed as the length of its path, a colon and the path, and then its content likewise |
| ArtifactFraming.StreamInjective | scripts/client-build-environment.ts:217-233 | different lists never give the same bytes |
| ArtifactFraming.ReadOneField | scripts/client-build-environment.ts:227-230 | a length-prefixed field is read back whatever follows it |
| ArtifactFraming.FeedDigest | scripts/client-build-environment.ts:217-233 | the loop feeds the hash exactly that stream, and an empty list is refused |
| ArtifactFraming.RecordAcceptsExactly | scripts/client-build-environment.ts:173-215 | a written record is accepted if and only if the artifacts are those it was written for, names and contents alike, and the expected environment, if any, is the public environment of that build |
| ArtifactFraming.RecordHolds | scripts/client-build-environment.ts:173-186 | a record is marked with format 1 and carries exactly the variables whose names begin with `DSH_CLIENT_` |
| ArtifactFraming.AcceptedIff | scripts/client-build-environment.ts:189-215 | a record is accepted exactly if it is the one that would be written now from its own environment, for a build that is not empty, and that environment is the expected one, if any |
| ContractDigest.StructuralIff | scripts/gen-session-contract-digest.ts:110-146 | nothing structural is reported if and only if version, types, payloads, surface types and envelope entries are all kept |
| ContractDigest.DriftsSay | scripts/gen-session-contract-digest.ts:110-148 | each drift is reported exactly if it is so: removed, changed or resized among the structural ones, added types apart |
| ContractDigest.Diff | scripts/gen-session-contract-digest.ts:110-148 | the loops compute the specified lists, in order |
| ContractDigest.ReflexiveIff | scripts/gen-session-contract-digest.ts:140-146 | a digest has no drift from itself if and only if envelope entries of one name agree |
| ContractDigest.TransitiveIff | scripts/gen-session-contract-digest.ts:124-130 | across one intermediate baseline only a payload it does not record can change unnoticed |
| ContractDigest.MissingPayloadForgets | scripts/gen-session-contract-digest.ts:124-130 | three digests with which that happens |
| ContractDigest.HistoryAccepts | scripts/gen-session-contract-digest.ts:86-148 | acceptance is transitive over any history of digests as the generator builds them |
| ContractDigest.HistoryKeepsContract | scripts/gen-session-contract-digest.ts:86-148 | any such history keeps every earlier event type with its payload, surface type and envelope hash |
| ContractDigest.EnvelopeFrozen | scripts/gen-session-contract-digest.ts:137-146 | with one entry a name, an accepted digest has the very same envelope |
| ContractDigest.NoDriftIsSymmetric | scripts/gen-session-contract-digest.ts:110-148 | no drift of either kind in one direction means none in the other |
| ArchiveManifest.ExtendManifest | scripts/archived-agent-notes.ts:172-190 | the loops keep every seal, add one for each new artifact, and report exactly the missing or changed sealed artifacts |
| ArchiveManifest.ValidateExtension | scripts/archived-agent-notes.ts:57-68 | no error if and only if every baseline entry is unchanged |
| ArchiveManifest.ProblemsSay | scripts/archived-agent-notes.ts:57-68 | the problems are exactly the seals without an entry, and those whose entry has another hash |
| ArchiveManifest.ExtensionKeepsSeals | scripts/archived-agent-notes.ts:177-188 | extending drops or changes no seal, whatever the artifacts are |
| ArchiveManifest.HistoryExtends | scripts/archived-agent-notes.ts:57-68 | in any history of error-free extensions each manifest validates against every earlier one |
| ArchiveManifest.SealedContentIsFrozen | scripts/archived-agent-notes.ts:172-182 | content sealed in one run is the content of every later run |
| ArchiveManifest.CheckIsCleanIff | scripts/verify-archived-agent-notes.ts:87-99 | a check run is clean if and only if the manifest is the hash of each artifact, no more and no less, and extends the baseline |
| ArchiveManifest.ForgedManifestIsCaught | scripts/verify-archived-agent-notes.ts:86-96 | rewriting manifest and content together cannot pass against a trusted baseline |

## Left out

- Files, git, npm, OpenSSL, subprocesses, clocks and the network: file contents, registry answers and
  imports are inputs of the models.
- The TypeScript, Markdown, Cordis and publint libraries: syntax trees, node positions, the list of
  code-block lines and fiber states are inputs.
- SHA digests are functions, assumed free of collisions where a lemma says so.
- Locale collation: names are ranks in a strict total order, so `localeCompare` is their difference.
- Text is a sequence of characters, file contents are sequences of bytes; UTF-8 encoding and lone
  surrogates are not modelled, and path bytes are given.
- Message texts and the order in which reports are printed.
- ReferenceFaces.CollectViolations: reports a set, so a reference listed twice in one config counts once.
- TypeTruth.CanTy: what the graph does not enumerate can have anything: primitive, function, mapped
  and conditional types, classes, members of namespaces and of the library's own types, and an
  unbound type parameter without a default. An index signature is silenced by names alone, not by the
  index signatures of other parts of an intersection; one over symbols or template literals counts as
  one over strings.
- DeclSearch.Leads: a name that two stars provide differently is an error of the language and leads to
  both. What packages and files outside the workspace export is not known.
- Event, type and path names that collide with properties every JavaScript object inherits.
- `checkMemberDocs`, `findSchemaExpr` and the composition of schemas in the config catalog: no
  invariant beyond what is modelled.
- TypeBudget.Terminates: a budget is sufficient, not necessary, because it does not follow the key an
  index names: `type A = { x: A['y']['z'] }` has none though every lookup on it ends. The exact
  condition is `TypeTermination.TerminatesIff` (see `TypeBoundaries.BudgetIsNotNecessary`), which
  speaks of the walk's own paths; a criterion local to one cycle of declarations would not be exact,
  since the shared set makes the order of siblings count (`TypeBoundaries.OrderDecides`).
- Publication: the ping, identity and confirmation before the first write; registries that move
  `latest` themselves when a package is first published; removal of published versions; a registry
  that refuses to tag a version it does not have.
- PublishRun.RegistryPublication.Publish: assumes that remote calls succeed unless the model says
  otherwise; calls that fail for other reasons are the stops of `Publication`.
- StartupBarrier: test files that build their own tree, the choice of companions by test path (a
  given selection here), and what the returned promise-like fiber does. A registration on a disposed
  context is taken to throw.
- DocSite: how a link target is resolved to its new destination; the replaced text is a parameter of
  each reference. Text outside destinations is never parsed.
- DocSite.RewriteReplacesDestinations: requires the condition of `DestinationExactIff` of every reference
  to rewrite, since a page fails with any one of them; a wrong range could still happen to give the
  right text, so at the level of a page the condition is not claimed to be necessary.
- `parseTags` in `scripts/jsdoc.ts`: the same line handling, without a new invariant.
- CommentSweep: what the parser strips from the lines of an HTML node is given, as whole characters.
- ShellQuote: words that only matter by position, such as reserved words and assignments, are read as
  plain words.
- PublintPool: `parseInt` is modelled without rounding; values beyond the safe integers are refused
  either way. What publint reports about a package is a parameter.
- Curated tables, renderers, remaining work-list closures, TLS bootstrap and container launching: they
  would only repeat these arguments or have no invariant.
