# A verified model of Coraza's matching and transaction core

Coraza is a web application firewall written in Go. This project models the parts of it whose
correctness is not visible from reading one function, and proves what they promise. All files are
Dafny 4.11; `dafny verify dfyconfig.toml` checks everything.

**Regular-expression prefilters.** The `@rx` operator puts a minimum length, a literal filter, a
required-byte cache and an anchored-literal bypass in front of the regex engine. `Regex.dfy` gives
expression trees a meaning on byte strings: UTF-8 decoding with malformed bytes, case folding with
long-s and the Kelvin sign, anchors, repetition, and matches that start at rune boundaries only
(`Regex.OneRuneIsNotTwo`). `MinLength`, `Literals`, `FoldedLiteral`, `PairIndex`, `RequiredBytes`,
`Prefilter` and `RxOperator` model each shortcut as the code has it (shift tables, greedy cover,
four-slot presence ring) and prove that together they never change the operator's answer.
`BinaryPrefilter` does the same for expressions over raw bytes. `FilterStrength` proves that the
filters do filter: what they must find they find, and the length bounds are the best ones.

**The memoizer.** `MemoStore`, `MemoSync` and `MemoNosync` model `Do` and `Release` as interleaved
atomic steps of any number of threads, and prove ownership, uniqueness and release over every run.
`MemoSyncRuns` and `MemoNosyncRuns` trace every returned value and error to a computation of its key,
and say what an undisturbed call does.

**Transformation caches.** `Interning` and `TransformCache` model the interned transformation
chains and the two caches keyed by string address and length, with memory that is freed and reused,
and prove over any sequence of rules that caching changes no result; `ChainSteps` tells what the
result is, step by step.

**The transaction.** `RuleFlow` is rule evaluation in one phase, and `RuleEffects` what each action
of a rule does to the rules after it; `TransactionModel` has the calls a connector makes, as functions
on states, and `PhaseRuns` what each call, and a run of them, evaluates; `FlowRuns`, `DetectionOnly`
and `BodyLimits` prove flow control over whole runs, the two-run simulation and the independence of
body limits from chunking. `BodyBuffers` and `Transactions` are the objects that the code updates in
place, proved against those functions. `Interceptor` is the response writer on top, with conservation
and atomicity of what goes downstream; `Responses` spells its outcome out from the handler's calls;
`Middleware` is the whole exchange around a handler.

**Two smaller cores.** `ChainMatches` is the enumeration of chained matches, `Base64Decode` the
forgiving Base64 decoder of RFC 4648 sections 4 and 5.

Where the code does not do what one would expect, the model follows the code:

- A folded literal with U+0130 is lower-cased to an ASCII `i` that the expression does not accept,
  so its filter rejects texts that match (`Prefilter.FoldedLiteralExact` says exactly when).
- Interned chain names join transformation names with `+`, so a name with an inner `+` can be
  mistaken for a chain (`Interning.ConfusableExactly`), and names with a `+` at their edges can
  collide too (`Interning.EdgePlusCollides`). The safe condition, under which the caches are proved
  transparent, is that no transformation name contains a `+`.
- `skipAfter` is not reset at the end of a phase (`RuleFlow.SkipAfterAcrossPhases`).
- The chunk whose write fixes the header of an unbuffered response is handed to the downstream
  writer even if that header was interrupted (`Interceptor.InterruptedLeak` says exactly when,
  `Interceptor.LeakWitness` shows one).
- If a write ends exactly at the response limit and a phase 4 rule then switches body inspection
  off, the bytes held back are never sent (`Interceptor.Conserved` says exactly when,
  `Interceptor.DropWitness` shows one).
- An interruption raised in phase 3 can be replaced in the transaction, though not in the header
  that went out, by the body limit's (`Interceptor.CauseReplaced` says exactly when,
  `Interceptor.ReplacedWitness` shows one).
- Reading zero bytes reports the end of a body in memory, but not of one in a file
  (`BodyBuffers.BodyBufferReader.Read`).

Conventions: bytes are integers below 256; a 64-bit word of a bitmap is a sequence of 64 booleans;
Go strings whose identity matters carry an address. Rules, operators, transformations, body
processors and regex engines are function parameters. `hide` statements only keep the solver away
from definitions a proof does not need.

## Model

| member | source | states |
|---|---|---|
| `FoldedLiteral.EqualFoldASCIIBytes` | internal/operators/rxprefilter.go:969-980 | equal iff the lower-case needle sits at offset 0 up to ASCII case |
| `FoldedLiteral.ContainsFoldASCIIOnly` | internal/operators/rxprefilter.go:1066-1106 | the rare-byte anchored search answers yes iff the needle occurs ASCII-case-insensitively, for every needle and text |
| `FoldedLiteral.RarestOffset` | internal/operators/rxprefilter.go:1075-1080 | the anchor is the first offset whose byte is rarest |
| `FoldedLiteral.AnchorAbsent` | internal/operators/rxprefilter.go:1081-1105 | an occurrence always shows the anchor byte in one of its two cases, so jumping to the next anchor skips no occurrence |
| `FoldedLiteral.ContainsFoldASCII` | internal/operators/rxprefilter.go:1000-1016 | exact for ASCII needles; for other needles only the length is tested |
| `FoldedLiteral.NewFoldedLiteralMatcher` | internal/operators/rxprefilter.go:1124-1165 | builds a shift table that is valid for its needle, including the cap of 16-bit shifts; indexed iff the needle is ASCII and has two bytes or more |
| `FoldedLiteral.FoldedLiteralMatcher.SkipIsSafe` | internal/operators/rxprefilter.go:1167-1188 | an occurrence after the current window is never jumped over by the Horspool shift |
| `FoldedLiteral.FoldedLiteralMatcher.Match` | internal/operators/rxprefilter.go:1167-1188 | the Horspool search terminates and answers yes iff the needle occurs ASCII-case-insensitively |
| `PairIndex.BuildPairShift` | internal/operators/rxprefilter.go:832-848 | every pair inside a needle's first minLen bytes has a shift no larger than its distance to the end, although entries are cut to eight bits |
| `PairIndex.BuildPairBuckets` | internal/operators/rxprefilter.go:849-853 | every needle is in the bucket of its end pair, and buckets hold needles only |
| `PairIndex.BuildByteShift` | internal/operators/rxprefilter.go:801-823 | for one-byte minimum length: shift 0 exactly where a needle may start, in both cases when folding |
| `PairIndex.BuildEndBuckets` | internal/operators/rxprefilter.go:824-827 | every needle is in the bucket of its first byte |
| `PairIndex.NewIndexedMatcher` | internal/operators/rxprefilter.go:775-829 | the tables are valid for the (lower-cased) needles, for any set of non-empty needles |
| `PairIndex.IndexedMatcher.PairSkipIsSafe` | internal/operators/rxprefilter.go:884-922 | no needle starts at a position the pair shift skips |
| `PairIndex.IndexedMatcher.PairBucketIsComplete` | internal/operators/rxprefilter.go:884-922 | a needle that ends its window here is found in the bucket of the pair read here |
| `PairIndex.IndexedMatcher.ScanPairs` | internal/operators/rxprefilter.go:884-967 | the Wu-Manber scan, plain or folded, answers yes iff some needle occurs |
| `PairIndex.IndexedMatcher.ScanBytes` | internal/operators/rxprefilter.go:884-967 | the byte scan for one-byte needles answers yes iff some needle occurs |
| `PairIndex.IndexedMatcher.Match` | internal/operators/rxprefilter.go:870-875 | yes iff some needle occurs in the value, case-insensitively in fold mode |
| `RequiredBytes.DistinctBytes` | internal/operators/rxprefilter.go:616-625 | the distinct bytes of a needle, each once |
| `RequiredBytes.CountBytes` | internal/operators/rxprefilter.go:632-640 | how many uncovered needles hold each byte |
| `RequiredBytes.PickByte` | internal/operators/rxprefilter.go:641-647 | a byte held by most uncovered needles, the rarest among those |
| `RequiredBytes.BestIsUseful` | internal/operators/rxprefilter.go:631-656 | while a needle is uncovered the picked byte is in some uncovered needle |
| `RequiredBytes.MarkCovered` | internal/operators/rxprefilter.go:649-655 | exactly the needles holding the byte become covered, and the uncovered count strictly falls if there was one |
| `RequiredBytes.GreedyCover` | internal/operators/rxprefilter.go:613-673 | the greedy loop terminates with a byte set that meets every needle and holds nothing else |
| `RequiredBytes.NewRequiredByteMatcher` | internal/operators/rxprefilter.go:613-673 | the compiled byte set hits every non-empty needle, in both cases when folding, and every byte of it comes from a needle |
| `RequiredBytes.AddByte` | internal/operators/rxprefilter.go:743-751 | adds the byte and, when folding, its upper case, and nothing else |
| `RequiredBytes.RequiredByteMatcher.CoverIsNecessary` | internal/operators/rxprefilter.go:688-699 | a value without any covered byte holds no needle |
| `RequiredBytes.RequiredByteMatcher.Match` | internal/operators/rxprefilter.go:688-699 | yes iff some byte of the set is in the value |
| `RequiredBytes.RequiredByteMatcher.MatchWithState` | internal/operators/rxprefilter.go:701-724 | with any valid cache contents the verdict is that of a direct scan; short values leave the cache alone, and the map of a rejected long one is in the ring afterwards |
| `RequiredBytes.RequiredByteMatcher.PossibleFromCache` | internal/operators/rxprefilter.go:726-741 | a negative answer if and only if this very string's map is in the ring and holds no byte of the set |
| `RequiredBytes.PresenceRing.Load` | internal/corazawaf/transaction.go:162-170 | a hit iff one of the four slots holds this very string, and then its map is faithful to the string's bytes |
| `RequiredBytes.PresenceRing.Store` | internal/corazawaf/transaction.go:174-179 | the oldest slot is replaced, all four stay faithful |
| `RequiredBytes.RunRing` | internal/corazawaf/transaction.go:162-179 | over any run of lookups and stores, with inspected strings freed and their addresses reused, every answer is that of a direct scan |
| `MinLength.MatchLength` | internal/operators/rxprefilter.go:89-151 | every stretch an expression matches is at least minLen bytes long |
| `MinLength.TimesLength` | internal/operators/rxprefilter.go:89-151 | n repetitions are at least n times as long |
| `MinLength.AllLength` | internal/operators/rxprefilter.go:89-151 | a concatenation is at least as long as the sum of its parts |
| `RxOperator.TooShortToMatch` | internal/operators/rx.go:154-156 | an input shorter than the minimum cannot match |
| `Literals.Longest` | internal/operators/rxprefilter.go:548-559 | a longest string of the list |
| `Literals.ShortestLength` | internal/operators/rxprefilter.go:519-530 | the length of a shortest string of the list |
| `Literals.FilterShort` | internal/operators/rxprefilter.go:577-585 | exactly the strings of at least the minimum length |
| `Literals.BestIsPreferable` | internal/operators/rxprefilter.go:498-517 | the chosen group has the longest shortest literal and, among those, the fewest literals; it is empty only if every group is |
| `Literals.LiteralSound` | internal/operators/rxprefilter.go:374-387 | where a literal matches, its extracted bytes occur, or the input holds long-s or the Kelvin sign |
| `Literals.ClassSound` | internal/operators/rxprefilter.go:389-411 | where a class matches, one of its extracted characters occurs |
| `Literals.ConcatSound` | internal/operators/rxprefilter.go:417-448 | where a concatenation matches, all required literals occur and some literal of every group |
| `Literals.BranchSound` | internal/operators/rxprefilter.go:450-479 | where a branch of an alternation holds, some literal of the union occurs |
| `Literals.ExtractSound` | internal/operators/rxprefilter.go:372-496 | for every expression tree: where it matches, the extracted condition holds, or the input holds a fold exception |
| `Literals.ExtractShape` | internal/operators/rxprefilter.go:372-496 | extracted literals are non-empty and, in case-insensitive analysis, lower case |
| `Prefilter.Matcher.Match` | internal/operators/rxprefilter.go:165-343 | each kind of compiled test answers exactly its reference verdict |
| `Prefilter.CompileAll` | internal/operators/rxprefilter.go:190-231 | a test that is exact for 'every needle occurs' |
| `Prefilter.CompileAny` | internal/operators/rxprefilter.go:232-301 | a test that is exact for 'some needle occurs', whichever search the needle count selects |
| `Prefilter.CompileAllRequired` | internal/operators/rxprefilter.go:190-231 | the compiled filter tests the filtered literals and its cached byte test is implied by it |
| `Prefilter.CompileAnyRequired` | internal/operators/rxprefilter.go:232-301 | the compiled filter tests the alternatives, or only the byte cover when they are short |
| `Prefilter.CompilePrefilter` | internal/operators/rxprefilter.go:165-343 | compiles a valid filter for the extracted condition, or none |
| `FilterStrength.LiteralExtracted` | internal/operators/rxprefilter.go:372-448 | without alternatives on the way every literal that a match must pass is extracted |
| `FilterStrength.AtLeastAsSelective` | internal/operators/rxprefilter.go:417-448 | with alternatives, what is extracted is at least as long as any literal that a match must pass |
| `FilterStrength.LiteralIsTested` | internal/operators/rxprefilter.go:190-231 | the compiled filter rejects every input without such a literal of two bytes or more, but for the two fold exceptions |
| `FilterStrength.AlternativesAreTested` | internal/operators/rxprefilter.go:232-301 | for an alternation of literals, few and long enough to search for, the filter accepts exactly the inputs that hold one of them, or a fold exception |
| `FilterStrength.LeastReached` | internal/operators/rxprefilter.go:89-151 | for text and for byte expressions some text of exactly the computed minimum length matches, wherever it stands |
| `FilterStrength.LeastMatchLength` | internal/operators/rxprefilter.go:78-151 | so the computed minimum is the least length of any matching input |
| `Prefilter.HoldsMeansVerdict` | internal/operators/rxprefilter.go:165-343 | an extracted condition that holds makes the compiled filter answer maybe |
| `Prefilter.CompiledPrefilter.Match` | internal/operators/rxprefilter.go:317-343 | answers exactly the filter's verdict, fold exceptions passing through |
| `Prefilter.CompiledPrefilter.MatchWithState` | internal/operators/rxprefilter.go:306-343 | the stateful form answers the same verdict with any valid cache contents |
| `Prefilter.PrefilterSound` | internal/operators/rxprefilter.go:165-343 | for every expression and input: if from some rune boundary on a stretch matches, the filter answers maybe, provided a folded expression that has a filter does not spell U+0130 |
| `Prefilter.FoldedLiteralExact` | internal/operators/rxprefilter.go:374-387 | a folded literal's filter never rejects a match iff the literal has no U+0130 that lower-cases into ASCII |
| `Prefilter.RejectsDottedText` | internal/operators/rxprefilter.go:374-387 | otherwise it rejects a text spelled out from the literal, which matches |
| `Prefilter.DottedICounterexample` | internal/operators/rxprefilter.go:374-387 | (?i) with U+0130 alone matches the two bytes C4 B0, and its filter rejects them |
| `RxOperator.ExactMatchAgrees` | internal/operators/rxprefilter.go:1193-1210 | on inputs without a newline the anchored-literal bypass decides what the wrapped expression decides |
| `RxOperator.AnchoredLiteral` | internal/operators/rxprefilter.go:1193-1210 | begin, literal, end matches iff the input spells the literal |
| `RxOperator.ExactSpelling` | internal/operators/rx.go:160-165 | spelling a case-sensitive literal is being its UTF-8 bytes |
| `RxOperator.NewRX` | internal/operators/rx.go:73-150 | compiles the minimum length, the filter and the bypass from the same expression |
| `RxOperator.Rx.Evaluate` | internal/operators/rx.go:152-191 | never a yes where the expression says no; the same answer on every input, cache and capture mode when no folded literal of a filtered expression spells U+0130 |
| `BinaryPrefilter.SelectBytes` | internal/operators/rxprefilter_binary.go:192-214 | the up to eight best distinct bytes by rarity, in order, none better left out |
| `BinaryPrefilter.NewClause` | internal/operators/rxprefilter_binary.go:216-222 | bitmap and list of a clause hold the same bytes |
| `BinaryPrefilter.Deduplicate` | internal/operators/rxprefilter_binary.go:224-235 | no two clauses with the same bitmap, and the same verdict on every input |
| `BinaryPrefilter.MergeClauses` | internal/operators/rxprefilter_binary.go:183-186 | what meets both clauses meets the merged one, which selects from the bytes of both |
| `BinaryPrefilter.Combine` | internal/operators/rxprefilter_binary.go:173-190 | what satisfies both constraints satisfies the product, at most 64 clauses; two single clauses combine to the selection from both |
| `BinaryPrefilter.LiteralConstraint` | internal/operators/rxprefilter_binary.go:150-171 | the literal's clause is necessary for a match, and there is one exactly if the literal has a byte that no folding changes |
| `BinaryPrefilter.Extract` | internal/operators/rxprefilter_binary.go:101-148 | for every tree the extracted clauses are necessary for a match; without alternation there is exactly one clause, the eight rarest of all mandatory bytes, and none iff no byte is mandatory; an alternation of such branches demands exactly some branch's bytes |
| `BinaryPrefilter.MatchBytes` | internal/operators/rxprefilter_binary.go:237-281 | every matched stretch has at least the computed number of bytes, clamping included |
| `BinaryPrefilter.CoveredBy` | internal/operators/rxprefilter_binary.go:85-99 | word-wise inclusion of bitmaps is inclusion of byte sets |
| `BinaryPrefilter.BinaryFilter.PossibleDirect` | internal/operators/rxprefilter_binary.go:69-83 | yes iff some clause's bytes are all in the value |
| `BinaryPrefilter.BinaryFilter.PossibleFromPresence` | internal/operators/rxprefilter_binary.go:85-99 | the same verdict from a faithful presence map |
| `BinaryPrefilter.BinaryFilter.Possible` | internal/operators/rxprefilter_binary.go:45-67 | with any valid cache contents: yes iff long enough and some clause is met; the map of a rejected long value is in the ring afterwards |
| `BinaryPrefilter.BinaryFilter.NeverRejectsAMatch` | internal/operators/rxprefilter_binary.go:30-43 | whatever the expression matches passes the filter |
| `BinaryPrefilter.Compile` | internal/operators/rxprefilter_binary.go:30-43 | a compiled filter is valid for its expression; there is one exactly if a byte is mandatory, and it demands exactly those bytes, up to eight |
| `BinaryPrefilter.SelectionOfSelections` | internal/operators/rxprefilter_binary.go:173-214 | selecting eight bytes part by part is selecting them from all parts at once |
| `BinaryPrefilter.MandatoryBytesAreTested` | internal/operators/rxprefilter_binary.go:30-83 | with up to eight mandatory bytes the filter accepts exactly the inputs that are long enough and hold all of them |
| `BinaryPrefilter.BinaryRX.Evaluate` | internal/operators/rx.go:246-254 | prefiltered or not, the answer is the bare expression's |
| `MemoStore.AddOwnerKeeps` | internal/memoize/sync.go:38-46 | succeeds iff the entry is not deleted, then the owner is recorded; other entries untouched |
| `MemoStore.ReleaseOwnerKeeps` | internal/memoize/sync.go:115-125 | the owner is gone; an entry that loses its last owner is deleted for good |
| `MemoStore.CompareAndDeleteKeeps` | internal/memoize/sync.go:75-91 | deleting a dead entry never removes a live or replacement entry from the map |
| `MemoStore.LoadOrStoreKeeps` | internal/memoize/sync.go:75-91 | either the current entry is loaded, or the candidate becomes current and live |
| `MemoStore.OneLiveEntryPerKey` | internal/memoize/sync.go:75-91 | two live entries of a key are the same entry, the map's current one |
| `MemoSync.ApplyKeepsInv` | internal/memoize/sync.go:50-125 | every atomic step of every thread keeps the invariant, and entries only evolve: deleted stays, and a deleted entry never gains an owner |
| `MemoSync.EveryRun` | internal/memoize/sync.go:50-125 | over all interleavings: deleted entries stay ownerless, at most one live entry per key, and it is the map's |
| `MemoSync.OneFlightPerKey` | internal/memoize/sync.go:62-98 | in any reachable state at most one thread executes a key's computation |
| `MemoSync.DoReturnsAnOwnedEntry` | internal/memoize/sync.go:50-104 | at the step where Do returns, the owner is recorded in exactly the returned entry, which is live and current |
| `MemoSync.ReturnStep` | internal/memoize/sync.go:50-104 | the returning step is an addOwner that succeeded |
| `MemoSync.NoGain` | internal/memoize/sync.go:107-125 | without a Do by an owner no step of anyone makes it an owner |
| `MemoSync.AheadUnderOthers` | internal/memoize/sync.go:107-113 | steps of other threads never put an owned entry behind a range under way |
| `MemoSync.AheadUnderOwn` | internal/memoize/sync.go:107-125 | the releasing thread's own steps leave owned entries ahead of it only |
| `MemoSync.ReleaseLeavesNothing` | internal/memoize/sync.go:107-125 | after Release(o), with no concurrent Do by o, no entry is owned by o |
| `MemoSyncRuns.EntriesComputed` | internal/memoize/sync.go:50-104 | in every run each entry holds a value that a thread computed for that entry's key |
| `MemoSyncRuns.DoReturnsComputedValue` | internal/memoize/sync.go:50-104 | in every run the value Do returns was computed, at an earlier step, by a thread executing the function for the same key |
| `MemoSyncRuns.ErrorsAreComputed` | internal/memoize/sync.go:62-104 | in every run a Do fails for a key only after a computation of that key failed |
| `MemoSyncRuns.OwnershipStays` | internal/memoize/sync.go:107-125 | an owner stays one under every step of anyone but its own Release reaching the entry |
| `MemoSyncRuns.SoloHit` | internal/memoize/sync.go:50-60 | undisturbed, a live entry is returned at once and gains the owner; nothing is computed |
| `MemoSyncRuns.SoloMiss` | internal/memoize/sync.go:62-104 | undisturbed, a missing key is computed once, published with its owner, and returned |
| `MemoSyncRuns.SoloFailure` | internal/memoize/sync.go:62-104 | undisturbed, a failing computation is reported and nothing is published |
| `MemoSyncRuns.SoloRelease` | internal/memoize/sync.go:107-125 | undisturbed, Release ends, leaves of every entry in the map exactly its other owners, and marks the ownerless deleted |
| `MemoNosync.ApplyKeepsInv` | internal/memoize/nosync.go:26-126 | the variant with a mutation mutex and deferred deletes keeps the same invariant at every step |
| `MemoNosync.VisitStep` | internal/memoize/nosync.go:112-122 | dropping an owner inside Range only collects entries that are dead |
| `MemoNosync.EveryRun` | internal/memoize/nosync.go:72-126 | the same safety over all interleavings |
| `MemoNosync.DoReturnsAnOwnedEntry` | internal/memoize/nosync.go:72-99 | the same guarantee for the entry that Do returns |
| `MemoNosync.ReleaseLeavesNothing` | internal/memoize/nosync.go:106-126 | the same guarantee for Release |
| `MemoNosyncRuns.EntriesComputed` | internal/memoize/nosync.go:72-99 | in every run each entry holds a value that a thread computed for that entry's key |
| `MemoNosyncRuns.DoReturnsComputedValue` | internal/memoize/nosync.go:72-99 | in every run the value Do returns was computed by a thread executing the function for the same key |
| `MemoNosyncRuns.ErrorsAreComputed` | internal/memoize/nosync.go:72-99 | in every run a Do fails for a key only after a computation of that key failed |
| `MemoNosyncRuns.OwnershipStays` | internal/memoize/nosync.go:106-126 | an owner stays one under every step of anyone but its own Release visiting the entry |
| `MemoNosyncRuns.SoloHit` | internal/memoize/nosync.go:72-80 | undisturbed, a live entry is returned at once and gains the owner; nothing is computed |
| `MemoNosyncRuns.SoloMiss` | internal/memoize/nosync.go:72-99 | undisturbed, a missing key is computed once, published with its owner, and returned |
| `MemoNosyncRuns.SoloFailure` | internal/memoize/nosync.go:72-99 | undisturbed, a failing computation is reported and nothing is published |
| `MemoNosyncRuns.SoloRelease` | internal/memoize/nosync.go:106-126 | undisturbed, Release ends and leaves of every entry in the map exactly its other owners |
| `Base64Decode.DecMap` | internal/transformations/base64decode.go:14-28 | the alphabet table: six-bit values, the padding mark, or invalid |
| `Base64Decode.Decode` | internal/transformations/base64decode.go:43-140 | the bit-accumulator loop yields the RFC 4648 bytes of exactly the values it accepts |
| `Base64Decode.UnpackPack` | internal/transformations/base64decode.go:63-140 | decoding the six-bit values of any byte string gives it back |
| `Base64Decode.ForgivingRoundTrip` | internal/transformations/base64decode.go:63-140 | any mix of both alphabets with any out-of-alphabet bytes but '=' strewn in, padded or not, decodes to the original |
| `Base64Decode.EncodingRoundTrip` | internal/transformations/base64decode.go:63-140 | the encodings of sections 4 and 5 of RFC 4648, padded or not, decode to the original |
| `Base64Decode.StrictRoundTrip` | internal/transformations/base64decode.go:63-140 | strict mode accepts exactly the values of a section 4 text with line breaks, ended by any byte outside the alphabet |
| `Base64Decode.StrictStops` | internal/transformations/base64decode.go:63-140 | strict mode decodes up to the first byte that is neither in the alphabet nor a line break, whatever follows it |
| `ChainMatches.MatchedChainDepth` | internal/corazawaf/rule_multiphase.go:399-407 | the highest chain level present |
| `ChainMatches.GenerateChainMatches` | internal/corazawaf/rule_multiphase.go:302-326 | terminates and appends exactly the completions of the chain being built, in order |
| `ChainMatches.AllChains` | internal/corazawaf/rule_multiphase.go:302-326 | the result is exactly the sequences with one matched value per level, and their number is the product of the level sizes |
| `ChainMatches.ProductMembers` | internal/corazawaf/rule_multiphase.go:302-326 | membership in the product is having one value of each level |
| `ChainMatches.ProductCount` | internal/corazawaf/rule_multiphase.go:302-326 | the product's size is the product of the sizes |
| `ChainMatches.ChainPartOf` | internal/corazawaf/rule_multiphase.go:380-396 | yes iff the new chain repeats an old one position by position, without indexing out of range |
| `ChainMatches.IsDoubleEvaluation` | internal/corazawaf/rule_multiphase.go:333-377 | yes iff an earlier match of the same rule and depth already holds one of the new chains; the value is collected otherwise |
| `Interning.TransformationTable.TransformationID` | internal/corazawaf/rule.go:714-728 | ids are stable and an id stands for its parent's name plus '+' and the name |
| `Interning.AddTransformation` | internal/corazawaf/rule.go:732-743 | appends the transformation, interns its own and its prefix id, refuses an empty name |
| `Interning.ChainNameInjective` | internal/corazawaf/rule.go:714-728 | chains of names without '+' have different interned names |
| `Interning.ConfusableExactly` | internal/corazawaf/rule.go:714-728 | a name can be confused with another chain iff it has an inner '+' |
| `Interning.ChainConfusableExactly` | internal/corazawaf/rule.go:714-728 | among arbitrary non-empty names a chain can be confused with another iff it has two names or more, or one with an inner plus sign |
| `Interning.EdgePlusCollides` | internal/corazawaf/rule.go:714-728 | two different chains collide although none of their names has an inner plus sign |
| `Interning.PrefixIDsIdentifyChains` | internal/corazawaf/rule.go:714-743 | equal prefix ids mean equal transformation prefixes |
| `TransformCache.Caches.StoreStep` | internal/corazawaf/rulegroup.go:329-345 | stores iff below 512 entries and 16 MiB; byte accounting stays exact |
| `TransformCache.Caches.Execute` | internal/corazawaf/rule.go:876-893 | a cached step returns what the transformation returns; a step not yet cached is stored unless a cap is reached |
| `TransformCache.Caches.HitIsResult` | internal/corazawaf/rule.go:492-504 | any prefix-cache hit is the result of running that prefix on this very argument |
| `TransformCache.Caches.ExecuteTransformations` | internal/corazawaf/rule.go:857-868 | the uncached loop is the reference run, whose value and errors ChainMeans tells step by step |
| `TransformCache.Caches.LongestPrefix` | internal/corazawaf/rule.go:485-504 | resumes from the longest cached prefix, with no longer one in the cache, and with its exact value and errors |
| `TransformCache.Caches.TransformField` | internal/corazawaf/rule.go:435-530 | the cached path returns the value and errors of the uncached run and leaves the whole chain cached; TX values touch no cache |
| `TransformCache.Caches.ExecuteMultimatch` | internal/corazawaf/rule.go:777-793 | the uncached multiMatch loop is the reference run, whose values and errors MultiMeans tells step by step |
| `TransformCache.Caches.TransformMultimatch` | internal/corazawaf/rule.go:799-845 | the cached multiMatch path returns the value list and errors of the uncached one and leaves every prefix cached; TX and short values touch no cache |
| `TransformCache.Caches.Reset` | internal/corazawaf/transaction.go:1871-1883 | empties both caches |
| `TransformCache.Caches.TransformArgument` | internal/corazawaf/rule.go:264-282 | dispatch on multiMatch keeps the results |
| `TransformCache.RunPhase` | internal/corazawaf/rule.go:264-282 | over any sequence of rules in a phase, with strings freed and their addresses reused, every result equals the uncached one |
| `ChainSteps.TraceUnique` | internal/corazawaf/rule.go:857-868 | the values between the steps of a chain are determined: each step's output, or its input where the step failed or, under multiMatch, changed nothing |
| `ChainSteps.ChainMeans` | internal/corazawaf/rule.go:857-868 | the chain's value is the last of those, and its errors are those of the failing steps in order |
| `ChainSteps.MultiMeans` | internal/corazawaf/rule.go:777-793 | multiMatch shows the input and the output of exactly the changing steps, in order, with the errors of the failing steps |
| `ChainSteps.TransformedMeans` | internal/corazawaf/rule.go:264-282 | so every result of a phase, cached or not, is told by the steps alone |
| `TransformCache.AppendTransformationError` | internal/corazawaf/rule.go:870-872 | appending never writes to a cached slice |
| `RuleFlow.EvalFromInOrder` | internal/corazawaf/rulegroup.go:166-262 | rules are evaluated in syntactic order, each of the phase and not removed at that moment, none after an interruption before logging; interruptions stay, matches are only added |
| `RuleFlow.EvaluateKeeps` | internal/corazawaf/rule.go:368-424 | one rule: an interruption and the first detected one are kept, the match log only grows |
| `RuleFlow.SkipSuppresses` | internal/corazawaf/rulegroup.go:218-222 | a count of n set before a rule suppresses exactly the next n eligible rules |
| `RuleFlow.SkipPastEnd` | internal/corazawaf/rulegroup.go:218-222 | a longer count suppresses the rest of the phase |
| `RuleFlow.SkipAfterSuppresses` | internal/corazawaf/rulegroup.go:205-217 | nothing is evaluated between skipAfter and the next visited marker, the marker included |
| `RuleFlow.SkipAfterAcrossPhases` | internal/corazawaf/rulegroup.go:205-217 | a skipAfter left over from an earlier phase takes effect in the next one: up to its marker, or for the whole phase |
| `RuleFlow.AllowSuppresses` | internal/corazawaf/rulegroup.go:223-251 | once allow applies in a phase, nothing more of it is evaluated, matched or interrupted |
| `RuleFlow.AllowOutlives` | internal/corazawaf/rulegroup.go:223-251 | an allow that stops a phase outlives it, but for a spent allow:request of phase 2 |
| `RuleFlow.AllowRequestCrosses` | internal/corazawaf/rulegroup.go:233-248 | an allow:request set at any rule of phase 1 suppresses the rest of phase 1 and the whole of phase 2 |
| `RuleFlow.ResponsePhaseIgnoresAllowRequest` | internal/corazawaf/rulegroup.go:233-248 | phases 3, 4 and 5 run as if allow:request were unset |
| `RuleEffects.OneAction` | internal/actions/deny.go:35-50 | one action, field by field; deny, drop and redirect raise the rule's id with their action, target and status, 403 or 302 by default |
| `RuleEffects.EvaluateEffect` | internal/corazawaf/rule.go:368-424 | what matching leaves: variables, engine, the effect of the actions, and one log entry with the rule's id and whether it disrupted |
| `RuleEffects.InPlayIsEligible` | internal/corazawaf/rulegroup.go:175-203 | a rule takes part iff it is of the phase or of every phase and no ctl removed it by id or range |
| `RuleEffects.TurnEvaluates` | internal/corazawaf/rulegroup.go:166-262 | a rule whose turn has come is evaluated, on the variables as they are |
| `RuleEffects.SkipRule` | internal/actions/skip.go:50-52 | skip:n on a matching rule: the next n rules in play are passed over, and the next evaluation is that of the rule behind them |
| `RuleEffects.SkipRuleToEnd` | internal/actions/skip.go:50-52 | a count that the rest of the phase does not fill ends the phase with this rule |
| `RuleEffects.SkipAfterRule` | internal/actions/skipafter.go:57-62 | skipAfter on a matching rule: the next evaluation is behind the first marker of that name |
| `RuleEffects.SkipAfterRuleToEnd` | internal/actions/skipafter.go:57-62 | without such a marker the phase ends with this rule and the marker is still looked for |
| `RuleEffects.AllowRule` | internal/actions/allow.go:43-60 | each kind of allow on a matching rule while the engine is On: which ends the phase with this rule, and which outlives it |
| `RuleEffects.InterruptRule` | internal/actions/deny.go:35-50 | deny, drop or redirect on a matching rule while the engine is On: the phase ends with this rule, interrupted by exactly what the action raises |
| `RuleEffects.DetectRule` | internal/corazawaf/transaction.go:367-381 | in DetectionOnly the transaction stays uninterrupted and the first interruption is noted instead |
| `RuleEffects.AllInPlayHolds` | internal/corazawaf/rulegroup.go:166-262 | the list of all rules in play holds each of them with the variables of its turn |
| `RuleEffects.AllInPlayOnly` | internal/corazawaf/rulegroup.go:166-262 | and nothing else |
| `RuleEffects.AllInPlayInOrder` | internal/corazawaf/rulegroup.go:166-262 | each once, in the order of the rules |
| `RuleEffects.CompletePhase` | internal/corazawaf/rulegroup.go:155-274 | a phase with nothing to skip, whose rules neither control the flow nor interrupt, evaluates exactly that list |
| `RuleEffects.FirstEvaluation` | internal/corazawaf/rulegroup.go:155-274 | whatever the rules do, the first rule in play is evaluated first, on the variables the phase starts with |
| `TransactionModel.DoInLimits` | internal/corazawaf/transaction.go:1062-1451 | no call stores more than the body limits |
| `TransactionModel.DoAdvances` | internal/corazawaf/transaction.go:1030-1535 | one call, in any state: phase order is kept, nothing is withdrawn, new evaluations belong to new phases |
| `TransactionModel.AnyCallSequence` | internal/corazawaf/transaction.go:1030-1535 | the same over every sequence of calls; an interruption stays |
| `TransactionModel.PhaseSafety` | internal/corazawaf/transaction.go:1030-1535 | for a new transaction and any calls: phases increase and only logging repeats, 2 directly follows 1 and 4 directly follows 3, every evaluated rule was eligible, and none of phases 1 to 4 is evaluated after an interruption |
| `PhaseRuns.CallEvaluates` | internal/corazawaf/transaction.go:1030-1535 | a Process call evaluates exactly its phase iff it is due, and otherwise changes nothing |
| `PhaseRuns.CallStartsWith` | internal/corazawaf/transaction.go:1030-1535 | its first evaluation is the first rule in play, on the variables as the body processor or the status left them |
| `PhaseRuns.CallIsComplete` | internal/corazawaf/transaction.go:1030-1535 | without flow control it evaluates every rule in play, once and in order |
| `PhaseRuns.BodyResults` | internal/corazawaf/transaction.go:1206-1524 | the body calls return the transaction's interruption if there was one or their phase ran, and none otherwise |
| `PhaseRuns.FullRun` | internal/corazawaf/transaction.go:1030-1535 | called in sequence, bodies in any pieces, engine never off: if not interrupted in the end, phases 1 to 4 were each evaluated once in order, and logging comes fifth |
| `PhaseRuns.PlainRun` | internal/corazawaf/transaction.go:1030-1535 | the whole history of a run without flow control: four phases, each with every rule in play, on the variables passed from phase to phase |
| `PhaseRuns.OnlyRulesInPlay` | internal/corazawaf/rulegroup.go:175-203 | whatever the calls, no rule of another phase and no removed rule is ever evaluated |
| `PhaseRuns.RequestWriteReport` | internal/corazawaf/transaction.go:1062-1117 | every case of a request body write: what is stored, counted, marked and reported, 413 under Reject, and phase 2 with its interruption under ProcessPartial |
| `PhaseRuns.ResponseWriteReport` | internal/corazawaf/transaction.go:1339-1385 | every case of a response body write, with 500 and phase 4 |
| `PhaseRuns.FilledBodyIsProcessed` | internal/corazawaf/transaction.go:1062-1117 | a piece that fills the buffer runs phase 2 on what the processor makes of the cut and marked body, and reports its interruption |
| `FlowRuns.PhaseLocal` | internal/corazawaf/rulegroup.go:267-274 | over any calls: between calls no skip count and no allow:phase is left over |
| `FlowRuns.AllowRequestRun` | internal/corazawaf/rulegroup.go:233-248 | over any calls: after an allow:request of phase 1, no rule is evaluated in a request phase again |
| `FlowRuns.AllowAllRun` | internal/corazawaf/rulegroup.go:249-251 | over any calls: after a plain allow no rule of any phase is evaluated again |
| `DetectionOnly.EvaluateSimulates` | internal/corazawaf/rule.go:368-424 | one rule on both transactions: still in lockstep, or On raised what DetectionOnly remembers |
| `DetectionOnly.PhaseSimulates` | internal/corazawaf/rulegroup.go:155-278 | one phase on both transactions |
| `DetectionOnly.RunSimulates` | internal/corazawaf/transaction.go:367-392 | any calls before logging keep the two transactions related |
| `DetectionOnly.DetectionPredictsEnforcement` | internal/corazawaf/transaction.go:367-392 | DetectionOnly never interrupts, detects exactly what On raises, and its match log starts with On's |
| `BodyLimits.RequestWriteSplits` | internal/corazawaf/transaction.go:1062-1117 | two writes do what one write of both chunks does |
| `BodyLimits.RequestChunking` | internal/corazawaf/transaction.go:1062-1117 | any split of a body has the whole effect of one write; under Reject up to the stored bytes |
| `BodyLimits.ReadingIsWriting` | internal/corazawaf/transaction.go:1127-1197 | reading from a sized or unsized reader has the verdict and effect of writing, and stores a prefix of the body |
| `BodyLimits.RequestLimit` | internal/corazawaf/transaction.go:1062-1117 | ProcessPartial stores exactly the first min(n, limit) bytes of any split; Reject raises 413 iff n reaches the limit; never more than the limit is stored |
| `BodyLimits.ResponseChunking` | internal/corazawaf/transaction.go:1339-1385 | any split of a response body has the whole effect of one write |
| `BodyLimits.ReadingResponseIsWriting` | internal/corazawaf/transaction.go:1390-1451 | the same for reading a response body |
| `BodyLimits.ResponseLimit` | internal/corazawaf/transaction.go:1339-1385 | ProcessPartial stores exactly the first min(n, limit) bytes of any split; Reject raises 500 iff n reaches the limit |
| `BodyBuffers.BodyBuffer.Write` | internal/corazawaf/body_buffer.go:50-95 | appends all or nothing; refuses exactly beyond the limit, or beyond memory without a file system; every open reader has just these bytes more to deliver, across the move to a file |
| `BodyBuffers.BodyBuffer.Reader` | internal/corazawaf/body_buffer.go:136-142 | a new reader delivers the whole contents |
| `BodyBuffers.BodyBuffer.Reset` | internal/corazawaf/body_buffer.go:150-172 | empties the buffer and closes every reader |
| `BodyBuffers.BodyBufferReader.Read` | internal/corazawaf/body_buffer.go:102-127 | delivers the next bytes from memory or file and nothing else changes; when the end is reported differs between the two |
| `BodyBuffers.BodyBufferReader.ReadAll` | internal/corazawaf/body_buffer.go:102-127 | reading to the end terminates and delivers exactly what remained |
| `Transactions.Transaction.Interrupt` | internal/corazawaf/transaction.go:367-380 | enforced when On, only the first remembered in DetectionOnly, ignored when Off |
| `Transactions.Transaction.EvaluateRule` | internal/corazawaf/rule.go:368-424 | the in-place evaluation of a rule is the function |
| `Transactions.Transaction.Eval` | internal/corazawaf/rulegroup.go:155-278 | the in-place loop over the rules is the function |
| `Transactions.Transaction.ProcessRequestHeaders` | internal/corazawaf/transaction.go:1030-1048 | the in-place call is the function |
| `Transactions.Transaction.ProcessRequestBody` | internal/corazawaf/transaction.go:1206-1289 | the in-place call is the function, and what it returns |
| `Transactions.Transaction.ProcessResponseHeaders` | internal/corazawaf/transaction.go:1297-1319 | the in-place call is the function, and what it returns |
| `Transactions.Transaction.ProcessResponseBody` | internal/corazawaf/transaction.go:1460-1524 | the in-place call is the function, and what it returns |
| `Transactions.Transaction.ProcessLogging` | internal/corazawaf/transaction.go:1529-1535 | the in-place call is the function |
| `Transactions.Transaction.WriteRequestBody` | internal/corazawaf/transaction.go:1062-1117 | with its buffer: the new state, the interruption, the count and the error are the function's; the buffer never refuses |
| `Transactions.Transaction.ReadRequestBodyFrom` | internal/corazawaf/transaction.go:1127-1197 | the same for reading from a reader |
| `Transactions.Transaction.WriteResponseBody` | internal/corazawaf/transaction.go:1339-1385 | the same for response bodies |
| `Transactions.Transaction.ReadResponseBodyFrom` | internal/corazawaf/transaction.go:1390-1451 | the same for reading a response body |
| `Transactions.Transaction.RunCalls` | internal/corazawaf/transaction.go:1030-1535 | any calls on the object do what they do on the value, so phase order, history and stickiness of interruptions hold of the object |
| `Transactions.WriteRequestChunks` | internal/corazawaf/transaction.go:1062-1117 | on the object: any split stores the first min(n, limit) bytes under ProcessPartial and is interrupted with 413 iff n reaches the limit under Reject |
| `Transactions.RunBoth` | internal/corazawaf/transaction.go:367-392 | on two objects: DetectionOnly detects exactly what On raises |
| `Interceptor.HeaderKeeps` | http/interceptor.go:52-86 | fixing the header keeps the delivery invariant, whatever the rules of phase 3 decide |
| `Interceptor.ResponseBodyOnce` | internal/corazawaf/transaction.go:1460-1524 | the body phase keeps the body, reports its interruption, and does nothing a second time |
| `Interceptor.BodyUnheld` | http/interceptor.go:156-161 | a body that is not held back goes straight downstream, header first |
| `Interceptor.BodyFilling` | http/interceptor.go:130-153 | a chunk below the limit is held back; one that reaches it is answered with the interruption's header, held back, or released with its rest |
| `Interceptor.BodyPastLimit` | http/interceptor.go:130-161 | behind the limit, the held bytes go out before the chunk, or are lost if judging them took inspection back |
| `Interceptor.BodyAfterStop` | http/interceptor.go:125-161 | the chunk that came with an interrupted header: kept back if the body is held, sent on if not |
| `Interceptor.StepKeeps` | http/interceptor.go:52-186 | every handler call keeps the delivery invariant, for every configuration |
| `Interceptor.EndDelivers` | http/interceptor.go:234-268 | the response processor settles the exact outcome from any invariant state |
| `Interceptor.ResponseDelivered` | http/interceptor.go:52-268 | for every configuration and handler, the exact outcome from the transaction right after the headers: one header, first, with its status and map; the told interruption and the transaction's; the bytes that go out; no flush of a held-back body |
| `Interceptor.Conserved` | http/interceptor.go:113-211 | an uninterrupted response delivers exactly the handler's bytes iff it is not dropped: a write ended exactly at the limit and judging the cut body took inspection back; then exactly the bytes behind the limit go out |
| `Interceptor.Atomic` | http/interceptor.go:113-162 | an interrupted response whose body is held back delivers no byte of it |
| `Interceptor.CauseReplaced` | http/interceptor.go:113-162 | the told interruption differs from the transaction's iff the headers were interrupted by writing a chunk that reaches the limit of an inspected body under Reject |
| `Interceptor.StableNeverDrops` | http/interceptor.go:113-162 | if no rule of phase 4 or of every phase, and no body processor, takes inspection back, nothing is dropped |
| `Interceptor.InterruptedLeak` | http/interceptor.go:113-162 | an interrupted response sends body bytes downstream iff its header was fixed by writing a non-empty chunk and, right after the headers, is interrupted with the body not held back; the bytes are that chunk |
| `Interceptor.LeakWitness` | http/interceptor.go:113-162 | a concrete response: denied with 403 in phase 3, and the byte written with the header follows it |
| `Interceptor.DropWitness` | http/interceptor.go:113-162 | a concrete response of two one-byte writes whose first byte, held back at the limit, is never delivered |
| `Interceptor.ReplacedWitness` | http/interceptor.go:113-162 | a concrete response told 403 while the transaction ends with the body limit's 500 |
| `Interceptor.RwInterceptor.WriteHeader` | http/interceptor.go:52-86 | the in-place call is the function |
| `Interceptor.RwInterceptor.Write` | http/interceptor.go:113-162 | the in-place call is the function, and the whole chunk is reported as written |
| `Interceptor.RwInterceptor.Flush` | http/interceptor.go:172-186 | fixes the header as 200 if none is fixed, and passes the flush on only if the body is not held back and the header is out |
| `Interceptor.RwInterceptor.WriteBufferedResponseBodyToDownstream` | http/interceptor.go:188-211 | sends the header if needed and then exactly the buffered bytes, once |
| `Interceptor.RwInterceptor.ProcessResponse` | http/interceptor.go:234-268 | the in-place processor is the function |
| `Interceptor.Serve` | http/middleware.go:147-155 | any handler, then the response processor: that exact outcome, for every configuration |
| `Responses.HandledMeans` | http/interceptor.go:52-186 | the response as the handler made it, told from its calls: all bytes in order, the map in effect, whether the header is fixed |
| `Responses.FixedMeans` | http/interceptor.go:52-133 | status and map are those of the first call that fixed the header; a write that did so counts as 200 |
| `Responses.WriteMeans` | http/interceptor.go:113-162 | each write is known by the bytes before and after it and the map in effect |
| `Responses.InterruptedHeader` | http/middleware.go:163-173 | the header of an interrupted response: a deny's own status, 403 if it has none, the handler's status for any other action, and only Content-Length: 0 in the map |
| `Responses.LimitRefused` | http/interceptor.go:130-148 | an inspected response that reaches its limit under Reject is the header 500 with Content-Length: 0, and nothing else |
| `Responses.HeaderPhaseSees` | http/interceptor.go:52-69 | phase 3 starts on the variables with the handler's map and status added |
| `Responses.BodyPhaseSees` | http/interceptor.go:249-266 | phase 4 of an inspected response starts on what the processor makes of the whole body |
| `Responses.FlushesPassedOn` | http/interceptor.go:172-186 | no flush while the body is held back or the header was interrupted; otherwise exactly the flushes that come when the header is out |
| `Responses.FlushAfterWrite` | http/interceptor.go:172-186 | among them every flush after a write |
| `Middleware.HandlerReadsTheBody` | http/middleware.go:63-97 | whatever limits, access and rules: a handler that runs reads exactly the request's body, and the verdict is the transaction's |
| `Middleware.RequestPhases` | http/middleware.go:63-97 | a request that is let through has been through phases 1 and 2, also when its body was cut at the limit |
| `Middleware.TakeRequest` | http/middleware.go:26-98 | the in-place request half is the function |
| `Middleware.ServeHTTP` | http/middleware.go:117-160 | the whole exchange: bypassed with the engine off; refused with one header and no handler; or answered by a handler that read the whole body, with the interceptor's outcome; logging last |

## Left out

- Prefilter.PrefilterSound: the U+0130 condition is sufficient for any tree and exact only for single literals, because whether a text that the filter rejects is matched by a larger tree depends on everything else the tree matches.
- RxOperator.Rx.Evaluate: equality with the bare expression carries the same one-way U+0130 condition; that there is no false yes is unconditional.
- DetectionOnly.DetectionPredictsEnforcement: rules without allow and ctl:ruleEngine, at most one disruptive action per rule as the parser ensures, ProcessPartial limits, and calls before logging.
- BodyLimits.RequestLimit: bodies whose total size stays below the 64-bit overflow guard.
- Middleware.ServeHTTP: the handler is a function of the whole body it reads; interleaving its reads with its writes is not modelled, nor is the plain writer it gets when the engine is off.
- BodyBuffers.BodyBufferReader.ReadAll: stands for io.Copy and io.ReadAll with one buffer size; the copy loop of the Go library is not modelled.
- The Go regexp parser, Simplify and engines, go-re2 and binaryregexp: trees and verdicts are parameters; the accelerated engine is taken to agree on ASCII inputs.
- Unicode case tables: only the facts about folding that the filters rely on; runes exclude surrogates.
- Submatch capture and the choice between the two regex operators (captureRXMatch, matchesArbitraryBytes).
- The word-at-a-time ASCII test and the standard library's Base64 fast path, which only save time.
- The pre-check of the indexed matcher's own required-byte set on the stateful path, which no caller reaches.
- memoize.Reset, which is for tests.
- What rules match and log beyond flow: variables, operators, chains inside a rule, audit and error logs.
- The logging phase in interruption claims: it may run repeatedly and may replace an interruption.
- Multiphase evaluation beyond the chain enumeration helpers.
- Connection hijacking, I/O errors, invalid body processors, temporary-file handling and BodyBuffer.WriteTo.
- Directives, configuration parsing, collections, and the remaining operators and transformations.
