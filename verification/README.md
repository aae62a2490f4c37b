# NGIN: models and proofs

This project models the algorithmic and stateful cores of the NGIN repository in
Dafny and proves properties of the models. Check it with
`dafny verify dfyconfig.toml`.

What is modelled, module by module:

- **Hosted UI scopes** (`HostingModel`, `HostingLaws`, `HostingClosing`,
  `HostedScopes`, `HostingInterleavings`). The scope forest of `HostedUIScope::State`. The locked
  sections are functions on values; a class performs them in place, with the two
  recursions of closing as the source has them; a closed form says what a whole
  closing does; and a transition system covers every interleaving of the locked
  sections with the EndScope calls and handlers that run outside the lock.
- **CMake plans** (`Lexical`, `Permutations`, `DependencyCounts`, `CMakeAdapter`,
  `SourceCollapse`). The in-place Kahn sort over representatives, and the loop
  that collapses packages sharing a source.
- **Canonical JSON and SHA-256** (`Decimal`, `Canonical`, `Sha256`,
  `HashConstants`, `Sha256Sample`). The printer with a reader that undoes it, and the
  byte-oriented hash loops against FIPS 180-4 on bit strings, with where its
  constants come from.
- **MetaGen** (`CharacterClasses`, `CommandLine`, `CommandWords`, `QuotingLaws`,
  `Tokenizer`, `TokenLaws`, `SourceTokens`, `LineMarkers`, `MarkerForm`,
  `TokenRanges`, `RangeLaws`, `ScopeWalk`, `ReflectedTypes`, `RecordMembers`,
  `BodyMembers`, `MemberLaws`, `TypeOrder`, `Reflection`, `ScanLaws`,
  `MetaGenScanner`). The command splitter and its two quoters, the tokenizer and
  the string escaper, and the recursive scanner on arbitrary token streams.
- **Game of Life** (`LifeRules`, `LifeCommit`, `LifePixels`, `LifePatterns`,
  `LifeLaws`, `GliderFleet`, `LifeSimulation`). The torus rule, the commit under any interleaving of its
  single memory accesses, and the cached snapshot, population and picture.
- **SDL textures** (`Division`, `TextureLayout`, `TextureCache`, `TextureLaws`,
  `RenderBackend`). The strided copy in 32- and 64-bit arithmetic, and the
  revision-stamped cache of each surface.
- **Action outputs** (`ActionOutputs`), **authored manifests** (`ScalarValues`,
  `ManifestSchema`, `ManifestProblems`, `AuthoredManifest`, `ManifestWriter`) and
  **the gallery's virtualized source** (`VirtualizedSource`).
- The modules called laws say what the functions that specify the methods mean,
  in terms of their arguments alone.
- `Common` holds shared wrappers. A predicate "sealed" there is one whose
  definition proofs use only on request.

Properties that the code does not have in full, with the exact condition proved:

- EndScope calls of several threads can come parent first, and a scope can gain
  a child between the taking and the running of its close handler
  (`HostingInterleavings`). A single thread calls EndScope children first
  (`HostedScopes`, whose log of calls is always in that order).
- Clearing the pending handler of a childless scope that was asked to close, and
  that no thread is still to finalise, leaves it active until it is asked again
  or gains a child.
- A shutdown that is complete after the 256th pump is reported as failed.
- A line marker whose file name contains a quotation mark names the part before it.
- The package sort also fails when two plans have the same name.
- Response-file quoting is undone only for arguments in which no backslash
  stands before a quote, an apostrophe, a blank or the end; empty arguments are
  lost by either way of quoting.
- The row pitch for uploads overflows for textures 2^29 pixels wide or wider.
- Revision counters wrap: at revision 0 a surface that never held the texture
  skips the upload, and after a multiple of 2^64 updates an old entry counts as
  current.
- The manifest parser passes over children in the two namespaces reserved by XML
  without a diagnostic.
- The gallery finds keys whose number has leading zeros.

Conventions: a byte of a `std::string` is a character with a code below 256;
sizes are unbounded except where the source's width matters (hash words and
lengths, JSON integers, texture sizes and offsets, the population counter,
revisions, parsed numbers), where it is written out.

## Model

| member | source | states |
|---|---|---|
| `HostedScopes.ServiceRegistry.BeginScope` | Packages/NGIN.Core/src/NGIN/Core/Services.cpp:15-29 | every scope gets an identifier that is not live and was never handed out, and becomes live |
| `HostedScopes.ServiceRegistry.EndScope` | Packages/NGIN.Core/src/NGIN/Core/Services.cpp:31-60 | succeeds exactly for live scopes other than the global one, and ends only that scope |
| `HostedScopes.HostedScopes.Bind` | Packages/NGIN.UI.Hosting/src/Hosting.cpp:115-147 | a second binding is refused; the first creates the application scope and accepts work; the table and its whole history stay consistent |
| `HostedScopes.HostedScopes.BeginScope` | Packages/NGIN.UI.Hosting/src/Hosting.cpp:149-189 | the exact new table and error of each case (no registry, unknown parent), keeping forest and history |
| `HostedScopes.HostedScopes.SetCloseHandler` | Packages/NGIN.UI.Hosting/src/Hosting.cpp:216-238 | one handler at a time: the exact new table or the error, nothing else changed |
| `HostedScopes.HostedScopes.ClearCloseHandler` | Packages/NGIN.UI.Hosting/src/Hosting.cpp:240-246 | a registered or pending handler of an active scope is forgotten, nothing else changed |
| `HostedScopes.HostedScopes.FinalizeSection` | Packages/NGIN.UI.Hosting/src/Hosting.cpp:283-320 | the locked section of a finalisation: who is erased, whose handler is taken, and which EndScope is due, keeping the record of EndScope calls in order and unique |
| `HostedScopes.HostedScopes.TryFinalize` | Packages/NGIN.UI.Hosting/src/Hosting.cpp:283-335 | finalisation climbs to the closing ancestors: it reaches exactly the closed form, having ended only scopes the registry knew, or fails right at the one erased scope it did not know; EndScope was called once for each erased scope and no other; handlers that ran are exactly those that stopped waiting; no scope appears and no window entry goes stale |
| `HostedScopes.HostedScopes.RequestEnd` | Packages/NGIN.UI.Hosting/src/Hosting.cpp:248-281 | the downward recursion terminates and reaches exactly the closed form of ending a subtree, or fails right at the one erased scope the registry does not know, without going past that form; what ran, what was announced and what the registry forgot is exact in both cases |
| `HostedScopes.SucceedsExactly` | Packages/NGIN.UI.Hosting/src/Hosting.cpp:248-335 | a closing succeeds, and then reaches the closed form, exactly when no registry is bound or it knows every scope to be erased; a failed one ended exactly one scope the registry did not know, its last |
| `HostedScopes.ClosingLeaves` | Packages/NGIN.UI.Hosting/src/Hosting.cpp:248-335 | successful or not, a closing leaves the surviving scopes their parent, window and requests; a handler goes only by being taken, is counted as run and leaves its scope pending |
| `HostedScopes.ProgressTwice` | Packages/NGIN.UI.Hosting/src/Hosting.cpp:274-334 | a closing that follows a successful one composes with it: erased scopes, EndScope calls and handlers add up, whether or not the second fails |
| `HostedScopes.HostedScopes.BeginShutdown` | Packages/NGIN.UI.Hosting/src/Hosting.cpp:337-345 | work is refused from then on and the application scope's subtree is ended as by RequestEnd |
| `HostedScopes.HostedScopes.DrainAndShutdown` | Packages/NGIN.UI.Hosting/src/Hosting.cpp:347-373 | shutdown lets no scope in and succeeds only with an empty table; while the registry knows all active scopes, it succeeds exactly when fewer than 256 pumps, none of them failing, empty the table, reports a failing pump exactly when that comes first, and succeeds at once when all scopes belong to the application and none has a handler |
| `HostedScopes.AttemptDecides` | Packages/NGIN.UI.Hosting/src/Hosting.cpp:347-373 | each attempt of the loop decides the outcome or leaves it to the next: empty, no runtime, a failing pump, or no attempt left |
| `HostedScopes.DrainsAtOnce` | Packages/NGIN.UI.Hosting/src/Hosting.cpp:337-356 | no pump is needed exactly when every scope lies below the application scope and none has a registered or pending handler; without a runtime nothing else succeeds |
| `HostedScopes.LastPumpComesTooLate` | Packages/NGIN.UI.Hosting/src/Hosting.cpp:349-373 | a table that only the 256th pump empties is still reported as not shut down |
| `HostedScopes.ClosingTransitive` | Packages/NGIN.UI.Hosting/src/Hosting.cpp:248-335 | the two mutually feeding recursions compose: handlers run in separate parts of a closing are counted once each |
| `HostedScopes.EndsInOrderAppend` | Packages/NGIN.UI.Hosting/src/Hosting.cpp:318-334 | an EndScope call for a childless active scope keeps the log free of repetitions and children first |
| `HostedScopes.FinalizeKeepsHistory` | Packages/NGIN.UI.Hosting/src/Hosting.cpp:283-335 | a finalisation keeps the forest, the identifiers and the log of EndScope calls consistent, whatever its outcome |
| `HostingClosing.RequestEndOutcome` | Packages/NGIN.UI.Hosting/src/Hosting.cpp:248-335 | after a completed RequestEnd, exactly the scopes of the subtree with no registered or pending handler at or below them are gone, every survivor is close-requested with a pending handler at or below it, and outside the subtree only the chain above can differ |
| `HostingClosing.ClosingOneChild` | Packages/NGIN.UI.Hosting/src/Hosting.cpp:274-280 | closing one more child of a half-closed subtree gives the closed form for one more child, even when the child's finalisation climbs into the parent |
| `HostingClosing.SubtreeAfterEnd` | Packages/NGIN.UI.Hosting/src/Hosting.cpp:248-335 | what each single scope of the subtree looks like after the closing |
| `HostingClosing.FinalizedTwice` | Packages/NGIN.UI.Hosting/src/Hosting.cpp:283-335 | finalising a second time changes nothing |
| `HostingClosing.FinalizedOnlyClimbs` | Packages/NGIN.UI.Hosting/src/Hosting.cpp:283-335 | finalisation touches nothing but the chain above its scope |
| `HostingClosing.ShutdownDrains` | Packages/NGIN.UI.Hosting/src/Hosting.cpp:337-373 | ending the application scope empties the table exactly when every scope lies below it and none has a registered or pending handler |
| `HostingInterleavings.AlwaysSafe` | Packages/NGIN.UI.Hosting/src/Hosting.cpp:115-345 | in every interleaving of the locked sections: active scopes form a forest with active parents, the two indexes agree, every scope is active, awaiting EndScope, ended once or dropped, and every handler is in one place and runs at most once |
| `HostingInterleavings.EndScopeOnlyAfterDescendants` | Packages/NGIN.UI.Hosting/src/Hosting.cpp:318-334 | EndScope is never called while a descendant is active, and never twice for one scope |
| `HostingInterleavings.EachOnce` | Packages/NGIN.UI.Hosting/src/Hosting.cpp:248-345 | in every interleaving no scope is ended twice or while it is active, and no handler runs twice |
| `HostingInterleavings.ChildrenFirstExactly` | Packages/NGIN.UI.Hosting/src/Hosting.cpp:318-334 | a call of EndScope keeps children-first order across threads exactly when no child of its scope still awaits its own call |
| `HostingInterleavings.ParentCanBeAnnouncedFirst` | Packages/NGIN.UI.Hosting/src/Hosting.cpp:318-334 | an execution of two threads in which the parent's EndScope comes before the child's |
| `HostingInterleavings.TakenOnlyWhenChildless` | Packages/NGIN.UI.Hosting/src/Hosting.cpp:283-316 | a handler is taken only from a close-requested, childless scope that was not pending |
| `HostingInterleavings.CalmExactly` | Packages/NGIN.UI.Hosting/src/Hosting.cpp:149-189 | the one step that puts a child under a scope whose handler is about to run is a successful BeginScope under it; a parent that is not close-requested is never such a scope |
| `HostingInterleavings.HandlerCanRunAboveAChild` | Packages/NGIN.UI.Hosting/src/Hosting.cpp:283-334 | an execution in which a scope has gained a child by the time its handler runs |
| `HostingInterleavings.NoFinalisationLost` | Packages/NGIN.UI.Hosting/src/Hosting.cpp:240-335 | when no EndScope failed, a scope that could be finalised has no thread to try it exactly if its pending handler was cleared while it was already asked to close, childless and without such a thread, and since then it was neither asked again nor gained a child; once all threads have returned, these are all the scopes that could be finalised |
| `HostingInterleavings.ClearingStrandsExactly` | Packages/NGIN.UI.Hosting/src/Hosting.cpp:240-246 | clearing a pending handler leaves a scope without anyone to finalise it exactly if it was asked to close, childless and without a thread to try it |
| `HostingInterleavings.StrandedExactly` | Packages/NGIN.UI.Hosting/src/Hosting.cpp:149-335 | such a scope stays so through every step but a request to close it and the beginning of a scope under it |
| `HostingInterleavings.ClearingCanStrand` | Packages/NGIN.UI.Hosting/src/Hosting.cpp:240-246 | an execution in which a scope stays behind that way |
| `HostingInterleavings.ChildCanTakeAlong` | Packages/NGIN.UI.Hosting/src/Hosting.cpp:321-334 | an execution in which a scope left behind goes with a later child, without being asked again |
| `HostingInterleavings.NoGrowthAfterShutdown` | Packages/NGIN.UI.Hosting/src/Hosting.cpp:337-345 | after BeginShutdown the set of active scopes only shrinks until the next Bind |
| `HostingInterleavings.WindowsAgreeExactly` | Packages/NGIN.UI.Hosting/src/Hosting.cpp:166-184 | beginning a scope keeps the window index and the table in agreement exactly when its window is not in use |
| `HostingLaws.BindExactly` | Packages/NGIN.UI.Hosting/src/Hosting.cpp:115-147 | binding makes the application's scope under a new identifier and lets work begin; every other scope stays |
| `HostingLaws.BeginExactly` | Packages/NGIN.UI.Hosting/src/Hosting.cpp:149-189 | a scope begins exactly while work is accepted and its parent is active or global; which error otherwise; every other scope stays |
| `HostingLaws.SetExactly` | Packages/NGIN.UI.Hosting/src/Hosting.cpp:216-238 | a handler is taken exactly by an active scope that has none; which error otherwise |
| `HostingLaws.ClearExactly` | Packages/NGIN.UI.Hosting/src/Hosting.cpp:240-246 | an active scope is left with neither a registered nor a pending handler, and nothing else changes |
| `HostingLaws.RequestExactly` | Packages/NGIN.UI.Hosting/src/Hosting.cpp:248-281 | a request to close marks an active scope, and nothing else |
| `HostingLaws.FinalizeExactly` | Packages/NGIN.UI.Hosting/src/Hosting.cpp:283-320 | something happens exactly to a scope that was asked to close, has no active scope in it and no running handler: its handler is taken if it has one, and it is removed from all tables otherwise |
| `Canonical.WriteEscaped` | Tools/NGIN.CLI/src/Canonical.cpp:13-42 | appends the quoted, escaped string |
| `Canonical.WriteValue` | Tools/NGIN.CLI/src/Canonical.cpp:44-91 | appends the canonical text of a value, nested arrays and objects included |
| `Canonical.ReadStringUndoesEscaped` | Tools/NGIN.CLI/src/Canonical.cpp:13-42 | a JSON string reader (section 7 of RFC 8259) reads every escaped string back, whatever follows it |
| `Canonical.ReadIntegerUndoesPrint` | Tools/NGIN.CLI/src/Canonical.cpp:57-60 | a printed 64-bit integer is read back up to the delimiter that ends it |
| `Canonical.ReadValueUndoesSerialize` | Tools/NGIN.CLI/src/Canonical.cpp:44-98 | reading undoes writing for every value in every context that can follow it |
| `Canonical.ReadUndoesSerialize` | Tools/NGIN.CLI/src/Canonical.cpp:93-98 | the reader recovers every value from its canonical text |
| `Canonical.SerializeInjective` | Tools/NGIN.CLI/src/Canonical.cpp:93-98 | canonical texts are equal exactly for equal values |
| `Canonical.SerializeSelfDelimiting` | Tools/NGIN.CLI/src/Canonical.cpp:46-98 | equal texts with anything delimited behind them hold equal values and equal rests |
| `Canonical.DigestInputInjective` | Tools/NGIN.CLI/src/Canonical.cpp:100-104 | different kinds or fields have different digest inputs |
| `Canonical.EscapedExactly` | Tools/NGIN.CLI/src/Canonical.cpp:13-42 | which text a string is written as: two characters for a quotation mark, a backslash and five control characters, six with lower-case digits for the other control characters, and every other character itself |
| `Canonical.DigestInputText` | Tools/NGIN.CLI/src/Canonical.cpp:100-104 | the digest input is the object of the kind and the fields, under these two keys |
| `Decimal.PrintIsShortest` | Tools/NGIN.CLI/src/Canonical.cpp:57-60 | a number is printed without leading zeros |
| `Decimal.ShortestIsPrint` | Tools/NGIN.CLI/src/Canonical.cpp:57-60 | a numeral without leading zeros is the printed form of its value |
| `Sha256.Pad` | Tools/NGIN.CLI/src/Canonical.cpp:120-125 | the padding loops build message, marker, zeros and length |
| `Sha256.PaddingIsStandard` | Tools/NGIN.CLI/src/Canonical.cpp:120-125 | for every message under 2^61 bytes the padded bytes are, bit for bit, the padded message of section 5.1.1 of FIPS 180-4 |
| `Sha256.ZeroBits` | Tools/NGIN.CLI/src/Canonical.cpp:122-123 | the number of zero bits is the least that leaves room for the length in a 512-bit block |
| `Sha256.PaddingRecoverable` | Tools/NGIN.CLI/src/Canonical.cpp:120-125 | the message can be read off its padded form, whatever its length |
| `Sha256.ExtendWords` | Tools/NGIN.CLI/src/Canonical.cpp:140-147 | the in-place loop fills the array with the message schedule of section 6.2.2 |
| `Sha256.RunRounds` | Tools/NGIN.CLI/src/Canonical.cpp:148-159 | the loop over the working variables computes the 64 rounds |
| `Sha256.RunRound` | Tools/NGIN.CLI/src/Canonical.cpp:151-158 | one round on eight variables that shift into each other is the round of the standard |
| `Sha256.PackedIsWordOf` | Tools/NGIN.CLI/src/Canonical.cpp:132-139 | four shifted bytes make the word their 32 bits write |
| `Sha256.BlocksAgree` | Tools/NGIN.CLI/src/Canonical.cpp:129-139 | the blocks cut from the bytes are those cut from the bits |
| `Sha256.Sha256Fingerprint` | Tools/NGIN.CLI/src/Canonical.cpp:106-167 | for every message under 2^61 bytes the result spells the FIPS 180-4 digest: the algorithm's name and the eight words in order, in lower-case hexadecimal |
| `Sha256.DigestIsStandard` | Tools/NGIN.CLI/src/Canonical.cpp:106-167 | byte-wise hashing of the padded message is hashing of the message's bits |
| `HashConstants.ConstantsAreCubeRoots` | Tools/NGIN.CLI/src/Canonical.cpp:108-119 | round constant t holds the first 32 fractional bits of the cube root of the t-th prime (section 4.2.2 of FIPS 180-4) |
| `HashConstants.InitialStateIsSquareRoots` | Tools/NGIN.CLI/src/Canonical.cpp:127-128 | the initial state holds those of the square roots of the first eight primes (section 5.3.3 of FIPS 180-4) |
| `HashConstants.FirstPrimes` | Tools/NGIN.CLI/src/Canonical.cpp:108-128 | the primes meant are the first 64: each entry is a prime and the smaller primes are exactly the entries before it |
| `Sha256.FingerprintInjective` | Tools/NGIN.CLI/src/Canonical.cpp:163-166 | different digests print differently |
| `Sha256.HexWordReads` | Tools/NGIN.CLI/src/Canonical.cpp:165 | a word prints as eight hexadecimal digits with its value |
| `Sha256.FingerprintSpells` | Tools/NGIN.CLI/src/Canonical.cpp:163-167 | behind the algorithm's name stand the state's eight words in order, each as eight lower-case hexadecimal digits |
| `Sha256Sample.AbcDigest` | Tools/NGIN.CLI/tests/DependencyLockTests.cpp:52-56 | the digest of "abc" is the one the tests expect, through the whole schedule and all 64 rounds |
| `CMakeAdapter.SortPackagesDependencyFirst` | Tools/NGIN.CLI/src/CMakeAdapter.cpp:55-96 | true exactly when package names are distinct and the requirements have no cycle; the result is then a permutation of the packages in the lexicographically least dependency-first order |
| `CMakeAdapter.CountRequirements` | Tools/NGIN.CLI/src/CMakeAdapter.cpp:59-78 | the edge loop counts each distinct requirement between representatives once |
| `DependencyCounts.Release` | Tools/NGIN.CLI/src/CMakeAdapter.cpp:90-91 | the decrement loop lowers exactly the dependents' counters and readies those that reach zero |
| `CMakeAdapter.GreedyIsLeast` | Tools/NGIN.CLI/src/CMakeAdapter.cpp:80-92 | always taking the least ready package gives the least of all dependency-first orders |
| `CMakeAdapter.StuckMeansCycle` | Tools/NGIN.CLI/src/CMakeAdapter.cpp:93 | packages left over when nothing is ready contain a cycle |
| `CMakeAdapter.OrderedIsAcyclic` | Tools/NGIN.CLI/src/CMakeAdapter.cpp:93-95 | an order that puts dependencies first exists only without cycles |
| `CMakeAdapter.OrderIndependent` | Tools/NGIN.CLI/src/CMakeAdapter.cpp:55-96 | neither whether sorting succeeds nor its result depends on the order of the packages or of the edges |
| `CMakeAdapter.RequirementsMean` | Tools/NGIN.CLI/src/CMakeAdapter.cpp:67-78 | which pairs count: an edge of kind PackageRequirement between different representatives that are both packages, from the dependent to its dependency |
| `CMakeAdapter.SortedFirstMeans` | Tools/NGIN.CLI/src/CMakeAdapter.cpp:55-96 | sorting succeeds exactly when names are distinct and some order has the end of every such edge before its start; the result is the first of those orders |
| `Lexical.LessExactly` | Tools/NGIN.CLI/src/CMakeAdapter.cpp:60-92 | the order of names: the first difference decides, and a prefix comes first |
| `SourceCollapse.CollapseSources` | Tools/NGIN.CLI/src/CMakeAdapter.cpp:225-274 | the binding loop computes the representatives, the plans and the two diagnostics |
| `SourceCollapse.CollapseMeans` | Tools/NGIN.CLI/src/CMakeAdapter.cpp:225-274 | without diagnostics two bindings share a representative exactly when they share a non-empty source, representatives represent themselves, and the plans are exactly the representatives |
| `SourceCollapse.CacheSignatureExact` | Tools/NGIN.CLI/src/CMakeAdapter.cpp:98-105 | signatures agree exactly when the cache inputs do |
| `SourceCollapse.CacheValueIs` | Tools/NGIN.CLI/src/CMakeAdapter.cpp:98-105 | the four entries a cache input contributes, in order |
| `SourceCollapse.DiagnosticsSay` | Tools/NGIN.CLI/src/CMakeAdapter.cpp:225-274 | a binding is reported exactly when an earlier one has its instance, or the first one with its source has another cache |
| `CommandLine.SplitCommand` | Packages/NGIN.Reflection.MetaGen/src/MetaGenPreprocessor.cpp:80-116 | the quote-flag loop computes the arguments of the command |
| `CommandLine.ShellQuote` | Packages/NGIN.Reflection.MetaGen/src/MetaGenPreprocessor.cpp:227-242 | builds the single-quoted form of section 2.2.2 of the POSIX.1-2017 Shell Command Language |
| `CommandLine.ResponseQuote` | Packages/NGIN.Reflection.MetaGen/src/MetaGenPreprocessor.cpp:203-225 | builds the double-quoted form with its doubled backslashes |
| `CommandLine.SplitUndoesShell` | Packages/NGIN.Reflection.MetaGen/src/MetaGenPreprocessor.cpp:80-116 | splitting the joined shell forms gives back the non-empty arguments, hence all of them exactly when none is empty |
| `CommandLine.SplitUndoesResponse` | Packages/NGIN.Reflection.MetaGen/src/MetaGenPreprocessor.cpp:80-116 | splitting the joined response forms gives back the arguments exactly when none is empty and no backslash stands before a quote, an apostrophe, a blank or an argument's end |
| `CommandLine.NoEmptyWords` | Packages/NGIN.Reflection.MetaGen/src/MetaGenPreprocessor.cpp:104-113 | the splitter never yields an empty argument |
| `CommandWords.SplitGivesArguments` | Packages/NGIN.Reflection.MetaGen/src/MetaGenPreprocessor.cpp:80-116 | a command whose words are made of plain characters, quotations and escapes, in any mixture, is split into the words' values at the blanks outside quotations; empty ones are dropped |
| `CommandWords.EveryCommand` | Packages/NGIN.Reflection.MetaGen/src/MetaGenPreprocessor.cpp:80-116 | every text is such a command, also one that ends inside a quotation or with a backslash |
| `QuotingLaws.ShellExactly` | Packages/NGIN.Reflection.MetaGen/src/MetaGenPreprocessor.cpp:227-242 | only a single quote is escaped, by ending the quotation and beginning it again |
| `QuotingLaws.ResponseReadsBack` | Packages/NGIN.Reflection.MetaGen/src/MetaGenPreprocessor.cpp:203-225 | every argument, safe or not, is recovered by the rule that backslashes count only in front of a quotation mark |
| `Tokenizer.EscapeCppString` | Packages/NGIN.Reflection.MetaGen/src/MetaGenCommon.cpp:74-100 | builds the escaped string |
| `Tokenizer.DecodeStringLiteral` | Packages/NGIN.Reflection.MetaGen/src/MetaGenScanner.cpp:85-121 | the loop decodes the characters between the quotes |
| `Tokenizer.UnescapedEscaped` | Packages/NGIN.Reflection.MetaGen/src/MetaGenScanner.cpp:85-121 | decoding undoes escaping for every string |
| `Tokenizer.TokenizeLine` | Packages/NGIN.Reflection.MetaGen/src/MetaGenScanner.cpp:158-225 | the line loop appends exactly the tokens of the line |
| `Tokenizer.TokensTile` | Packages/NGIN.Reflection.MetaGen/src/MetaGenScanner.cpp:158-225 | on every line the tokens are exact, ordered, disjoint slices at their columns, and everything between them is blank |
| `Tokenizer.LongestPunctuation` | Packages/NGIN.Reflection.MetaGen/src/MetaGenScanner.cpp:207-214 | the first punctuation that fits is the longest that fits |
| `Tokenizer.QuotedIsOneToken` | Packages/NGIN.Reflection.MetaGen/src/MetaGenScanner.cpp:194-205 | wherever a quoted, escaped string stands it is one string token with the string as its value |
| `Tokenizer.QuotedAlone` | Packages/NGIN.Reflection.MetaGen/src/MetaGenScanner.cpp:158-225 | a line that is one quoted, escaped string tokenizes to exactly one string token whose value is the string |
| `TokenLaws.TokenExactly` | Packages/NGIN.Reflection.MetaGen/src/MetaGenScanner.cpp:158-225 | which token starts at a character, where it ends, and its kind: the longest run of name or number characters, a literal, or punctuation |
| `TokenLaws.ValueExactly` | Packages/NGIN.Reflection.MetaGen/src/MetaGenScanner.cpp:219-222 | a string token's value is what stands between its quotes, decoded |
| `TokenLaws.LiteralEndsExactly` | Packages/NGIN.Reflection.MetaGen/src/MetaGenScanner.cpp:194-205 | a literal ends behind its first quote with an even number of backslashes before it, or with the line |
| `TokenLaws.PunctuationExactly` | Packages/NGIN.Reflection.MetaGen/src/MetaGenScanner.cpp:160-218 | the two entries of three characters come first, then the listed pairs, then single characters |
| `TokenLaws.TokensAreAt` | Packages/NGIN.Reflection.MetaGen/src/MetaGenScanner.cpp:168-225 | every token of a line is the one at its column |
| `TokenLaws.UnescapedExactly` | Packages/NGIN.Reflection.MetaGen/src/MetaGenScanner.cpp:85-121 | n, r and t behind a backslash mean control characters, every other character means itself |
| `TokenLaws.EscapedExactly` | Packages/NGIN.Reflection.MetaGen/src/MetaGenCommon.cpp:74-100 | five characters are escaped, and no other |
| `LineMarkers.MarkerRead` | Packages/NGIN.Reflection.MetaGen/src/MetaGenScanner.cpp:123-156 | the marker of any line number below 2^64 and any file name, with anything behind it, sets that line and that file; the name is read back exactly when it contains no quotation mark |
| `MarkerForm.MarkerExactly` | Packages/NGIN.Reflection.MetaGen/src/MetaGenScanner.cpp:123-156 | a line is a marker exactly when it has this form: a hash mark, perhaps `line`, digits below 2^64 and a name in quotation marks, with blanks between; it marks that line of that file |
| `SourceTokens.Tokenize` | Packages/NGIN.Reflection.MetaGen/src/MetaGenScanner.cpp:227-248 | the tokens of a source are those of its lines, each read at the line's own location |
| `SourceTokens.LinesJoin` | Packages/NGIN.Reflection.MetaGen/src/MetaGenScanner.cpp:234-246 | cutting into lines loses nothing |
| `SourceTokens.LineNumbers` | Packages/NGIN.Reflection.MetaGen/src/MetaGenScanner.cpp:151-155 | after a marker the lines are numbered from the marker's number on, in its file |
| `SourceTokens.FirstNumbers` | Packages/NGIN.Reflection.MetaGen/src/MetaGenScanner.cpp:227-248 | before the first marker the lines are numbered from the start |
| `SourceTokens.OneMoreLine` | Packages/NGIN.Reflection.MetaGen/src/MetaGenScanner.cpp:234-246 | a line adds its tokens where it stands; a marker adds none |
| `TokenRanges.FindMatching` | Packages/NGIN.Reflection.MetaGen/src/MetaGenScanner.cpp:250-264 | the first position where the bracket is closed, or the limit; the depth never underflows |
| `TokenRanges.FindTemplateEnd` | Packages/NGIN.Reflection.MetaGen/src/MetaGenScanner.cpp:1336-1348 | the end of a template parameter list; the depth never underflows |
| `TokenRanges.AnnotationExactly` | Packages/NGIN.Reflection.MetaGen/src/MetaGenScanner.cpp:406-435 | an annotation is recognised exactly where its tokens stand |
| `TokenRanges.AnnotationSequenceAt` | Packages/NGIN.Reflection.MetaGen/src/MetaGenScanner.cpp:1168-1183 | collects the annotations that stand one after another |
| `RangeLaws.DepthCounts` | Packages/NGIN.Reflection.MetaGen/src/MetaGenScanner.cpp:250-264 | the depth is the number of opening tokens less that of closing ones |
| `RangeLaws.AngleCounts` | Packages/NGIN.Reflection.MetaGen/src/MetaGenScanner.cpp:1336-1348 | the depth of a template list that stays open, where a shift-right token closes two |
| `RangeLaws.AnnotationSays` | Packages/NGIN.Reflection.MetaGen/src/MetaGenScanner.cpp:406-435 | what an annotation says: its kind in lower case, its place, and what the first string between the parentheses says |
| `RangeLaws.SequenceAre` | Packages/NGIN.Reflection.MetaGen/src/MetaGenScanner.cpp:1168-1183 | the annotations of a sequence stand one behind the other, and behind the last there is none |
| `RangeLaws.OptionsExactly` | Packages/NGIN.Reflection.MetaGen/src/MetaGenScanner.cpp:484-507 | an option that is missing or empty has its fallback; one that is given is on unless it says false, 0 or off in any case |
| `ScopeWalk.WalkIsLaminar` | Packages/NGIN.Reflection.MetaGen/src/MetaGenScanner.cpp:1221-1399 | everything a walk sees lies in its range and its scope, and bodies are nested or disjoint in the order they open |
| `ScanLaws.SeenIsDefined` | Packages/NGIN.Reflection.MetaGen/src/MetaGenScanner.cpp:1221-1327 | whatever a walk sees is a definition: a keyword, a name, no brace or semicolon up to the body, and the body with its matching brace |
| `ScanLaws.DefinitionIsSeen` | Packages/NGIN.Reflection.MetaGen/src/MetaGenScanner.cpp:1221-1327 | a definition that the walk comes to is seen, with the annotations around its keyword, and what is inside it under its name |
| `ScanLaws.AtKeyword` | Packages/NGIN.Reflection.MetaGen/src/MetaGenScanner.cpp:1383-1391 | at a type keyword the walk sees what the type gives and goes on behind it |
| `ScanLaws.NamespaceIsSeen` | Packages/NGIN.Reflection.MetaGen/src/MetaGenScanner.cpp:1359-1382 | `namespace`, a name of identifiers and scope marks, and a body opens a namespace of that name |
| `ScanLaws.AtNamespace` | Packages/NGIN.Reflection.MetaGen/src/MetaGenScanner.cpp:1359-1382 | what is inside a namespace is seen under its name, what is behind it under the same scope |
| `ScanLaws.AtTemplate` | Packages/NGIN.Reflection.MetaGen/src/MetaGenScanner.cpp:1334-1352 | a template's parameter list is passed over, and what follows counts as a template |
| `ScanLaws.AtOther` | Packages/NGIN.Reflection.MetaGen/src/MetaGenScanner.cpp:1353-1397 | an annotation waits for the definition behind it; a semicolon or a closing brace lets what waits go; other tokens are passed by |
| `ScanLaws.QualifiedIs` | Packages/NGIN.Reflection.MetaGen/src/MetaGenScanner.cpp:1257 | a name in a scope stands behind the scope and two colons |
| `ScanLaws.InnerNames` | Packages/NGIN.Reflection.MetaGen/src/MetaGenScanner.cpp:1221-1327 | a type inside another's body has its name in the other's scope |
| `ScanLaws.TemplateReach` | Packages/NGIN.Reflection.MetaGen/src/MetaGenScanner.cpp:1259-1271 | a type counts as a template exactly when `template` stands at most 256 tokens before it, with no semicolon, brace or other `template` between |
| `ScanLaws.TemplateStopped` | Packages/NGIN.Reflection.MetaGen/src/MetaGenScanner.cpp:1264-1266 | a semicolon or a brace between ends the search for `template` |
| `ScanLaws.ReflectsExactly` | Packages/NGIN.Reflection.MetaGen/src/MetaGenScanner.cpp:1258-1281 | a definition is reflected exactly when its first `reflect` annotation stands in an owned file, it is no template, and no annotation says `ignore` |
| `ScanLaws.TypeSays` | Packages/NGIN.Reflection.MetaGen/src/MetaGenScanner.cpp:1280-1323 | what a reflected type takes from its definition and its annotation |
| `ScanLaws.SightingSays` | Packages/NGIN.Reflection.MetaGen/src/MetaGenScanner.cpp:1258-1323 | what is reported of a definition: an open template, a name that is taken, and then what its body gives rise to |
| `ScanLaws.BodySays` | Packages/NGIN.Reflection.MetaGen/src/MetaGenScanner.cpp:1062-1134 | which bodies are read, and what is reported of one: its declarations in order, and then the type, unless a brace is open |
| `MetaGenScanner.Scanner.WalkScope` | Packages/NGIN.Reflection.MetaGen/src/MetaGenScanner.cpp:1329-1399 | terminates on every token range, balanced or not, and adds exactly the types of the definitions the walk sees |
| `MetaGenScanner.Scanner.ParseTypeAt` | Packages/NGIN.Reflection.MetaGen/src/MetaGenScanner.cpp:1221-1327 | adds exactly the types defined at a keyword and inside it, and returns where the walk goes on |
| `MetaGenScanner.Scanner.LookBehind` | Packages/NGIN.Reflection.MetaGen/src/MetaGenScanner.cpp:1259-1271 | whether the keyword follows `template` in the same declaration within 256 tokens |
| `MetaGenScanner.Scanner.FindMemberEnd` | Packages/NGIN.Reflection.MetaGen/src/MetaGenScanner.cpp:1080-1128 | where a member declaration ends, on balanced and unbalanced bodies |
| `RecordMembers.MembersInOrder` | Packages/NGIN.Reflection.MetaGen/src/MetaGenScanner.cpp:1062-1134 | the member declarations of a body are disjoint, in order and inside the body |
| `MetaGenScanner.Scanner.ParseRecordMembers` | Packages/NGIN.Reflection.MetaGen/src/MetaGenScanner.cpp:1062-1134 | reads the declarations one by one under the access in force, then validates unless a brace is left open |
| `MemberLaws.MemberEndsExactly` | Packages/NGIN.Reflection.MetaGen/src/MetaGenScanner.cpp:1080-1128 | a declaration ends at the first brace or semicolon outside all its brackets; which one, and where the next begins |
| `BodyMembers.MembersUnderLabels` | Packages/NGIN.Reflection.MetaGen/src/MetaGenScanner.cpp:1065-1078 | each declaration is read under the access of the nearest label before it, or else the type's default |
| `BodyMembers.ReadMembersGains` | Packages/NGIN.Reflection.MetaGen/src/MetaGenScanner.cpp:838-990 | the type has exactly the fields, methods and constructors declared, in order and under their access, and a generated body exactly if one was declared |
| `Reflection.RecordDeclares` | Packages/NGIN.Reflection.MetaGen/src/MetaGenScanner.cpp:1062-1134 | a reflected record has exactly the members its body declares, under the access of its labels, by default private in a class and public in a struct |
| `Reflection.ReflectedFrom` | Packages/NGIN.Reflection.MetaGen/src/MetaGenScanner.cpp:1219-1399 | the reflected types are exactly those of the definitions that are reflected |
| `RecordMembers.ReadBodyKeeps` | Packages/NGIN.Reflection.MetaGen/src/MetaGenScanner.cpp:1062-1134 | reading a body changes only members, and reports nothing only for a valid type |
| `MetaGenScanner.Scanner.AddPropertyMethod` | Packages/NGIN.Reflection.MetaGen/src/MetaGenScanner.cpp:791-835 | the exact merged property or the exact diagnostic |
| `RecordMembers.WithAccessorKeeps` | Packages/NGIN.Reflection.MetaGen/src/MetaGenScanner.cpp:814-834 | property names stay unique and every slot holds an accessor of its shape and name |
| `RecordMembers.WithAccessorFills` | Packages/NGIN.Reflection.MetaGen/src/MetaGenScanner.cpp:814-834 | an accepted accessor fills its own slot, which was empty, and no other |
| `MemberLaws.AccessorRefused` | Packages/NGIN.Reflection.MetaGen/src/MetaGenScanner.cpp:791-831 | why an accessor is refused, if it is: its shape, or a slot that is taken |
| `MemberLaws.AttributesMerged` | Packages/NGIN.Reflection.MetaGen/src/MetaGenScanner.cpp:787-789 | a property's own attributes win over those of an accessor merged in |
| `MemberLaws.DeclarationSays` | Packages/NGIN.Reflection.MetaGen/src/MetaGenScanner.cpp:838-990 | what is reported of one declaration: its own problems, then why it is refused as an accessor, then as a method |
| `MetaGenScanner.Scanner.ValidateType` | Packages/NGIN.Reflection.MetaGen/src/MetaGenScanner.cpp:992-1060 | reports exactly the problems of the type, in order |
| `ReflectedTypes.ValidationExact` | Packages/NGIN.Reflection.MetaGen/src/MetaGenScanner.cpp:992-1060 | validation reports nothing exactly for types whose fields have unique names, whose properties have agreeing getters and setters, and whose non-public members have a generated body |
| `ReflectedTypes.NoDuplicateProperty` | Packages/NGIN.Reflection.MetaGen/src/MetaGenScanner.cpp:1052-1059 | the duplicate-property report never fires on merged properties |
| `MemberLaws.ValidationSays` | Packages/NGIN.Reflection.MetaGen/src/MetaGenScanner.cpp:992-1060 | each report of a type says what is wrong with it, and everything that is wrong is reported |
| `MemberLaws.ValidationInOrder` | Packages/NGIN.Reflection.MetaGen/src/MetaGenScanner.cpp:992-1060 | fields' access is reported before methods', then properties, then names |
| `MemberLaws.StrippedExactly` | Packages/NGIN.Reflection.MetaGen/src/MetaGenScanner.cpp:675-688 | types are compared without qualifiers in front and references behind |
| `MetaGenScanner.PushType` | Packages/NGIN.Reflection.MetaGen/src/MetaGenScanner.cpp:1280-1323 | adding a type keeps names, ownership and diagnostics in agreement |
| `MetaGenScanner.Scanner.Scan` | Packages/NGIN.Reflection.MetaGen/src/MetaGenScanner.cpp:1430-1447 | a whole scan: the types are those of the walk in an order by file and line, the diagnostics are the reports of its definitions one after the other, names are distinct exactly when no duplicate is reported, every type is owned, properties are merged by name, and without diagnostics every type is valid |
| `Reflection.SilentExactly` | Packages/NGIN.Reflection.MetaGen/src/MetaGenScanner.cpp:1062-1327 | a scan reports nothing exactly when no open template asks for reflection, every body that is read is balanced, read without a report and gives a valid type, and the names are distinct |
| `Reflection.ReportsJoin` | Packages/NGIN.Reflection.MetaGen/src/MetaGenScanner.cpp:1219-1399 | the reports of two parts of a walk follow each other, the second knowing the names of the first |
| `TypeOrder.SortingKeeps` | Packages/NGIN.Reflection.MetaGen/src/MetaGenScanner.cpp:1440-1447 | every order the sort may give keeps the types and whether their names are distinct |
| `TypeOrder.SortedExists` | Packages/NGIN.Reflection.MetaGen/src/MetaGenScanner.cpp:1440-1447 | the comparison admits such an order for every list of types |
| `TypeOrder.OrderedExactly` | Packages/NGIN.Reflection.MetaGen/src/MetaGenScanner.cpp:1440-1447 | within a file the earlier line comes first, and files by the first difference of their keys |
| `LifeRules.EvolveCell` | Examples/Hello.GameOfLife/src/LifeSimulation.cpp:231-253 | the next state by wrapped indexes is that of the rule on the torus |
| `LifeRules.CountNeighbors` | Examples/Hello.GameOfLife/src/LifeSimulation.cpp:236-248 | the sum over eight wrapped indexes counts the modular neighbours and fits a byte |
| `LifeRules.GenerationIsSynchronous` | Examples/Hello.GameOfLife/src/LifeSimulation.cpp:231-281 | one generation changes living cells as the rule says, all at once |
| `LifeLaws.NeighborsTouch` | Examples/Hello.GameOfLife/src/LifeSimulation.cpp:236-248 | the neighbours counted are the living cells among the eight that touch the cell around the torus |
| `LifeLaws.LivesNext` | Examples/Hello.GameOfLife/src/LifeSimulation.cpp:231-265 | a cell lives next exactly with three living cells around it, with two if it lives, or with six under HighLife if it does not |
| `LifeLaws.AgeCounts` | Examples/Hello.GameOfLife/src/LifeSimulation.cpp:255-265 | a cell that lives on counts its generations up to 65535 and shows no trail |
| `LifeLaws.TrailFades` | Examples/Hello.GameOfLife/src/LifeSimulation.cpp:264-271 | a dying cell's trail starts at 18 and loses one each further generation |
| `GliderFleet.GlidersGlide` | Examples/Hello.GameOfLife/src/LifeSimulation.cpp:191-265 | from the fleet as it is loaded, 4n generations move every glider n cells to the right and n down around the torus, under either rule |
| `LifeCommit.AdvanceKeeps` | Examples/Hello.GameOfLife/src/LifeSimulation.cpp:255-281 | after any step of any cell's commit the shared state is explained by the steps made so far; the atomic counter neither underflows nor overflows |
| `LifeCommit.CommitIsSynchronous` | Examples/Hello.GameOfLife/src/LifeSimulation.cpp:255-281 | a finished commit is the synchronous one, in any order of steps |
| `LifeCommit.Confluence` | Examples/Hello.GameOfLife/src/LifeSimulation.cpp:255-285 | any two complete schedules of a commit end in the same cells, board and population |
| `LifeLaws.CountIsSize` | Examples/Hello.GameOfLife/src/LifeSimulation.cpp:272-279 | the population counter's value is the number of living cells |
| `LifeSimulation.LifeSimulation.Evolve` | Examples/Hello.GameOfLife/src/LifeSimulation.cpp:231-253 | evolving the cells in any order writes the next state of every cell |
| `LifeSimulation.LifeSimulation.CommitAll` | Examples/Hello.GameOfLife/src/LifeSimulation.cpp:255-285 | committing in place under any interleaving is one generation and keeps snapshot and population exact |
| `LifeSimulation.LifeSimulation.StepGenerations` | Examples/Hello.GameOfLife/src/LifeSimulation.cpp:134-146 | the fixed steps run are that many generations, and snapshot, population and picture agree with the cells afterwards |
| `LifeSimulation.LifeSimulation.SetCell` | Examples/Hello.GameOfLife/src/LifeSimulation.cpp:148-166 | sets at most one cell and keeps snapshot, population and picture exact |
| `LifeSimulation.LifeSimulation.RefreshPresentation` | Examples/Hello.GameOfLife/src/LifeSimulation.cpp:299-311 | rebuilds snapshot, population and picture from the cells |
| `LifeSimulation.LifeSimulation.Clear` | Examples/Hello.GameOfLife/src/LifeSimulation.cpp:172-177 | leaves every cell dead, no trail, population and generation zero |
| `LifeSimulation.LifeSimulation.Randomize` | Examples/Hello.GameOfLife/src/LifeSimulation.cpp:179-189 | makes exactly the drawn cells live |
| `LifeSimulation.LifeSimulation.LoadGliderFleet` | Examples/Hello.GameOfLife/src/LifeSimulation.cpp:191-204 | makes exactly the five cells of a glider in each 32 by 32 square live |
| `LifeSimulation.LifeSimulation.LoadMethuselahField` | Examples/Hello.GameOfLife/src/LifeSimulation.cpp:206-219 | makes exactly the seven cells of an acorn in each 64 by 64 square live |
| `LifePatterns.CopyCell` | Examples/Hello.GameOfLife/src/LifeSimulation.cpp:193-200 | every cell of every copy lies on the board and belongs to that copy only |
| `LifePixels.WritePixel` | Examples/Hello.GameOfLife/src/LifeSimulation.cpp:13-32 | writes the four bytes of one pixel and no other |
| `LifePixels.PixelExact` | Examples/Hello.GameOfLife/src/LifeSimulation.cpp:13-32 | no colour channel leaves a byte exactly while a dead cell's trail is at most 44 |
| `LifeLaws.AgeColours` | Examples/Hello.GameOfLife/src/LifeSimulation.cpp:15-22 | the colour of a young cell and how it changes with age up to 48 |
| `LifeLaws.TrailColours` | Examples/Hello.GameOfLife/src/LifeSimulation.cpp:23-30 | the colour of a trail and how it darkens to the background |
| `LifeSimulation.GenerationKeepsCells` | Examples/Hello.GameOfLife/src/LifeSimulation.cpp:255-271 | trails stay at most 18 and live cells have none |
| `TextureLayout.CheckUpdate` | Packages/NGIN.UI.Backend.SDL3/src/SDLGpuRenderBackend.cpp:154-189 | the guards, in wrapping 32- and 64-bit arithmetic, accept exactly the updates that fit |
| `TextureLayout.RowOffsets` | Packages/NGIN.UI.Backend.SDL3/src/SDLGpuRenderBackend.cpp:191-196 | no offset computation wraps |
| `TextureLayout.CopyRegion` | Packages/NGIN.UI.Backend.SDL3/src/SDLGpuRenderBackend.cpp:190-202 | an accepted update rewrites exactly the target rectangle with the strided rows |
| `TextureLayout.RowBytes` | Packages/NGIN.UI.Backend.SDL3/src/SDLGpuRenderBackend.cpp:190-202 | each destination range holds exactly the bytes of its pixel row |
| `TextureLayout.SizesFit` | Packages/NGIN.UI.Backend.SDL3/src/SDLGpuRenderBackend.cpp:135-137 | texture sizes fit 64 bits for dimensions up to 2^31-1 |
| `TextureLaws.AcceptedExactly` | Packages/NGIN.UI.Backend.SDL3/src/SDLGpuRenderBackend.cpp:154-189 | an update is accepted exactly when its rectangle is not empty and every byte of it has a place in the texture and in the span |
| `TextureLaws.UpdatedPixels` | Packages/NGIN.UI.Backend.SDL3/src/SDLGpuRenderBackend.cpp:190-202 | each channel of each pixel in the rectangle comes from its row and column of the span, and every other stays |
| `RenderBackend.RenderBackend.CreateTexture` | Packages/NGIN.UI.Backend.SDL3/src/SDLGpuRenderBackend.cpp:123-149 | the exact new store and result, the index counter included |
| `RenderBackend.RenderBackend.UpdateTexture` | Packages/NGIN.UI.Backend.SDL3/src/SDLGpuRenderBackend.cpp:151-205 | rewrites the buffer in place and raises the revision, or changes nothing |
| `RenderBackend.RenderBackend.DestroyTexture` | Packages/NGIN.UI.Backend.SDL3/src/SDLGpuRenderBackend.cpp:207-224 | the texture is dead and leaves every surface's cache |
| `TextureLaws.CreatedExactly` | Packages/NGIN.UI.Backend.SDL3/src/SDLGpuRenderBackend.cpp:123-149 | which creation fails and how; a new texture begins black with revision 1, and every other stays |
| `TextureLaws.UpdatedExactly` | Packages/NGIN.UI.Backend.SDL3/src/SDLGpuRenderBackend.cpp:151-205 | which update fails; only that texture's bytes and revision change |
| `TextureLaws.DestroyedExactly` | Packages/NGIN.UI.Backend.SDL3/src/SDLGpuRenderBackend.cpp:207-224 | neither the texture nor any surface's entry for it is left, and everything else is |
| `TextureLaws.SurfacesExactly` | Packages/NGIN.UI.Backend.SDL3/src/SDLGpuRenderBackend.cpp:65-109 | a new surface knows no texture, a destroyed one is unknown and knows none |
| `RenderBackend.RenderBackend.SynchronizeTexture` | Packages/NGIN.UI.Backend.SDL3/src/SDLGpuRenderBackend.cpp:381-437 | the exact cache entry and result for every outcome of the SDL calls |
| `TextureLaws.SynchronizedExactly` | Packages/NGIN.UI.Backend.SDL3/src/SDLGpuRenderBackend.cpp:381-437 | only one entry of one surface changes; which error is reported |
| `TextureLaws.EntryExactly` | Packages/NGIN.UI.Backend.SDL3/src/SDLGpuRenderBackend.cpp:381-437 | synchronising succeeds exactly when the calls it has to make succeed; what the entry holds and carries then, and otherwise |
| `TextureLaws.EncodedBytes` | Packages/NGIN.UI.Backend.SDL3/src/SDLGpuRenderBackend.cpp:413-421 | an upload's pixels are the bytes themselves, or each byte four times for one-channel textures |
| `RenderBackend.RenderBackend.Render` | Packages/NGIN.UI.Backend.SDL3/src/SDLGpuRenderBackend.cpp:226-322 | updates first, then the batches in order, stopping at the first failure |
| `TextureLaws.RenderExactly` | Packages/NGIN.UI.Backend.SDL3/src/SDLGpuRenderBackend.cpp:226-322 | a packet is rendered only if its surface is known, its updates are accepted and its batches are in range with known textures, and then always unless a call about a texture fails |
| `TextureLaws.RenderErrors` | Packages/NGIN.UI.Backend.SDL3/src/SDLGpuRenderBackend.cpp:226-322 | a refused update is an invalid argument, everything else a failed rendering or resource |
| `RenderBackend.ExpandChannels` | Packages/NGIN.UI.Backend.SDL3/src/SDLGpuRenderBackend.cpp:414-421 | one-channel bytes become four equal channels |
| `TextureCache.SynchronizeKeeps` | Packages/NGIN.UI.Backend.SDL3/src/SDLGpuRenderBackend.cpp:381-437 | synchronising keeps the caches coherent whatever fails; a failed one leaves the entry marked stale; a successful one yields the texture's pixels wherever the pitch is right |
| `TextureCache.FirstUploadExactly` | Packages/NGIN.UI.Backend.SDL3/src/SDLGpuRenderBackend.cpp:203-412 | from any coherent state, a surface that has nothing of a texture gets its pixels after an accepted update exactly when the revision does not wrap |
| `TextureCache.TakenAsCurrentExactly` | Packages/NGIN.UI.Backend.SDL3/src/SDLGpuRenderBackend.cpp:203-412 | after updates without a synchronisation in between, an entry that was current is taken as current again exactly when the updates of its texture number a multiple of 2^64 |
| `TextureCache.PitchExact` | Packages/NGIN.UI.Backend.SDL3/src/SDLGpuRenderBackend.cpp:424-430 | the row pitch handed to SDL is right exactly for textures narrower than 2^29 pixels |
| `TextureCache.UploadedExact` | Packages/NGIN.UI.Backend.SDL3/src/SDLGpuRenderBackend.cpp:413-430 | whatever SDL makes of a wrong pitch, an upload leaves the encoding of the bytes exactly for those widths |
| `TextureCache.RenderUsesUpdates` | Packages/NGIN.UI.Backend.SDL3/src/SDLGpuRenderBackend.cpp:226-322 | each textured batch of a successful render draws its texture as it is after all of the packet's updates |
| `TextureCache.EntriesHoldPixels` | Packages/NGIN.UI.Backend.SDL3/src/SDLGpuRenderBackend.cpp:123-437 | in every state reached from an empty backend with fewer than 2^64 - 1 updates, a cache entry with its texture's revision holds exactly the encoding of that texture's bytes, for textures narrower than 2^29 pixels |
| `TextureCache.FreshIndexExactly` | Packages/NGIN.UI.Backend.SDL3/src/SDLGpuRenderBackend.cpp:138-143 | a handle names a texture of its own exactly while the counter's next index is unused |
| `TextureCache.NeverReappears` | Packages/NGIN.UI.Backend.SDL3/src/SDLGpuRenderBackend.cpp:207-224 | a destroyed texture never becomes live again |
| `ActionOutputs.ValidateActionOutputCollisions` | Tools/NGIN.CLI/src/ActionModel.cpp:311-341 | reports every colliding pair of outputs of differently named actions, in order |
| `ActionOutputs.CollideExactly` | Tools/NGIN.CLI/src/ActionModel.cpp:63-66 | two outputs collide exactly when some path is claimed by both |
| `ActionOutputs.WithinExactly` | Tools/NGIN.CLI/src/ActionModel.cpp:63-66 | a path is within a directory exactly when its parts between slashes go on from the directory's |
| `ActionOutputs.CollisionsExactly` | Tools/NGIN.CLI/src/ActionModel.cpp:311-341 | nothing is reported exactly when differently named actions claim disjoint sets of paths |
| `ActionOutputs.ReportsAre` | Tools/NGIN.CLI/src/ActionModel.cpp:311-341 | one report for each clashing pair, the earlier output first, in the order of the later one |
| `ActionOutputs.ClashExactly` | Tools/NGIN.CLI/src/ActionModel.cpp:322-333 | outputs clash exactly when their actions' names differ and some path is claimed by both |
| `ActionOutputs.OwnersInOrder` | Tools/NGIN.CLI/src/ActionModel.cpp:311-338 | outputs are taken in the order of the actions and of their declarations |
| `ActionOutputs.ValidateObservedActionOutputs` | Tools/NGIN.CLI/src/ActionModel.cpp:343-368 | reports every undeclared and every missing output, in order |
| `ActionOutputs.ObservedExactly` | Tools/NGIN.CLI/src/ActionModel.cpp:343-368 | nothing is reported exactly when every observed path is claimed and every declared file was observed |
| `ActionOutputs.UndeclaredAre` | Tools/NGIN.CLI/src/ActionModel.cpp:343-358 | the observed paths that no output claims, in order |
| `ActionOutputs.MissingAre` | Tools/NGIN.CLI/src/ActionModel.cpp:359-367 | the declared files that were not observed, in order |
| `ActionOutputs.NoCommonOutput` | Tools/NGIN.CLI/src/ActionModel.cpp:311-368 | differently named actions that pass both checks never produced a common path |
| `AuthoredManifest.Parser.NamespaceDeclarations` | Tools/NGIN.CLI/src/AuthoredManifest.cpp:171-201 | the namespaces in scope, and one error for each unregistered one |
| `AuthoredManifest.Parser.ResolveNamespace` | Tools/NGIN.CLI/src/AuthoredManifest.cpp:203-229 | the namespace of a name, and an error exactly for unbound prefixes |
| `ManifestSchema.SplitExactly` | Tools/NGIN.CLI/src/AuthoredManifest.cpp:70-79 | the first colon divides a name |
| `ManifestSchema.DeclaredExactly` | Tools/NGIN.CLI/src/AuthoredManifest.cpp:171-201 | a prefix means what its last declaration says, or else what it meant outside |
| `ManifestSchema.NamespaceExactly` | Tools/NGIN.CLI/src/AuthoredManifest.cpp:203-229 | the namespace of a name by its prefix: reserved, bound here, bound outside, or not at all; unprefixed attributes have none |
| `AuthoredManifest.Parser.ParseElement` | Tools/NGIN.CLI/src/AuthoredManifest.cpp:231-368 | the result is the element's image and the diagnostics are exactly its problems, code by code and in order |
| `ManifestProblems.NoProblems` | Tools/NGIN.CLI/src/AuthoredManifest.cpp:231-368 | an element has no problems exactly when it and everything below it obeys the schema |
| `ManifestProblems.CodesExactly` | Tools/NGIN.CLI/src/AuthoredManifest.cpp:245-364 | each code of an element's own problems says what is wrong, and everything that is wrong is said |
| `ManifestProblems.ChildCodes` | Tools/NGIN.CLI/src/AuthoredManifest.cpp:304-335 | what is said of a child: unbound prefix, not permitted here, its own problems, or nothing in a reserved namespace |
| `AuthoredManifest.ParseAuthoredManifestText` | Tools/NGIN.CLI/src/AuthoredManifest.cpp:454-536 | a value is yielded exactly when no error is recorded; it is then the image of a valid document and conforms to the schema; an invalid document has exactly its problems as diagnostics, a valid one those of the semantic validators |
| `ManifestSchema.ImageConforms` | Tools/NGIN.CLI/src/AuthoredManifest.cpp:231-368 | the image of a valid element conforms to the schema at every node: known, admitted and required attributes, permitted children in bounds, text only where allowed |
| `ManifestWriter.WrittenIsItself` | Tools/NGIN.CLI/src/AuthoredManifest.cpp:231-368 | every tree that conforms to the schema, written as XML, is valid, and its image is itself |
| `ManifestWriter.EveryManifestIsParsed` | Tools/NGIN.CLI/src/AuthoredManifest.cpp:454-536 | every conforming tree of a root kind is a valid document, and the manifest parsed from it is that tree |
| `AuthoredManifest.NoDocumentProblems` | Tools/NGIN.CLI/src/AuthoredManifest.cpp:468-517 | a document has no problems exactly when it is valid |
| `AuthoredManifest.KindsOfRoots` | Tools/NGIN.CLI/src/AuthoredManifest.cpp:370-376 | which root names stand for which kind of document |
| `AuthoredManifest.RootNamespaceExactly` | Tools/NGIN.CLI/src/AuthoredManifest.cpp:468-484 | the namespace of a root by its prefix: its own last declaration for it, a reserved one, or none |
| `ManifestSchema.PassedOverExactly` | Tools/NGIN.CLI/src/AuthoredManifest.cpp:317-320 | a child is dropped without a report exactly when it lies in a namespace reserved by XML that is not registered |
| `ManifestSchema.FindChildFirst` | Tools/NGIN.CLI/src/ManifestSpec.cpp:672-684 | the search finds the first permitted child kind with a namespace and a name, and nothing exactly when none fits |
| `ScalarValues.SemanticVersionExactly` | Tools/NGIN.CLI/src/AuthoredManifest.cpp:126-131 | the recogniser accepts exactly the strings that split into three numerals and optional tags |
| `ScalarValues.VersionCompatibilityExactly` | Tools/NGIN.CLI/src/AuthoredManifest.cpp:132-137 | the recogniser accepts exactly the strings that split into a numeral, an optional second one and an optional tagged last one, so also two numerals with a tag |
| `ScalarValues.IntegerExactly` | Tools/NGIN.CLI/src/AuthoredManifest.cpp:120-125 | an integer is the numeral of a signed 64-bit number, perhaps behind zeros |
| `ScalarValues.AdmittedExactly` | Tools/NGIN.CLI/src/AuthoredManifest.cpp:103-140 | which values each kind admits |
| `CharacterClasses.TrimExactly` | Tools/NGIN.CLI/src/AuthoredManifest.cpp:81-90 | trimming takes away the blanks at both ends and nothing else |
| `CharacterClasses.ClassesSpelled` | Tools/NGIN.CLI/src/AuthoredManifest.cpp:81-118 | the character classes of the "C" locale by code |
| `VirtualizedSource.GalleryVirtualizedSource.Key` | Examples/NGIN.UI.Gallery/src/Gallery.cpp:51-63 | the key of an index, or an error exactly out of bounds |
| `VirtualizedSource.GalleryVirtualizedSource.Index` | Examples/NGIN.UI.Gallery/src/Gallery.cpp:79-106 | the index of a key |
| `VirtualizedSource.GalleryVirtualizedSource.Prepend` | Examples/NGIN.UI.Gallery/src/Gallery.cpp:108-117 | new identifiers in front; every old item keeps its key, further on |
| `VirtualizedSource.GalleryVirtualizedSource.ItemAt` | Examples/NGIN.UI.Gallery/src/Gallery.cpp:28-38 | succeeds exactly for loaded indexes, which are never out of bounds, with the item whose key leads back to the index |
| `VirtualizedSource.GalleryVirtualizedSource.RequestRange` | Examples/NGIN.UI.Gallery/src/Gallery.cpp:39-49 | loads a range that lies in bounds and refuses others |
| `VirtualizedSource.KeyRoundTrip` | Examples/NGIN.UI.Gallery/src/Gallery.cpp:51-106 | looking up the key of a valid index gives the index back |
| `VirtualizedSource.KeysDistinct` | Examples/NGIN.UI.Gallery/src/Gallery.cpp:51-63 | different indexes have different keys |
| `VirtualizedSource.KeysAre` | Examples/NGIN.UI.Gallery/src/Gallery.cpp:51-63 | inserted items have their identifier in the key, the others their number |
| `VirtualizedSource.FoundKey` | Examples/NGIN.UI.Gallery/src/Gallery.cpp:79-106 | a key that is found denotes the item found, and is its own key exactly without leading zeros |
| `VirtualizedSource.FoundExactly` | Examples/NGIN.UI.Gallery/src/Gallery.cpp:79-106 | a key is found at an index exactly when it denotes that index's item; zeros in front of its numeral do not matter |
| `VirtualizedSource.PrependShifts` | Examples/NGIN.UI.Gallery/src/Gallery.cpp:108-117 | prepending keeps the key of every existing item and moves it up by the number of new items |
| `VirtualizedSource.PrependShiftsAnyKey` | Examples/NGIN.UI.Gallery/src/Gallery.cpp:108-117 | prepending moves the index of every key that is found up by the number of new items |
| `VirtualizedSource.PrependKeepsIds` | Examples/NGIN.UI.Gallery/src/Gallery.cpp:108-117 | inserted identifiers stay distinct |
| `VirtualizedSource.PrependMovesItems` | Examples/NGIN.UI.Gallery/src/Gallery.cpp:28-38 | in a loaded range, prepending shows the new items first and the old ones further on; no index keeps its item unless nothing is prepended |

## Left out

- Hosted scopes: the kind and owner of a scope, the queries, several registries behind one provider, and allocation failures; what a pump brings during shutdown is a parameter; handlers do not re-enter in the class, but run at any time in the transition system.
- HostedScopes.HostedScopes.RequestEnd: when the registry refuses a scope, which of the other children were closed before is not stated, because it depends on the iteration order of an unordered map.
- CMake plans: targets, exports, build items, links, actions and the emitted project; on a failed sort the source leaves the packages moved-from, and the model does not say in what state.
- Canonical: CanonicalFingerprint, which only composes two proved functions; the reader accepts of `\u` escapes only those the printer writes.
- Sha256: the streaming of the result through std::ostringstream; printing is a function of the words.
- MetaGen: how one member declaration is read (`MethodFrom`, `ParameterFrom` and the field branch of `ParseMember`), how an annotation's payload text is split, base classes, enumerators and source spans; the first two are arbitrary functions, so the theorems hold for every such reading.
- LineMarkers.MarkerRead: `lexically_normal` is an arbitrary function of the path.
- Life: the ECS engine (any schedule that runs evolve before commit over all cells is allowed), the random generator (the draws are a parameter) and timing.
- Textures: SDL itself (every call's outcome is a parameter), vertex colours, blend modes, resizing, presenting and waiting.
- TextureCache.EntriesHoldPixels: nothing is said of textures 2^29 pixels wide or wider, because what SDL makes of their wrong pitch is a parameter.
- ActionOutputs: the resolution of actions, trust rules and the text of diagnostics.
- Authored manifests: XML parsing, source ranges, the typed fields copied out of the root, the current schema's contents and canonical paths; a schema that refers to unregistered elements, for which the source throws.
- Gallery: labels and cancelled ranges, which add only easy members.
- VirtualizedSource.GalleryVirtualizedSource.Prepend: counts beyond what a vector can hold, for which the source throws.
- UI composition, pages, motion, platform backends, file access and code emission.
