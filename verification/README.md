# abicheck: a verified model of its algorithmic cores

abicheck compares two releases of a native library, or of a bundle of libraries, and reports
what would break their users. This project models nine self-contained parts of that
program in Dafny and proves what they promise, on all inputs and, where they keep state, over
all runs.

| Module | Models | Main results |
|---|---|---|
| `ArchitectureGraph` | the cycle search of the import-layer gate | answers `None` exactly on acyclic graphs; what it returns is a simple cycle of real edges |
| `RenameSpec`, `RenameMeaning`, `BinaryFingerprint` | matching removed and added symbols as renames | the indexed, keyed, bisected matcher reports a rename exactly when the new symbol is the only one left open by its test; nothing is missed; a partial injection, ordered |
| `BtfTypes` | the BTF type section's parser | a parse is the one list that re-encodes to a maximal prefix of the data, laid out byte by byte as the format says |
| `ChainResolution`, `QueryOrder`, `BtfResolver`, `BtfMeaning` | memoised, cycle-cutting type names and sizes | sizes never depend on earlier queries; names do exactly on characterised cycles; what each kind is called and how large it is |
| `WindowsTokenizer` | the Windows argv tokenizer | equals a one-character automaton; an argument quoted in any segments reads as one token; composition and round trips, each with its exact condition |
| `ResponseFiles`, `ResponseSubstitution`, `ResponseMeaning` | `@file` expansion under budgets and a shared cache | conservation over the call tree, work and memory bounds, cache coherence, no file looked up twice, exactly when expansion is plain substitution, and what a reference stands for in either quoting style |
| `LoadOrder`, `Binder`, `ImportResolution` | the dynamic linker's search order and symbol binding | where the order starts, by distance, and in the order of the edges; every binding is the first match; an import resolves exactly when another object visibly defines it, to the first and nearest such object; interposition never results |
| `BundleGraph`, `BundleReachability`, `BundleDetectors`, `BundleRemovals`, `FindingOrder` | the bundle's resolution graph, reachability, attribution, removed dependencies | least fixpoint; exact attribution; a finding is reported exactly when the two bundles' metadata say so, and in the order of the imports; a bundle compared with itself reports no removal |
| `MatchMap` | choosing one file per library key | the newest version is chosen; the choice and the ambiguity error depend only on the multiset of paths |

`Ordering` (code-point order, sorting of sets and lists, dictionary order) and `Options` are shared helpers.

**Form.** Code that updates state step by step is imperative here: the cycle search, the keyed
buckets, the matcher's shared sets, the type resolver, the response-file expander and the
reachability memo are classes, and loops are loops. Each such method is proved equal to a
specification function, or to meet a specification predicate, that does not mention the loop;
the lemmas are about that specification. A long loop body is a method of its own.

**Where code and documentation part.** The model follows the code.

- `reachable_intra_libraries` is documented not to include its root
  (abicheck/bundle_resolution_reachability.py:42), but the loop skips only an edge from a library
  to itself (line 59). `BundleReachability.RootReachesItself` gives the exact condition: the root
  is in its own result if and only if it lies on a dependency cycle. Any bundle with two libraries
  that list each other's soname is an input (`BundleReachability.MutualNeedReachesItself`).
- The tokenizer's test promises a round trip through `subprocess.list2cmdline` for any token list
  (tests/test_build_context_properties.py:57-62). That quoter adds quotes only for a space, a tab
  or emptiness, whereas the tokenizer also splits at CR and LF, which the test's alphabet lacks.
  `WindowsTokenizer.List2CmdLineRoundTrip` gives the exact condition on the arguments; the single
  argument `a`, LF, `b` is read back as the two arguments `a` and `b`
  (`WindowsTokenizer.LineEndSplitsArgument`).
- The matcher's size window is described by its bounds in real numbers; the 5% tolerance is
  modelled as the exact rational `20 * |a - b| <= max(a, b)`.
- BTF names of ids that run into a reference cycle can depend on what was asked before, because
  cut names are cached. `BtfResolver.PointerCycleDependsOnOrder` is a two-entry table where this
  happens, and `BtfResolver.NameIndependence` says exactly for which ids it cannot.
- `_extra_data_size` reads four trailing bytes for `BTF_KIND_FLOAT` (abicheck/btf_metadata.py:274);
  section 2.2 of the Linux kernel's `Documentation/bpf/btf.rst` gives FLOAT none. The encoder here
  is defined by the code's sizes, so nothing proved is a statement about FLOAT in that standard.
- The response-file cache is keyed by path and quoting style, so a file that one database uses in
  both styles is read once in each. "No file twice" below is meant per path and style.
- `_try_versioned_match` can return `INTERPOSED` as a function of its arguments, but the search
  never calls it with arguments that make it do so (`Binder.NothingInterposed`).

**What is taken as given.** A file system is a function from resolved paths to readable text that
does not change during one load; POSIX splitting, name predicates, blocking keys, string sections,
version keys, on-disk identities and policy predicates are arbitrary functions. Python dictionaries
whose order matters are sequences of pairs or come with their insertion order.

## Model

| member | source | states |
|---|---|---|
| ArchitectureGraph.FindCycle | scripts/architecture_graph.py:12-35 | a returned list is a closed walk of real edges that repeats no node but its ends, and `None` is returned if and only if the graph has no directed cycle, targets that are not keys included |
| ArchitectureGraph.CycleSearch.Visit | scripts/architecture_graph.py:16-29 | one visit of a node that continues the active path either closes a simple cycle or leaves the active path as it was with the node done, nothing undone, and the finishing order intact; it terminates |
| ArchitectureGraph.CycleSearch.CloseCycle | scripts/architecture_graph.py:17-19 | a node met again on the active path closes a simple cycle |
| ArchitectureGraph.CycleSearch.VisitTargets | scripts/architecture_graph.py:23-26 | the loop either returns a simple cycle or leaves the active path as it was with every target done |
| ArchitectureGraph.CycleSearch.Finish | scripts/architecture_graph.py:27-28 | the node leaves the active path and is done, and nothing else changes |
| ArchitectureGraph.CycleSearch.FinishNode | scripts/architecture_graph.py:27-28 | a node whose targets are all done may be marked done: each done node still comes after all of its targets |
| ArchitectureGraph.RankDescends | scripts/architecture_graph.py:22-29 | along any path from a done node every step goes to a node finished strictly earlier |
| ArchitectureGraph.FinishedGraphIsAcyclic | scripts/architecture_graph.py:31-35 | when every key is done the graph has no cycle |
| BinaryFingerprint.MatchRenamedFunctions | abicheck/binary_fingerprint.py:105-203 | a rename is in the result if and only if it joins a removed symbol of at least 8 bytes, without a rename of higher confidence, to the only added one of at least 8 bytes that passes the test of its confidence and that no rename before it took, the 5% test being made up to 2,000,000 pairs; highest confidence first, then by old name; and the result equals the set-level specification for every insertion order, with or without blocking keys that keep their contract |
| RenameMeaning.RenamesAreExact | abicheck/binary_fingerprint.py:153-203 | that equivalence for the set-level specification: the tables, and what the list itself says was taken, decide every rename |
| RenameMeaning.MutualExactIsFound | abicheck/binary_fingerprint.py:269-303 | a removed and an added symbol of equal hash and size with accepted names, each the other's only such one, are paired at 1.0 |
| RenameMeaning.NothingIsMissed | abicheck/binary_fingerprint.py:306-429 | no removed symbol without a rename is left with exactly one unclaimed added symbol that passes a test that was made and that no other added symbol passes: hash, equal size, or 5% below the pair limit |
| RenameMeaning.LevelMeans | abicheck/binary_fingerprint.py:181-199 | the pairs of one pass are those renames of its confidence |
| RenameMeaning.TakenIsUsed | abicheck/binary_fingerprint.py:181-199 | what is used when a name's turn comes is what the finished list says was taken by a higher confidence or an earlier name |
| RenameMeaning.RenamesAreRanked | abicheck/binary_fingerprint.py:201-203 | strictly descending confidence, and in one confidence old names strictly ascending by code point |
| RenameSpec.RenamesAreInjective | abicheck/binary_fingerprint.py:153-203 | no old and no new name occurs twice; each pair joins a removed and an added symbol of size at least 8 that passed the predicate and the hash, size or 5% test of its confidence |
| RenameSpec.RenamesAreSorted | abicheck/binary_fingerprint.py:201-203 | the three passes' concatenated pairs are already in descending confidence and, within one, ascending name: the final sort moves nothing |
| RenameSpec.ClaimAllInjective | abicheck/binary_fingerprint.py:181-199 | any pass, run from any state whose pairs are one-to-one, recorded and sound, leaves such a state |
| RenameSpec.ClaimAllGrows | abicheck/binary_fingerprint.py:181-199 | a pass only appends, under its own confidence and for names it walked, and does not look at the pairs already made |
| RenameSpec.ClaimAllSorted | abicheck/binary_fingerprint.py:280-303 | walking ascending names appends pairs in ascending order below all earlier confidences |
| RenameSpec.NoCandidatesNoRenames | abicheck/binary_fingerprint.py:156-172 | the early returns agree with the specification |
| BinaryFingerprint.IndexNewCandidates | abicheck/binary_fingerprint.py:253-266 | the size and hash indices file every candidate exactly once under its size and, when it has one, its hash, and nothing else |
| BinaryFingerprint.KeyedBuckets.constructor | abicheck/binary_fingerprint.py:214-221 | starts with a valid, empty lazy index |
| BinaryFingerprint.KeyedBuckets.BuildIndex | abicheck/binary_fingerprint.py:231-234 | a position is filed under a key if and only if the entry there has that key |
| BinaryFingerprint.KeyedBuckets.Positions | abicheck/binary_fingerprint.py:235-237 | the positions found are those filed under some key of the old name |
| BinaryFingerprint.KeyedBuckets.Partners | abicheck/binary_fingerprint.py:223-238 | exactly the bucket's entries that share a key with the old name, once each and in bucket order, whatever was indexed before |
| BinaryFingerprint.SelectedSuffice | abicheck/binary_fingerprint.py:143-151 | under the keys' contract the selected entries include every entry of that size the predicate accepts |
| BinaryFingerprint.Bucket | abicheck/binary_fingerprint.py:241-250 | keyed or not, the entries to test are of the asked size, distinct, and miss no acceptable one |
| BinaryFingerprint.ExactMatches | abicheck/binary_fingerprint.py:283-289 | the unused same-size accepted hits, and no others |
| BinaryFingerprint.ExactPartners | abicheck/binary_fingerprint.py:283-291 | the list has one entry if and only if the set of eligible partners is a singleton, and then holds that partner |
| BinaryFingerprint.MatchExact | abicheck/binary_fingerprint.py:269-303 | pairs and used names after pass 1 are those of the set-level pass |
| BinaryFingerprint.SizePartners | abicheck/binary_fingerprint.py:322-334 | stopping at the second partner still settles whether the eligible partners are a singleton, and which |
| BinaryFingerprint.MatchSize | abicheck/binary_fingerprint.py:306-349 | pairs, used and matched names after pass 2 are those of the set-level pass |
| BinaryFingerprint.SecondPartner | abicheck/binary_fingerprint.py:329-330 | having met two partners rules out a unique one, whatever is left unscanned |
| BinaryFingerprint.WindowIsWide | abicheck/binary_fingerprint.py:373-376 | no size within 5% lies outside the integer window |
| BinaryFingerprint.BisectLeft | abicheck/binary_fingerprint.py:377 | the split point: smaller elements before it, the others from it on |
| BinaryFingerprint.WindowHoldsPartners | abicheck/binary_fingerprint.py:373-379 | the slice cut out by the two bisections is well formed and holds the size of every eligible partner |
| BinaryFingerprint.FuzzyPartners | abicheck/binary_fingerprint.py:352-394 | windowed, keyed and stopped early, the scan settles whether the eligible partners are a singleton, and which |
| BinaryFingerprint.FuzzyScan | abicheck/binary_fingerprint.py:380-393 | the scan of one size either meets a second partner or has accounted for every partner of that size |
| BinaryFingerprint.MatchFuzzy | abicheck/binary_fingerprint.py:397-429 | pairs, used and matched names after pass 3 are those of the set-level pass |
| BinaryFingerprint.MatchCandidates | abicheck/binary_fingerprint.py:174-203 | indices, optional key index, passes and final sort together give the specification's pairs |
| BinaryFingerprint.RunPasses | abicheck/binary_fingerprint.py:181-199 | the three passes over shared sets, the third only below the pair limit, give the specification's pairs in order |
| BtfTypes.InfoFields | abicheck/btf_metadata.py:103-113 | the three bit fields are independent of each other and of the unused bits |
| BtfTypes.EncodeU32 | abicheck/btf_metadata.py:242 | four bytes that the little-endian reader reads back as the number |
| BtfTypes.U32AtEncodes | abicheck/btf_metadata.py:242 | a word read from the data re-encodes to those four bytes |
| BtfTypes.ParseTypes | abicheck/btf_metadata.py:229-293 | the void sentinel, then entries numbered by list index that lie one behind the other, twelve bytes least significant first and as many trailing ones as the kind's number and vlen say, until one is not all there; they re-encode to the data up to that point |
| BtfTypes.SpelledIsLaidOut | abicheck/btf_metadata.py:240-293 | any list that re-encodes to a maximal prefix is laid out in that way |
| BtfTypes.SpellsUniquely | abicheck/btf_metadata.py:241-267 | data can be read as a list of entries up to an incomplete tail in one way only |
| BtfTypes.ParsesUniquely | abicheck/btf_metadata.py:229-269 | the parse is determined by the data |
| BtfTypes.ParseOfEncoding | abicheck/btf_metadata.py:229-293 | any well-formed list, encoded before any tail without a complete entry, parses to itself and to nothing else |
| ChainResolution.ValueStep | abicheck/btf_metadata.py:367-434 | plain recursion: an id's value is its target's rewrapped, and its chain ends exactly when the target's does |
| ChainResolution.LoopNeverEnds | abicheck/btf_metadata.py:327-328 | an id that leads back to itself has no plain value |
| ChainResolution.ResolveIsPlain | abicheck/btf_metadata.py:316-335 | from any truthful cache, and while any ids above it are being resolved, an id whose chain ends gets its plain value, and the cache stays truthful although cut results are stored too |
| ChainResolution.ResolveIsCut | abicheck/btf_metadata.py:316-335 | where rewrapping the cut value gives it back, an id that runs into a cycle always gets the cut value |
| ChainResolution.QueriesStayTruthful | abicheck/btf_metadata.py:316-346 | after any run of queries the cache is truthful |
| ChainResolution.QueriesStayCut | abicheck/btf_metadata.py:348-357 | after any run of queries the cache holds the cut value for every id that runs into a cycle, where that value absorbs |
| QueryOrder.IndependentIffSteady | abicheck/btf_metadata.py:316-346 | an answer is the same after every run of queries if and only if the id's chain ends or, on the cycle it enters, only the entry adds anything of its own |
| QueryOrder.SteadyIsIndependent | abicheck/btf_metadata.py:316-346 | the first half: no run of queries changes a steady id's answer |
| QueryOrder.UnsteadyDepends | abicheck/btf_metadata.py:316-346 | the second half: for any other id two runs of queries give different answers |
| QueryOrder.AskedFirst | abicheck/btf_metadata.py:325-333 | asked of a fresh resolver, an id takes on its way to the cycle and the whole cycle once |
| QueryOrder.AskedSecond | abicheck/btf_metadata.py:325-333 | asked after another id of the cycle, it takes on only the part of the cycle before that one |
| QueryOrder.EntryExists | abicheck/btf_metadata.py:359-362 | over a finite table a chain that does not end enters a cycle at a first id |
| BtfResolver.LinksAreBounded | abicheck/btf_metadata.py:359-362 | only ids inside the table refer to others, the fact that bounds the recursion on every table |
| BtfResolver.NameIsPlain | abicheck/btf_metadata.py:337-346 | after any run of queries, a name whose chain ends is that of plain recursion |
| BtfResolver.NameIndependence | abicheck/btf_metadata.py:337-434 | a name is independent of earlier queries if and only if its chain ends, or every id but the entry on its cycle is a type tag or nameless typedef |
| BtfMeaning.WeightlessKinds | abicheck/btf_metadata.py:413-434 | an id that refers to another adds nothing to its name if and only if its kind is 18 (TYPE_TAG), or 8 (TYPEDEF) without a name |
| BtfResolver.PointerCycleDependsOnOrder | abicheck/btf_metadata.py:415-416 | two pointers to each other: the first is named with two stars when asked first and with one when asked second |
| BtfResolver.PlainSizeIsProduct | abicheck/btf_metadata.py:467-482 | plain recursion along a list of ids, each having the next one's size, gives the product of the array lengths among them times the size of the last |
| BtfResolver.SizesAbsorb | abicheck/btf_metadata.py:467-482 | every kind that refers to a type makes size 0 of size 0 |
| BtfResolver.SizeIsProduct | abicheck/btf_metadata.py:348-357 | after any run of queries, on every table, a size is that product for the id's chain, and 0 when the id has no chain that ends |
| BtfMeaning.OutsideNames | abicheck/btf_metadata.py:367-372 | id 0 is `void`, and an id outside the table is named by its number |
| BtfMeaning.DeclaredNames | abicheck/btf_metadata.py:385-411 | kinds 1, 4, 5, 6, 7, 12, 14, 16 and 19 have their declared name or, without one, the default text of their kind |
| BtfMeaning.DecoratedNames | abicheck/btf_metadata.py:415-433 | kinds 2, 9, 10, 11, 13 and 18 put their text around the name of the type they refer to |
| BtfMeaning.TypedefNames | abicheck/btf_metadata.py:422-423 | kind 8 has its own name or, without one, that of its type |
| BtfMeaning.ArrayNames | abicheck/btf_metadata.py:417-421 | kind 3 is its element type with the length in brackets, or empty brackets when its trailing data are short |
| BtfMeaning.OtherNames | abicheck/btf_metadata.py:383-383 | every other kind is named by its number and the id |
| BtfMeaning.DecReads | abicheck/btf_metadata.py:372-421 | a number printed in such a name reads back as itself and has no needless zero in front |
| BtfMeaning.OwnSizes | abicheck/btf_metadata.py:436-484 | after any queries: kinds 4, 5, 6, 16 and 19 have their size field, kind 1 its bits rounded up to bytes, kind 2 the pointer size, and kinds that refer to nothing have 0 |
| BtfMeaning.ReferredSizes | abicheck/btf_metadata.py:467-482 | kinds 8, 9, 10, 11 and 18 have the size of the type they refer to and kind 3 its element's times its length, whatever was asked before either of them, on cycles too |
| BtfResolver.TypeResolver.constructor | abicheck/btf_metadata.py:304-314 | starts settled: empty caches, nothing being resolved |
| BtfResolver.TypeResolver.Name | abicheck/btf_metadata.py:337-346 | result and cache are those of the state-passing specification; the resolving set is left as found; between queries caches stay truthful and a name whose chain ends is the plain one |
| BtfResolver.TypeResolver.ResolveNameOf | abicheck/btf_metadata.py:367-434 | one id's own text, or its target's name decorated by its kind |
| BtfResolver.TypeResolver.Size | abicheck/btf_metadata.py:348-357 | as for names; between queries the size is the plain one, or 0 on a cycle |
| BtfResolver.TypeResolver.ResolveSizeOf | abicheck/btf_metadata.py:436-484 | one id's own size, or its target's times the array length |
| WindowsTokenizer.TokenizeWindows | abicheck/_compiler_options.py:276-331 | the loop that skips whole backslash runs gives the tokens and the open-quote flag of the automaton that reads one character at a time, which the rows below describe |
| WindowsTokenizer.RunIsLiteral | abicheck/_compiler_options.py:304-307 | a backslash run that no quote follows is literal |
| WindowsTokenizer.RunBeforeQuote | abicheck/_compiler_options.py:283-314 | before a quote two backslashes stand for one; after an odd number the quote is literal, after an even number it delimits, wherever in a token it stands |
| WindowsTokenizer.SplitGccOptionsWindows | abicheck/_compiler_options.py:201-207 | fails exactly on an unclosed quote in strict form; otherwise the tokens |
| WindowsTokenizer.CurrentGrows | abicheck/_compiler_options.py:316-330 | a token once begun is neither lost nor shortened, and earlier tokens stay |
| WindowsTokenizer.Composition | abicheck/_compiler_options.py:276-331 | the tokens of two texts joined by a space, tab, CR or LF are the tokens of the first followed by those of the second if and only if the first ends outside quotes |
| WindowsTokenizer.ReadsOne | abicheck/_compiler_options.py:276-331 | an argument written in any segments, bare ones without blanks and quoted ones in any order and with nothing between them, their backslashes escaped by the rule, is read as the one token they hold |
| WindowsTokenizer.ReadsSegments | abicheck/_compiler_options.py:281-331 | read outside quotes from anywhere, such segments add what they hold to the current token |
| WindowsTokenizer.QuotesInside | abicheck/_compiler_options.py:309-328 | text without quotes and backslashes: a quoted part may begin and end anywhere within an argument |
| WindowsTokenizer.RoundTrip | abicheck/_compiler_options.py:210-331 | every list of arguments, each written in any such segments and joined by blanks, reads back as itself with no open quote |
| WindowsTokenizer.List2CmdLineRoundTrip | tests/test_build_context_properties.py:57-62 | the round trip through list2cmdline holds if and only if every argument without a space or tab is free of CR and LF |
| WindowsTokenizer.LineEndSplitsArgument | tests/test_build_context_properties.py:57-62 | the input on which the promise for any token list fails: one argument with LF between two letters comes back as two |
| ResponseFiles.ExpandConserves | abicheck/build_context.py:476-520 | over the whole call tree, output length plus files spliced, and loop iterations plus tokens returned from below the depth cap, each equal the arguments plus the tokens charged; no budget goes negative or is refilled |
| ResponseFiles.TokensForArgSpends | abicheck/build_context.py:338-388 | looking up one argument spends no output budget, and tokens it hands out can be paid for |
| ResponseFiles.ExpandKeepsCache | abicheck/build_context.py:363-388 | cache budget left plus tokens held in the cache is constant, and every cached list is the file's and every cached rejection what reading again now would give |
| ResponseFiles.TokensForArgBalances | abicheck/build_context.py:314-317 | one lookup charges the cache budget by exactly what it adds to the cache |
| ResponseFiles.TokensForArgCoheres | abicheck/build_context.py:382-383 | one lookup never makes a cached rejection stale, although budgets shrink |
| ResponseFiles.ExpandReadsOnce | abicheck/build_context.py:366-383 | the files looked up on disk during one expansion are distinct and were not cached before; the cache grows by exactly them and changes nowhere else; the read budget pays for exactly the readable ones |
| ResponseSubstitution.ExpandIsSubstitution | abicheck/build_context.py:391-520 | whatever a coherent cache holds, expansion splices every file that plain depth-bounded substitution splices if and only if the budgets pay for each in turn: output for every splice, a read and cache room only for a readable file not met before; then its output is that of plain substitution and it charges the spliced tokens |
| ResponseSubstitution.ExpandSplices | abicheck/build_context.py:476-520 | the same for any part of the call tree, from any state reached by paying for what came before; expansion never splices more than plain substitution does |
| ResponseSubstitution.LookupAnswers | abicheck/build_context.py:359-388 | one lookup hands out the file's tokens if and only if the budgets left after the files before it pay for them |
| ResponseSubstitution.LookupReaches | abicheck/build_context.py:363-388 | after it the output and cache budgets are exactly what the list of files looked up so far says, and so are the reads left as long as output is left; every file with something to splice is cached, and every other that was met with output and reads left |
| ResponseSubstitution.EnoughPays | abicheck/build_context.py:359-388 | totals that suffice: output left at every readable file and not overdrawn at the end, and no more new readable files than reads and no more of their tokens than cache room |
| ResponseFiles.LoadConserves | abicheck/build_context.py:881-902 | the two conservation equations for every entry and, summed, for the whole database, with budgets solvent, the cache's books balanced and its entries coherent after every entry |
| ResponseFiles.LoadReadsOnce | abicheck/build_context.py:882-890 | over a whole database the files looked up are distinct, per path and quoting style, and are exactly what the cache gained |
| ResponseFiles.LoadIsBounded | abicheck/build_context.py:82-139 | for every database: at most 20,000 extra tokens and 64 files read in each entry, 2,000,000 extra tokens in output and in iterations over all, 2,000,000 tokens cached, and no file looked up twice in one quoting style |
| ResponseSubstitution.LoadedEntryIsSubstitution | abicheck/build_context.py:881-902 | any entry of any database is expanded as plain substitution, with every file spliced, if and only if what the entries before it left and its own fresh budgets pay for its files in turn |
| ResponseSubstitution.LoadIsSubstitution | abicheck/build_context.py:881-902 | a database whose entries each splice at most 20,000 tokens and meet at most 64 readable files that no entry before them met, which splices at most 2,000,000 tokens in all, and in which some output is left at every readable file, is expanded as if there were neither budgets nor a cache |
| ResponseSubstitution.OneFileFits | abicheck/build_context.py:363-368 | an entry whose references are all one file, in however many places, is within its caps if and only if their number times the file's tokens is at most 20,000: the cache makes one read serve them all |
| ResponseSubstitution.OneFileIsExpanded | abicheck/build_context.py:391-520 | a database of one such entry is expanded in full if and only if that product is at most 20,000, and then as plain substitution |
| ResponseMeaning.ReferenceIsReplaced | abicheck/build_context.py:391-520 | for any coherent state: an `@` argument whose file holds arguments that are no references is replaced by exactly those if the budgets afford them and stays if not; for a cl-style driver the file holds the arguments in their Windows spellings joined by blanks, for any other what `shlex` gives |
| ResponseMeaning.UnusableStays | abicheck/build_context.py:299-311 | an `@` argument with no path, no readable file or, outside cl style, bad quoting stays, whatever the budgets and the cache |
| ResponseMeaning.OneReference | abicheck/build_context.py:881-902 | in a database of one entry such a reference is replaced if its file holds at most 20,000 arguments and stays if it holds more |
| ResponseMeaning.SubstituteFollows | abicheck/build_context.py:476-520 | in plain substitution a reference up to four inclusions deep stands for what its file holds, substituted in turn |
| ResponseMeaning.SubstituteKeeps | abicheck/build_context.py:476-490 | other arguments stay, and so does everything five inclusions deep |
| ResponseMeaning.SubstituteAppend | abicheck/build_context.py:485-519 | an argument list is substituted part by part, in order |
| ResponseMeaning.SelfInclusion | abicheck/build_context.py:82-82 | a file that ends with a reference to itself is spliced in five times, and the reference stays |
| ResponseFiles.Expander.constructor | abicheck/build_context.py:888-890 | starts with an empty cache, nothing looked up and full database budgets |
| ResponseFiles.Expander.ReadAndTokenizeFile | abicheck/build_context.py:270-318 | tokens handed out are at most 20,000, those of the Windows tokenizer in cl style and those of `shlex` otherwise; with each rejection and what it has charged by then; the file is logged as looked up |
| ResponseFiles.Expander.TokensFor | abicheck/build_context.py:338-388 | the order of the budget gates, the cache and the read, what each leaves behind, and whether the disk was touched |
| ResponseFiles.Expander.ExpandArguments | abicheck/build_context.py:391-520 | output, all five mutable cells, the number of iterations and the log of files looked up are those of the specification that the conservation, substitution and replacement lemmas are about |
| ResponseFiles.Expander.ExpandOne | abicheck/build_context.py:485-519 | the same for one argument: kept as it is, or replaced by the expansion of its tokens after paying for them |
| ResponseFiles.Expander.LoadEntries | abicheck/build_context.py:888-902 | the same for all entries, each with fresh read and output budgets and the shared rest, run by run |
| LoadOrder.ComputeLoadOrder | abicheck/binder.py:111-153 | the order begins with the first node that is the graph's root or has depth 0; what that reaches comes first, nearest first and, of two such objects, the one an edge leads to from an earlier object, or by an earlier edge of the same; then the other nodes in graph order; everything once; without such a node it is graph order |
| LoadOrder.FindRootKey | abicheck/binder.py:120-126 | the key found is the graph's root or has depth 0, and no node before it is either; none is found if and only if no node is |
| LoadOrder.NamedRootStarts | abicheck/binder.py:120-126 | when the graph's root is a node and no node before it has depth 0, the order begins with it |
| LoadOrder.OrderLoads | abicheck/binder.py:111-153 | the level-by-level specification has all the properties stated of the computed order |
| LoadOrder.ReachableOrderLeads | abicheck/binder.py:140-146 | of two reached objects the earlier is the one that an edge leads to first |
| LoadOrder.OrderByDistance | abicheck/binder.py:148-151 | nothing precedes an id that is farther from the start, so unreachable ids come last |
| LoadOrder.Adjacency | abicheck/binder.py:133-138 | each consumer's providers, in edge order |
| LoadOrder.BreadthFirst | abicheck/binder.py:140-146 | a queue popped one by one lists the graph level by level |
| LoadOrder.VisitChildren | abicheck/binder.py:143-146 | queues the unvisited children in order, once each |
| LoadOrder.LevelOrderIsByDistance | abicheck/binder.py:140-146 | from any one distance on, the levels list what is reachable beyond it, once each and nearest first |
| LoadOrder.ReachableOrderIsByDistance | abicheck/binder.py:140-146 | lists exactly the reachable ids, once each, in nondecreasing distance from the root |
| LoadOrder.PathIsWithin | abicheck/binder.py:143-146 | the end of a path is at most as far as the path is long |
| LoadOrder.WithinHasPath | abicheck/binder.py:143-146 | conversely, whatever is at most n edges away is the end of a path that short |
| LoadOrder.OrderIsComplete | abicheck/binder.py:111-153 | the order repeats nothing and holds every node of the graph |
| LoadOrder.WithinIsInitial | abicheck/binder.py:140-151 | the ids within any one distance of the start are all listed and form an initial part of the order |
| Binder.ResolveImport | abicheck/binder.py:302-379 | the binding is the first object in load order, other than the importer, with a visible satisfying definition; failing that, the status that says why and the first object concerned; never INTERPOSED |
| Binder.TryProvider | abicheck/binder.py:319-368 | one object matches if and only if it satisfies the import, and otherwise the flags describe all objects searched so far |
| Binder.TryVersionedMatch | abicheck/binder.py:156-206 | matches if and only if a visible entry has the required version, and answers INTERPOSED exactly when an earlier provider had it too |
| Binder.TryUnversionedMatch | abicheck/binder.py:209-231 | matches if and only if a visible entry is unversioned or the default |
| Binder.BindingIsUnique | abicheck/binder.py:234-285 | the outcomes are exclusive: an import has exactly one binding |
| Binder.NothingInterposed | abicheck/binder.py:319-368 | an earlier object that had the version would itself have matched |
| Binder.TrackedStep | abicheck/binder.py:329-344 | the found flags and first providers stay those of the objects searched |
| Binder.BuildExportIndex | abicheck/binder.py:72-85 | the index is that of the nodes with metadata |
| Binder.SymbolMapHoldsDefinitions | abicheck/binder.py:79-84 | a name is indexed if and only if some symbol has it, with all its definitions in symbol order |
| Binder.IndexHoldsDefinitions | abicheck/binder.py:72-85 | looking a symbol up finds exactly that object's own definitions |
| Binder.ComputeBindings | abicheck/binder.py:56-108 | one binding per import of each object with metadata, in graph order, each the right one for the load order |
| Binder.ResolvedIsNearest | abicheck/binder.py:87-108 | a resolved import is bound at most as far from the start as any object that could have satisfied it |
| ImportResolution.ImportResolves | abicheck/binder.py:56-108 | for any graph with distinct paths and any of its imports: it resolves if and only if some other object has a visible symbol of that name at the required version, and its provider is then the first such object in load order |
| ImportResolution.BoundToNearest | abicheck/binder.py:87-153 | that provider is at most as far as any object that could have satisfied the import from the start of the load order, which is the first node that is the graph's root or has depth 0 |
| ImportResolution.ImportFails | abicheck/binder.py:234-285 | an import that does not resolve has no object to satisfy it, and: VERSION_MISMATCH, some other object visibly has the name, and the first of those is given; VISIBILITY_BLOCKED, none visibly has it but some other object has it, and the first is given; otherwise nobody else has it, and it is WEAK_UNRESOLVED if weak and MISSING if not |
| ImportResolution.QueriesAreImports | abicheck/binder.py:92-106 | the imports resolved are exactly those of the objects with metadata |
| ImportResolution.QueriesInOrder | abicheck/binder.py:92-106 | they come in graph order and each object's own order, one for each import |
| ImportResolution.SatisfiesIsServes | abicheck/binder.py:72-85 | looking an object up in the export index says whether it satisfies an import exactly as its own symbols do |
| BundleGraph.ComputeResolutionGraph | abicheck/bundle.py:1160-1267 | the graph's fields are exactly the specified soname map, providers, consumers and DT_NEEDED parts, with the imported symbols once each in the order of their first import |
| BundleGraph.BuildSonameMap | abicheck/bundle.py:1162-1229 | the soname map of the libraries, then of the extra aliases, which SonameMapMeans describes |
| BundleGraph.SonameOwner | abicheck/bundle.py:1162-1229 | every spelling names a library with metadata, every library is known by its key, and a declared soname belongs to the last library to declare it |
| BundleGraph.IndexExtraKeeps | abicheck/bundle.py:1215-1228 | extra aliases override nothing and never name a library without metadata |
| BundleGraph.PartsPartition | abicheck/bundle.py:1246-1255 | the two parts of a DT_NEEDED list hold every entry once between them, each only what belongs there |
| BundleGraph.SplitNeeded | abicheck/bundle.py:1246-1255 | the loop computes those two parts in order |
| BundleGraph.DivideNeeded | abicheck/bundle.py:1246-1255 | every library, and nothing else, has its two parts recorded |
| BundleGraph.IndexExports | abicheck/bundle.py:1231-1243 | each symbol's providers are the default and protected definitions, by library and symbol order |
| BundleGraph.IndexImports | abicheck/bundle.py:1257-1265 | each symbol's consumers are its importers, by library and import order, and the symbols are kept in the order of their first import |
| Ordering.FirstMentionsInOrder | abicheck/bundle.py:1257-1258 | that order holds every symbol once, and those of an initial part of the imports before all others |
| BundleReachability.ReachableIntraLibraries | abicheck/bundle_resolution_reachability.py:37-63 | the worklist computes what is reached by at least one edge |
| BundleReachability.ReachIsLeast | abicheck/bundle_resolution_reachability.py:37-63 | that set is the least one closed under the non-self edges inside the bundle |
| BundleReachability.PushTargets | abicheck/bundle_resolution_reachability.py:53-62 | a popped library's targets are all seen afterwards, and only reached libraries are |
| BundleReachability.RootReachesItself | abicheck/bundle_resolution_reachability.py:40-59 | the root is in its own result if and only if it lies on a cycle, which has two libraries or more |
| BundleReachability.MutualNeedReachesItself | abicheck/bundle_resolution_reachability.py:42-59 | in the graph built from any bundle with two libraries that list each other's soname, each is in its own result: the inputs on which the documented exclusion fails |
| BundleReachability.IntraEdgesResolve | abicheck/bundle.py:1246-1255 | in a built graph every edge inside the bundle leads to another library, with metadata |
| BundleReachability.NeededIsEdge | abicheck/bundle.py:1246-1255 | conversely, every DT_NEEDED entry that spells another library is such an edge |
| BundleReachability.ReachabilityCache.Reachable | abicheck/bundle_resolution_reachability.py:66-80 | memoised or not the answer is the same, and only the asked root is added |
| BundleDetectors.AttributionIsExact | abicheck/bundle_models.py:441-506 | an import is attributed to a library if and only if that is reachable with a definition at the import's version, or a default one when there is none, and is the pinned one or, unpinned, the only such library |
| BundleDetectors.AtMostOneProvider | abicheck/bundle_models.py:441-506 | an import is never attributed to two libraries |
| BundleDetectors.ProviderLibraryForSoname | abicheck/bundle_models.py:382-402 | a file name wins; otherwise the first library with that soname, or whose name and the soname begin one another up to a dot; none if and only if nothing matches |
| BundleDetectors.ImportIsExternal | abicheck/bundle_detector_heuristics.py:617-686 | external exactly when versioned and the named library, or every library the version is required from, is outside the bundle, or it is a runtime version required from no library |
| BundleDetectors.ResolvesInBundle | abicheck/bundle_detector_heuristics.py:650-666 | either of the two signals suffices |
| BundleDetectors.DetectIntraDepRemoved | abicheck/bundle_detectors.py:192-287 | the findings, in order, are the verdicts on every consumer of every symbol without a provider |
| FindingOrder.FindingsInOrder | abicheck/bundle_detectors.py:200-286 | on a built bundle, of two findings on different symbols the first is on the one imported first, and on one symbol on the earlier import, by library and position |
| BundleDetectors.DetectForConsumer | abicheck/bundle_detectors.py:205-286 | the early exits, in their order, give the verdict on one consumer |
| BundleDetectors.FindingsContain | abicheck/bundle_detectors.py:200-204 | a finding is reported if and only if some consumer of an unprovided symbol has that verdict |
| BundleDetectors.RemovalIsExact | abicheck/bundle_detectors.py:200-286 | a removal is reported if and only if some strong, non-external, unexcused import had a compatible provider it could reach in the old bundle and nobody provides the symbol in the new one |
| BundleDetectors.SelfComparisonIsQuiet | abicheck/bundle_detectors.py:200-286 | comparing a bundle with itself reports no removal |
| BundleRemovals.RemovalMeans | abicheck/bundle_detectors.py:192-287 | for two bundles as built from their metadata: a removal is reported if and only if no library of the new one has the symbol with default or protected visibility and one of the library's strong imports of it could, along DT_NEEDED entries of the old one, load a library that has it at the required version, is not satisfied from outside and is not excused; each condition in terms of the metadata |
| BundleRemovals.UnresolvedMeans | abicheck/bundle_detectors.py:192-287 | the other kind of finding: the same without such a library in the old bundle, for imports the classifier reports |
| BundleRemovals.ExternalMeans | abicheck/bundle_detector_heuristics.py:597-686 | of a built bundle: an import is satisfied from outside if and only if it is versioned and the library it names is not in the bundle or, naming none, it is required from libraries outside only, or from none with a version of the C, C++ or Fortran runtimes |
| BundleRemovals.ExcusedMeans | abicheck/bundle_detectors.py:263-284 | an import is excused if and only if the symbol is the system's, or all libraries needed from outside are and one of those DT_NEEDED entries may provide it |
| BundleRemovals.SonameMapMeans | abicheck/bundle.py:1162-1229 | which spellings the bundle knows and whose each is: a soname's the last library's to declare it, another name's the first library's whose key or file name it is, an alias's the first entry's to list it |
| BundleRemovals.EverProvidedIsServed | abicheck/bundle_detectors.py:215-227 | the detector's old-side test is that statement about the old bundle's metadata |
| BundleRemovals.ReachIsLoaded | abicheck/bundle_resolution_reachability.py:37-63 | in a built graph a library is reached if and only if a chain of DT_NEEDED entries spells the way to it |
| BundleRemovals.CompatibleExports | abicheck/bundle_detectors.py:215-222 | a library is a compatible provider if and only if it exports the symbol at the required version, or by default when none is required |
| BundleRemovals.UnprovidedIsUnexported | abicheck/bundle.py:1231-1243 | a symbol has no provider entry if and only if no library exports it |
| BundleRemovals.BundleAgainstItself | abicheck/bundle_detectors.py:200-286 | a built bundle compared with itself reports no removal, under any policy |
| MatchMap.BuildMatchMap | abicheck/binary_utils.py:503-557 | every path's key is mapped to the listed path that is newer than every other one listed for it, with a warning, in the order of listing, exactly where two have different on-disk files; or the choice fails, exactly when for some key two listed paths have equal version keys and none listed is newer, on the first such key listed |
| MatchMap.FillBuckets | abicheck/binary_utils.py:532-534 | each key's candidates, in list order, and the keys in the order of their first mention |
| MatchMap.Select | abicheck/binary_utils.py:538-553 | comparing only the last two of the stably sorted bucket detects exactly the tied tops, and the last is a top |
| MatchMap.TieIsAtTheEnd | abicheck/binary_utils.py:543-544 | in a sorted bucket the last two candidates rank the same if and only if the top rank is held twice, by two paths or by one listed twice |
| MatchMap.KeyLeOrder | abicheck/binary_utils.py:471-478 | version keys are totally ordered: any two compare and only equal ones tie |
| MatchMap.BelowIsLess | abicheck/binary_utils.py:471-478 | what is less is older: at the first difference of the tokens it has the smaller number, a word against a number, the earlier word, or no more tokens, and with equal tokens its name comes first by code point |
| MatchMap.MatchMapSelects | abicheck/binary_utils.py:538-557 | the specified choice is the newest path, and it fails exactly when the newest version is listed twice |
| MatchMap.ChosenIsStrictlyGreatest | abicheck/binary_utils.py:543-552 | a chosen path outranks every other candidate strictly |
| MatchMap.PermutationInvariant | abicheck/binary_utils.py:503-557 | for two orders of the same paths the map, the keys warned about and whether the choice fails are the same |

## Left out

- The file system, symbolic links, ELF and PE content, subprocesses, YAML, logging, deadlines and the command line: inputs of the modelled code are taken as values.
- POSIX `shlex`, regular expressions, `fnmatch` and demangling: arbitrary functions where a modelled caller uses them.
- `_match_target_against_index` and the manifest checks: one early-continue scan over `fnmatch` and demangled names.
- `_canonical_library_key`, and how `_version_sort_key` cuts a file name into tokens: an abstract key function; the order of the tokens is modelled.
- `classify_unresolved_import`, `extra_needed_all_system`, `soname_matches_providers` and the system-symbol tables: abstract policy functions, and the claims hold for all of them.
- `BundleSnapshot.per_library_verdict`, and the diff and manifest code of the bundle modules: a running maximum and field copying.
- The file-system probes of `_compute_resolution_graph` (symlink targets, hard links): the model is the metadata-only build.
- Descriptions and explanation strings of findings, bindings, warnings and errors.
- BTF headers, string sections and the extraction of structs, enums and prototypes; `BTF_KIND_FLOAT` against the kernel's format.
- Flag extraction, the union fallback and launcher unwrapping of the build context.
- Entries that raise: one that raises before its expansion is skipped by the source and does not enter the list of entries here. One whose `file` holds a NUL raises at abicheck/build_context.py:592, after its expansion has charged the shared budgets and filled the cache; it must be in the list, with its output dropped by the caller. An `@` argument that holds a NUL raises part-way through its expansion, which `Site.locate` cannot express; it is not modelled.
- Floating-point rounding of the size window and the 5% test: exact rationals.
- Python's recursion limit, exceptions raised by callbacks, and exceptions during type resolution (its `finally` clause).
- ResponseFiles.Expander.ExpandArguments: the one-element budget lists and the shared dictionary are fields of one object, so a caller that aliases two budgets to one list is not captured.
- ResponseSubstitution.LoadIsSubstitution: its totals suffice but are not necessary; the necessary and sufficient condition, file by file, is that of ResponseSubstitution.LoadedEntryIsSubstitution. Both are about splicing: a file that holds only a reference to itself gives the same list spliced or refused.
- BinaryFingerprint.MatchRenamedFunctions: the source's default arguments become options, and a fingerprint's section index is carried but never read, as in the source.
- BundleGraph.ComputeResolutionGraph: exports, imports and DT_NEEDED lists are indexed in separate loops; the source interleaves the last two, over disjoint fields.
