# A verified model of mold's core algorithms

mold is a linker. This project models the algorithms in it that state, or rely on, something
that is not obvious from their code, and proves it:

- **Glob matching** (`Glob*.dfy`, `AhoCorasick.dfy`, `Words.dfy`). A version script or dynamic list
  maps symbol-name patterns to values, and one question is asked of it: the largest value of any
  pattern that matches a name. Six mechanisms answer it (match-all, a sorted list of exact names,
  prefixes and suffixes, Aho-Corasick, a matcher that backtracks to the last star, and a
  bit-parallel automaton from 64 patterns on). `GlobSyntax` gives the reference meaning of a
  pattern, and `GlobGrammar` a grammar that derives it; every mechanism is proved to agree with
  it, and `Glob.Glob.Find` is their sum.
- **Identical code folding** (`Icf.dfy`, `DigestMap.dfy`, `DigestProgress.dfy`, `IcfGroups.dfy`). The convergence
  argument that the source omits "for brevity", what the resulting classes are, the packing of the
  section graph, the digest table that counts classes and elects leaders, over every interleaving
  and free of deadlock, and the two together: each section's leader is the first of the sections
  identical to it.
- **Concurrent containers** (`ConcurrentMap.dfy`, `ConcurrentProgress.dfy`, `ShardTable.dfy`,
  `ShardOrder.dfy`, `ConcurrentListing.dfy`, `Arena.dfy`). The claim-and-publish protocol of the hash
  map, when it can be full, exactly when its listing does not depend on the schedule, and the arena
  allocator with thread-local blocks and self-relative pointers.
- **Whole-link passes**. Mark-sweep collection of sections (`GcSections.dfy`), symbol resolution
  (`Symbols.dfy`), the `.gdb_index` tables, their reader and their radix sort (`GdbIndex.dfy`,
  `GdbReader.dfy`, `RadixSort.dfy`), section shrinking (`Shrink.dfy`, `Relax.dfy`), ARM64 thunks
  (`Arm64Thunk.dfy`) and CRC forging (`Crc32.dfy`, `CrcDivision.dfy`).

`Bytes`, `Sets`, `Arith`, `Wrappers` and `Machine` hold shared vocabulary.

Concurrent code is a state machine whose steps are the atomic operations of the source, taken in
any order; a theorem about "every run" quantifies over all schedules. Code that works in place is
imperative Dafny, proved against specification functions.

Where the code does less than one might expect, the exact condition is proved:

- A pattern routed to Aho-Corasick means what it says for every name if and only if its literal
  neither begins nor ends with a NUL byte, the end marker (`GlobRoutes.HitsIsMeaning`).
- The sorted listing of a shard is independent of the schedule exactly if there are fewer keys than
  buckets or no two keys have the same home bucket. Otherwise the shard is full and listed as it
  lies, and the same insertions under another schedule are listed differently
  (`ConcurrentListing.ListingIsDeterministicIff`; `ConcurrentListing.ScheduleCanShow` is a case).
- An insertion aborts the program only if more than 256 keys go to its shard; up to that number
  every run can be completed, and keys of one home bucket can all be inserted only up to it
  (`ConcurrentProgress.AbortNeedsKeys`, `ConcurrentProgress.CanComplete`,
  `ConcurrentProgress.OneHomeCompletesIff`).
- A symbol bound to a shared library's default version through its versioned name keeps value,
  version and weakness of whichever direct claim came before. These fields are independent of the
  order exactly if no such proxy wins over a direct claim with something to record
  (`Symbols.FieldsAreDetermined`). The linker redirects such symbols to their origin afterwards (`src/passes.cc:273-284`).
- `R_RISCV_ALIGN` derives the boundary from the number of NOP bytes. If these are the `a - g` bytes
  that reach an `a`-byte boundary from any multiple of `g`, the boundary is read back exactly if
  `a > 2g` (`Relax.RiscvReadsBoundary`); otherwise an instruction that is not on a multiple of `a`
  already does not get there (`Relax.RiscvLands`, `Relax.RiscvMisaligns`). `R_LARCH_ALIGN` has enough
  NOPs from every instruction exactly if the alignment is at least four (`Relax.LoongarchSuffices`);
  below, the section can grow (`Relax.LoongarchGrows`).
- The delta looked up for a place in a shrunk section is the place's displacement exactly if the
  place is not in the middle of removed bytes (`Shrink.DeltaIsGone`); there it runs ahead
  (`Shrink.DeltaRunsAhead`).

## Model

| member | source | states |
|---|---|---|
| GlobSyntax.AcceptsIsDenotes | lib/glob.cc:110-172 | The reference meaning: matching elements left to right succeeds exactly if the name can be cut into pieces, one per element, that fit |
| GlobSyntax.AcceptsSplit | lib/glob.cc:110-172 | A pattern cut in two matches exactly the names that can be cut so that both parts match |
| GlobSyntax.ReadShow | lib/glob.cc:12-108 | Round trip: every sequence of elements (bytes, classes, stars) can be written as a pattern, escapes and brackets included, and reading that pattern gives it back |
| GlobGrammar.WrittenMeaning | lib/glob.cc:12-108 | Whatever plain and escaped bytes, `?`, `*` and bracket expressions of single bytes and ranges, escaped or not, negated by `!` or `^` or not, a pattern is written with: it is well formed and matches byte by byte what they say |
| GlobGrammar.WellFormed | lib/glob.cc:12-108 | A pattern is well formed if and only if that grammar writes it |
| GlobGrammar.MeaningIsGrammar | lib/glob.cc:12-108 | A pattern matches a name if and only if the grammar writes it with units that match the name |
| GlobGrammar.BracketMeaning | lib/glob.cc:20-84 | A bracket expression matches exactly the single bytes equal to one of its bytes or between the ends of one of its ranges, both included, or, negated, exactly the others |
| GlobGrammar.ExampleRanges | lib/glob.cc:26 | `[a-czg-i]` matches a, b, c, z, g, h and i alone |
| GlobGrammar.ExampleNegation | lib/glob.cc:27 | `[!a-z]` and `[^a-z]` match every byte but the lowercase letters |
| GlobGrammar.ExampleEscape | lib/glob.cc:25 | `[$\]!]` matches $, ] and ! alone |
| GlobGrammar.ExampleUnits | lib/glob.cc:85-106 | `?` matches single bytes, `*` everything and `\*` the star |
| GlobPattern.CompileBracket | lib/glob.cc:20-84 | A bracket expression compiles exactly if it is well formed (closed, no empty escape, no reversed range), to the bytes it lists or, negated, to all others, and leaves the rest of the pattern |
| GlobPattern.Compile | lib/glob.cc:12-108 | Compiling fails exactly on malformed patterns; otherwise the tokens, text and stars merged, stand for the pattern's elements with adjacent stars collapsed |
| GlobPattern.SqueezeAccepts | lib/glob.cc:88-91 | Collapsing adjacent stars changes no match |
| GlobPattern.CompiledMeaning | lib/glob.cc:12-108 | Compiled tokens match exactly the names the pattern means |
| GlobMatch.Match | lib/glob.cc:110-172 | The backtracking matcher terminates and returns true exactly if some assignment of input to all stars matches |
| GlobMatch.LeftmostSuffices | lib/glob.cc:163-168 | Why it may backtrack to the last star only: if the tokens between two stars matched as early as possible, a later match of them gives nothing more |
| GlobMatch.FixedWidth | lib/glob.cc:124-160 | Tokens between two stars take up a fixed amount of input |
| GlobMatch.LaterFrom | lib/glob.cc:136-144 | Jumping to the first occurrence of the text after a star loses no match |
| GlobMatch.PassStar | lib/glob.cc:132-145 | The star case keeps the scan's invariant, or no match exists at all |
| GlobMatch.FindFrom | lib/glob.cc:138-140 | The substring search finds the first occurrence at or after a position, or says that there is none |
| GlobMatch.SuffixNeeded | lib/glob.cc:111-113 | The suffix pre-check rejects nothing that matches |
| Words.ShiftInValue | lib/glob.cc:247-249 | The shift with carry on bit lists is the arithmetic one on 64-bit words: 2w + carry, with the top bit carried out |
| Words.DecrementValue | lib/glob.cc:261 | Decrement with borrow is subtraction of one |
| Words.DecrementAt | lib/glob.cc:258-262 | w AND (w - 1) clears the lowest set bit and no other |
| Words.CountrZero | lib/glob.cc:259 | The bit found is the lowest one set |
| GlobNfa.BuildAccepts | lib/glob.cc:199-233 | The state machine laid out for a pattern reaches its last state after exactly the names the pattern matches |
| GlobNfa.NoLeak | lib/glob.cc:199-233 | A pattern packed behind others has, after every input, the states it would have alone: nothing leaks in from the accept state before it |
| GlobNfa.AcceptingCell | lib/glob.cc:253-264 | An accepting state that is on belongs to a pattern that matches, and carries its value |
| GlobNfa.CellOf | lib/glob.cc:229-231 | Every matching pattern has an accepting state that is on |
| GlobNfa.CountStates | lib/glob.cc:174-186 | The counting pass reserves exactly the states that the layout uses |
| GlobNfa.StepWords | lib/glob.cc:242-250 | The loop over words, with the top bit of each carried into the next, applies the same update to every word |
| GlobNfa.SteppedHolds | lib/glob.cc:241-251 | One input byte, word by word with a carry, is one step of the whole automaton across word boundaries |
| GlobNfa.SetMaskBitHolds | lib/glob.cc:207-224 | Setting a bit of one byte's mask adds that byte to the state and touches no other mask |
| GlobNfa.Nfa.CompilePattern | lib/glob.cc:201-232 | Appends one pattern's cells behind the ones before it and leaves those alone |
| GlobNfa.Nfa.Compile | lib/glob.cc:174-233 | The tables encode exactly the patterns laid out back to back |
| GlobNfa.Nfa.Run | lib/glob.cc:235-251 | After the input, the words hold exactly the union of each pattern's own states |
| GlobNfa.Nfa.BestState | lib/glob.cc:253-264 | The scan over set bits finds the largest accepting value |
| GlobNfa.BestInWord | lib/glob.cc:258-262 | One word's scan visits every set bit once and returns the largest value |
| GlobNfa.Nfa.Match | lib/glob.cc:235-265 | The automaton returns the largest value of a pattern that matches, or -1 |
| AhoCorasick.ChildPath | lib/aho-corasick.cc:32-56 | A node has a child by a byte exactly if the extended string is in the trie |
| AhoCorasick.AhoCorasick.FindChild | lib/aho-corasick.cc:32-40 | The root table and the sibling chains both find the child if there is one, and -1 otherwise |
| AhoCorasick.AhoCorasick.AddChild | lib/aho-corasick.cc:42-56 | Returns the existing child or grows the trie by exactly one string |
| AhoCorasick.AhoCorasick.Insert | lib/aho-corasick.cc:89-103 | Walking a key down the trie ends at the node of that key and loses no node |
| AhoCorasick.AhoCorasick.Add | lib/aho-corasick.cc:83-107 | Adds the pattern's marker-delimited key with the larger of its old and new values, and changes no other key |
| AhoCorasick.StuckFound | lib/aho-corasick.cc:126-135 | The first node on the failure path that can be extended gives the longest proper suffix in the trie |
| AhoCorasick.StuckAtRoot | lib/aho-corasick.cc:126-135 | If not even the root can be extended, the longest suffix is the empty string |
| AhoCorasick.ShallowLinked | lib/aho-corasick.cc:113-124 | Breadth-first order is enough: every node no deeper than the queue's front has its link |
| AhoCorasick.FrontierStep | lib/aho-corasick.cc:122-139 | Taking the front and queueing its children keeps the queue a frontier of the trie |
| AhoCorasick.TopOfLink | lib/aho-corasick.cc:135-136 | The best key ending a string is its own or the best key ending its failure link's string |
| AhoCorasick.TopOfLongest | lib/aho-corasick.cc:65-74 | The keys ending a text are those ending its longest suffix in the trie |
| AhoCorasick.AhoCorasick.FindSuffix | lib/aho-corasick.cc:128-133 | Following the parent's links reaches the longest proper suffix of the child |
| AhoCorasick.AhoCorasick.Compile | lib/aho-corasick.cc:109-140 | Every failure link points to the longest proper suffix present in the trie, and every value is the best over all keys that are suffixes |
| AhoCorasick.AhoCorasick.Walk | lib/aho-corasick.cc:65-74 | One byte moves to the longest suffix of the extended text and raises the value to the best key ending there |
| AhoCorasick.AhoCorasick.Find | lib/aho-corasick.cc:58-81 | The result is the largest value of any key that is a substring of NUL, the name, NUL, or -1 |
| GlobRoutes.SubstringShape | lib/glob.cc:299-302 | A pattern reaches Aho-Corasick only if it is a literal between two stars, and its key is that literal |
| GlobRoutes.RouteMeaning | lib/glob.cc:276-302 | For every other route the plain comparison is what the pattern means |
| GlobRoutes.MarkersAddNothing | lib/aho-corasick.cc:93-103 | A literal with no NUL at its ends occurs between the markers exactly if it occurs in the name |
| GlobRoutes.MarkersAddSomething | lib/aho-corasick.cc:76-79 | A literal with NUL at an end is found in a name that does not contain it |
| GlobRoutes.HitsIsMeaning | lib/glob.cc:271-309 | The routed comparison means what the pattern means for every name, if and only if the pattern is not a substring pattern with NUL at an end |
| GlobTables.AddEntry | lib/glob.cc:271-309 | Adding a pattern to its own table keeps what all six tables hold in step with the set of added patterns |
| GlobTables.WantedByRoute | lib/glob.cc:333-354 | The answers of the six mechanisms together cover exactly the patterns added |
| GlobExacts.Sort | lib/glob.cc:317-319 | Orders entries by name, then by descending value, and keeps every entry as often as it was there |
| GlobExacts.Unique | lib/glob.cc:321-322 | Keeps one entry per name, with the largest value |
| GlobExacts.LowerBound | lib/glob.cc:335 | Finds the first entry whose name is not below the one asked for |
| GlobExacts.Lookup | lib/glob.cc:335-337 | Raises the answer exactly by the value of an entry with that name |
| Bytes.LessMeaning | lib/glob.cc:317-325 | The order of names: at the first place where they differ, the smaller one has the smaller byte or ends |
| Glob.Glob.Add | lib/glob.cc:271-309 | Succeeds exactly on well-formed patterns, and then the pattern, and nothing else, has been added |
| Glob.Glob.SortExacts | lib/glob.cc:313-322 | After sorting and removing duplicates the exact entries are strictly ordered and still hold every name's best value |
| Glob.Glob.PackPatterns | lib/glob.cc:324-327 | From 64 patterns on the automaton takes over all of them; below that it stays empty |
| Glob.Glob.Prepare | lib/glob.cc:312-331 | The one-time compilation changes no answer |
| Glob.Glob.BestTokens | lib/glob.cc:347-352 | Whichever token matcher is in use, the answer is raised to the best matching token pattern |
| Glob.Glob.BestLiteral | lib/glob.cc:333-345 | The best over match-all, exact, prefix and suffix patterns |
| Glob.Glob.Find | lib/glob.cc:311-355 | After any additions, the largest value of an added pattern that hits the name, or -1, on either side of the 64-pattern threshold; with no NUL at the end of a substring pattern, the best over what the patterns mean |
| Glob.WantedIsMeant | lib/glob.cc:311-355 | With no NUL at the end of a substring pattern, hitting and meaning coincide for all patterns |
| Icf.NextRefines | src/icf.cc:448-461 | With no collision in the round, a round only splits classes |
| Icf.NextIffTargets | src/icf.cc:448-461 | Two sections agree after a round exactly if they and all their targets, in order, agreed before it |
| Icf.NextKeepsSame | src/icf.cc:448-461 | The next partition depends on the partition only, not on the digests: sections of one class change in lockstep |
| Icf.RoundsRefine | src/icf.cc:551-562 | Any number of further rounds only splits classes |
| Icf.FinerHasMore | src/icf.cc:551-562 | A refinement has at least as many classes, and if it has as many it is the same partition |
| Icf.SettledForever | src/icf.cc:551-562 | Once a round changes no class, no later round does |
| Icf.EqualCountsSettle | src/icf.cc:551-562 | The omitted proof: if the count of classes is the same some rounds apart, the partition never changes again |
| Icf.ConsistentIsFiner | src/icf.cc:551-562 | No partition that respects initial digests and edges is coarser than any round's |
| Icf.DigestIsUnfolding | src/icf.cc:444-447 | After n rounds two sections agree exactly if their unfoldings into trees of depth n do |
| Icf.SettledIsFolding | src/icf.cc:551-580 | A settled partition is the coarsest one that respects initial digests and edge lists, and separates sections exactly by their unfoldings of every depth |
| Icf.Propagate | src/icf.cc:448-461 | Reads the packed edges and computes one round of the graph for every section |
| Icf.Converge | src/icf.cc:563-580 | The loop ends after at most one more count than there are sections (two for none), and its partition is the coarsest one |
| Icf.SumCounts | src/icf.cc:396-421 | Counting and prefix sum give every section's first edge index |
| Icf.FillEdges | src/icf.cc:425-441 | Writes one section's eligible targets, in order, to its own range and to no place before or after it |
| Icf.EligibleAt | src/icf.cc:396-441 | The eligible targets are those that are not -1, each behind exactly those that come before it |
| Icf.GatherEdges | src/icf.cc:390-442 | The packed form holds exactly the eligible references of each section in order |
| DigestMap.PackUnpack | src/icf.cc:218-227 | Round, busy bit and tag share one word and can be read back |
| DigestMap.TagIs | src/icf.cc:251-253 | The tag is the upper 48 bits of the first word of a digest |
| DigestMap.TableIsLargeEnough | src/icf.cc:209-237 | The table is larger than the number of digests |
| DigestMap.PassedCount | src/icf.cc:256-275 | The slots a probe has passed belong to as many different other digests, so a probe cannot go around |
| DigestMap.StepInv | src/icf.cc:250-292 | Every atomic step of every thread keeps the invariant of claimed, published and passed slots |
| DigestMap.RunInv | src/icf.cc:250-292 | So does every run of one round, for any number of threads and any schedule |
| DigestMap.OneSlotPerDigest | src/icf.cc:250-292 | Two slots claimed in a round never hold the same digest |
| DigestMap.WinnerOf | src/icf.cc:250-292 | For each digest there is an insertion that returned true, and only one |
| DigestMap.WinnersCountClasses | src/icf.cc:463-478 | As many insertions return true as there are distinct digests |
| DigestMap.SlotLeader | src/icf.cc:285-290 | After all insertions a slot's leader is the section of lowest priority among those inserted with its digest |
| DigestMap.Find | src/icf.cc:294-302 | After the round, looking up an inserted digest ends and returns that section |
| DigestMap.RoundResult | src/icf.cc:239-302 | However the insertions of a round interleave: one true per digest, and lookups return the leader of lowest priority |
| DigestProgress.FreeStep | src/icf.cc:250-292 | A thread that has claimed a slot, or that runs while no other claim is unpublished, gets nearer to returning with every step |
| DigestProgress.CanFinish | src/icf.cc:250-292 | Every run of a round, however it went so far, is the beginning of one in which all insertions return: nothing blocks |
| IcfGroups.CountIsClasses | src/icf.cc:463-478 | Under every schedule the counting round's result is the number of classes of the digests |
| IcfGroups.LeaderLeads | src/icf.cc:583-592 | The leader of a settled digest is the lowest-priority section whose unfoldings of every depth are those of the section |
| IcfGroups.Group | src/icf.cc:583-592 | After the loop and any schedule of the last counting round, every section's leader is the lowest-priority section identical to it, and two sections share a leader exactly if they are identical |
| DigestMap.RunStamps | src/icf.cc:213-216 | A round leaves no stamp but its own and those it found |
| DigestMap.NextRound | src/icf.cc:239-248 | Every slot stamped before reads as vacant in the next round, also when the 15-bit counter restarts |
| ConcurrentMap.StepInv | lib/lib.h:604-647 | Every atomic step of every insertion keeps the claim-and-publish invariant |
| ConcurrentMap.PublishedStays | lib/lib.h:615-632 | A step never changes the key, length or value of a published slot |
| ConcurrentMap.PublishedForever | lib/lib.h:615-632 | Nor does any further run |
| ConcurrentMap.OneSlotPerKey | lib/lib.h:604-647 | No key is in two slots |
| ConcurrentMap.SameSlot | lib/lib.h:604-647 | All insertions of a key that returned got the same slot, which is published with that key, its length and its creator's value |
| ConcurrentMap.OneCreator | lib/lib.h:604-647 | In a finished run exactly one insertion of each key returned true |
| ConcurrentMap.FinishedIsProbing | lib/lib.h:604-647 | Whatever the interleaving, a finished run leaves a linear-probing table of exactly its keys |
| ConcurrentProgress.PassedCount | lib/lib.h:611-643 | The slots a probe has passed hold as many different keys, none of them its own |
| ConcurrentProgress.AbortNeedsKeys | lib/lib.h:645-646 | In every state of every run, an insertion that found the map full means more than MAX_RETRY keys in the shard |
| ConcurrentProgress.CanComplete | lib/lib.h:604-647 | With at most MAX_RETRY keys, every run is the beginning of one in which all insertions return |
| ConcurrentProgress.CrowdedHome | lib/lib.h:611-646 | In a run from which all insertions return, at most MAX_RETRY keys share a home bucket |
| ConcurrentProgress.OneHomeCompletesIff | lib/lib.h:593-598 | Keys of one home bucket can all be inserted if and only if there are at most MAX_RETRY of them |
| ConcurrentListing.ListsInsertedKeys | lib/lib.h:543-583 | Whatever the schedule, the listing has exactly the inserted keys, each once |
| ConcurrentListing.ListingIsDeterministic | lib/lib.h:543-583 | Two runs that insert the same keys, in any order and on any threads, list them alike, if there are fewer keys than buckets |
| ConcurrentListing.HomesDecide | lib/lib.h:604-647 | If no two keys have the same home bucket, all runs leave the same table, full or not |
| ConcurrentListing.StepMirrors | lib/lib.h:604-647 | A step of one insertion and the same step of its counterpart keep a state and its image under exchanging two insertions of one home |
| ConcurrentListing.ExchangedMirrors | lib/lib.h:604-647 | So the exchanged schedule leaves the exchanged state, with other insertions of the two keys not yet begun |
| ConcurrentListing.SparesReturn | lib/lib.h:604-647 | Insertions not yet begun whose keys are published all return, without changing the table |
| ConcurrentListing.AnotherTable | lib/lib.h:604-647 | If two keys have the same home bucket, the same insertions under another schedule leave another table |
| ConcurrentListing.ListingIsDeterministicIff | lib/lib.h:543-583 | The listing is the same for all runs that insert the same keys if and only if there are fewer keys than buckets or all homes differ; otherwise the very same insertions have a schedule with another listing |
| ConcurrentListing.ScheduleCanShow | lib/lib.h:560-563 | A full shard of 256 buckets, two of its keys with one home, has two schedules from which all insertions return and that are listed differently |
| ShardTable.SameEmpty | lib/lib.h:604-612 | A bucket empty in one linear-probing table of some keys is empty in every other, around the end of the shard too |
| ShardTable.TakenIsDetermined | lib/lib.h:604-612 | Tables of the same keys have the same buckets taken |
| ShardTable.RunKeys | lib/lib.h:565-569 | A run of taken buckets holds exactly the keys whose homes lie in it, whatever the arrival order |
| ShardTable.WrappedRunKeys | lib/lib.h:560-563 | So does the run that goes around the end of the shard |
| ShardTable.SortedIsUnique | lib/lib.h:571-575 | Ordering by length, then bytes, arranges a set of keys in only one way |
| ShardTable.TakeTail | lib/lib.h:560-563 | Collects the run at the end of the shard |
| ShardTable.SortRun | lib/lib.h:567-577 | Collects one run and puts it in the order of `ShardOrder.KeyLessPrecedes` |
| ShardTable.GetSortedEntries | lib/lib.h:543-583 | Computes the listing that the other results are about, which has every key of the shard exactly once |
| ShardTable.ListingCollects | lib/lib.h:543-583 | The listing of a shard, full or not, has each of its keys exactly once |
| ShardOrder.KeyLessPrecedes | lib/lib.h:571-575 | The comparison puts shorter keys first and, of equally long ones, the one with the smaller byte where they first differ |
| ShardOrder.ListingOrder | lib/lib.h:543-583 | Of two keys in the listing, the first precedes the second in that order if no empty bucket separates them, and is in an earlier run otherwise, the run around the end counting as first; a full shard is listed backwards |
| ShardTable.EmptyIffFewer | lib/lib.h:604-612 | A bucket is empty exactly if there are fewer keys than buckets |
| ShardTable.SameListing | lib/lib.h:543-583 | Tables of the same keys are listed alike as long as one bucket is empty |
| ShardTable.FullListingKeepsLayout | lib/lib.h:560-563 | A full shard is listed backwards as it lies, so different layouts are listed differently |
| Arena.StepInv | lib/arena.cc:59-114 | Every atomic step keeps blocks and allocated ranges apart and inside the used part |
| Arena.LocalInv | lib/arena.cc:68-79 | Handing out part of a thread's block overlaps nothing |
| Arena.GlobalInv | lib/arena.cc:81-114 | Taking bytes off the global offset overlaps nothing |
| Arena.AllocationsAreSound | lib/arena.cc:59-114 | In every interleaving all ranges are inside the arena, past its first eight bytes, aligned as asked and to four, and no two non-empty ones overlap |
| Arena.GrantedIffRoom | lib/arena.cc:59-114 | Undisturbed, a call is granted within two steps if its bytes fit in the thread's block or in what is left of the arena, and otherwise ends the thread |
| Arena.FitsIffRoom | lib/arena.cc:68-79 | A small request fits in the thread's block if and only if some aligned place in it has room |
| Arena.GrantedWhere | lib/arena.cc:59-114 | The bytes granted are the first aligned ones: in the block, or from the global offset on, where a small request takes 64 KiB |
| Arena.OffsetLeadsBack | lib/lib.h:753-806 | Between two four-byte places of the arena the offset fits in 32 bits, and leads back to the target exactly if the target is not the pointer itself |
| Arena.PointersRoundTrip | lib/lib.h:753-806 | In every run, a pointer field in one allocation to another allocation is stored as a non-zero signed 32-bit offset that leads back to it, the index from the arena's start is a non-zero 32-bit number, and null stays null |
| GcSections.Named | src/gc-sections.cc:46-56 | The start/stop map lists exactly the live mapped sections with that name, if it is a C identifier |
| GcSections.StartStopNames | src/gc-sections.cc:122-128 | A symbol's start/stop name is a given non-empty name exactly if the symbol is one of the two markers of it |
| GcSections.ActionsMark | src/gc-sections.cc:147-194 | Visiting a section marks exactly what it refers to: FDE, relocation, start/stop and exidx edges |
| GcSections.ActionsTouch | src/gc-sections.cc:159-167 | Visiting a section touches exactly the fragments and shared libraries its relocations name |
| GcSections.StepInv | src/gc-sections.cc:58-61 | Whichever pending action is taken next: what is visited is reachable, every effect has a cause, and no action is forgotten |
| GcSections.RunInv | src/gc-sections.cc:131-207 | So it is after every schedule |
| GcSections.MarkingEnds | src/gc-sections.cc:196-207 | Every step does one unit of a fixed amount of work, so marking ends under every schedule |
| GcSections.VisitedIsReachable | src/gc-sections.cc:131-207 | Under every schedule exactly the reachable sections are visited, each once |
| GcSections.Survivors | src/gc-sections.cc:65-225 | A section survives exactly if it was alive and is either not SHF_ALLOC or reachable from the roots |
| GcSections.StartMarks | src/gc-sections.cc:65-125 | Marking starts from exactly the sections to keep and those that root symbols are in |
| GcSections.RootsSurvive | src/gc-sections.cc:65-125 | These survive every schedule |
| GcSections.Touched | src/gc-sections.cc:159-167 | A fragment is alive exactly if a root or a reachable section refers to it; a shared library is marked exactly if a reachable section refers to it |
| Symbols.RankOrder | src/input-files.cc:1155-1196 | Ranks order definitions by kind first and by file priority next; an unclaimed symbol ranks behind every definition, and equal ranks mean the same file |
| Symbols.Preferences | src/input-files.cc:1155-1166 | The documented order: linked object files before shared libraries and archive members, real definitions before common symbols, strong before weak, and linked common symbols before those in archives |
| Symbols.RankIsBetter | src/input-files.cc:1155-1196 | A claim has the lower rank if and only if it is better: real before common, then linked before not, then strong before weak, then by file priority |
| Symbols.AcceptedRank | src/input-files.cc:1190-1196 | A bound symbol competes with exactly the rank its claim was accepted with |
| Symbols.LowestRankWins | src/input-files.cc:1238-1268 | After the claims in any order, a symbol is unclaimed exactly if nobody claimed it, and otherwise bound to the claim of strictly lowest rank |
| Symbols.BestClaimWins | src/input-files.cc:1238-1268 | After the claims in any order, the bound definition is better than every other one claimed |
| Symbols.OrderDoesNotMatter | src/input-files.cc:1735-1771 | Two orders of the same claims, by object files and shared libraries, bind every symbol to the same definition |
| Symbols.DirectFields | src/input-files.cc:1258-1266 | A symbol bound directly has its entry's value, the default version in an object file and the entry's own in a library, and is weak exactly if the entry is or it comes from a library |
| Symbols.NobodyClaims | src/passes.cc:287-300 | A symbol that nobody claims stays cleared |
| Symbols.FieldsAreDetermined | src/input-files.cc:1756-1769 | These fields are the same in every permutation of the claims if and only if no proxy claim wins over a direct claim that has something to record |
| Symbols.StaleFields | src/input-files.cc:1756-1769 | A case where they are not: an archive member's weak definition loses to a library's default version, and its value stays exactly if it comes first |
| GdbIndex.Layout | src/gdb-index.cc:905-933 | Type vectors of four bytes per occurrence and four more, and strings with their NUL, get consecutive, separate parts that make up the whole pool |
| GdbIndex.NamesAreDistinct | src/gdb-index.cc:905-933 | No name has offset zero, so no occupied slot looks empty, and no two names share an offset |
| GdbIndex.ProbeInjective | src/gdb-index.cc:983-989 | An odd step in a power-of-two table does not repeat a slot before it has been everywhere |
| GdbIndex.ProbeCovers | src/gdb-index.cc:983-989 | The probe sequence visits every slot |
| GdbIndex.Insert | src/gdb-index.cc:979-993 | Insertion ends at a vacant slot, and every name so far is still reached before any empty slot |
| GdbIndex.Build | src/gdb-index.cc:974-993 | The table has more slots than names and places every name, and nothing else |
| GdbIndex.FindsEveryName | src/gdb-index.cc:983-993 | Following the probe sequence of a name's hash finds that name with its own type vector |
| GdbIndex.FindsNothingElse | src/gdb-index.cc:983-993 | A name that was not inserted is not found |
| GdbReader.StepIsStride | src/gdb-index.cc:979-989 | The step is `(hash * 17) & mask` with its lowest bit set, in 32-bit arithmetic, bit by bit |
| GdbReader.Lookup | src/gdb-index.cc:979-993 | A reader that starts at `hash & mask`, goes on by that step and stops at the name or at an empty slot ends, finds every name of the table with its own type vector, and nothing else |
| RadixSort.Count | src/gdb-index.cc:224-226 | The histogram counts the elements of each byte |
| RadixSort.PrefixSums | src/gdb-index.cc:228-231 | The offsets are where each byte's elements start |
| RadixSort.Pass | src/gdb-index.cc:223-237 | A pass moves the elements to the other buffer by byte, and keeps the order of those with equal bytes |
| RadixSort.BucketedIsPermutation | src/gdb-index.cc:233-236 | A pass loses and makes up nothing |
| RadixSort.BucketedIsSorted | src/gdb-index.cc:223-238 | A pass over a sequence sorted by its low bytes sorts it by one byte more |
| RadixSort.Sort | src/gdb-index.cc:218-241 | For every length, the original buffer ends up a sorted permutation of the 32-bit values it held |
| Shrink.KeptAt | src/input-sections.cc:254-276 | A byte that stays is found in the output, moved back by the number of removed bytes before it |
| Shrink.TotalGone | src/arch-riscv.cc:1043-1049 | The last delta is the number of bytes removed in all |
| Shrink.WriteTo | src/input-sections.cc:254-276 | The piecewise copy fills the output, which is shorter by the last delta, with exactly the bytes that stay, in order |
| Shrink.DeltaIsGone | src/shrink-sections.cc:69-75 | The delta looked up for a place is the number of removed bytes before it, if and only if the place is not in the middle of a removed range |
| Shrink.DeltaRunsAhead | src/shrink-sections.cc:69-75 | Two bytes into four removed ones the looked-up delta is four, and the displacement two |
| Shrink.GetDelta | src/shrink-sections.cc:69-75 | The binary search returns the delta of the last entry strictly before the place |
| Shrink.Displacements | src/arch-riscv.cc:270-288 | One forward cursor over sorted relocations computes the same delta for each of them, and the bytes removed right there |
| Shrink.RemovedHere | src/arch-riscv.cc:270-288 | The bytes removed right there are how much further the next place moves, are all removed, and are some exactly where a removed range begins |
| Shrink.PointsToSameByte | src/shrink-sections.cc:97-104 | A symbol or relocation at a byte that stays points to that byte in the output |
| Relax.NopsSuffice | src/arch-riscv.cc:907-921 | NOPs reach a power-of-two boundary from every multiple of g if and only if they are not negative and at most g short of the boundary's size |
| Relax.RiscvReadsBoundary | src/arch-riscv.cc:907-921 | From a - g bytes of NOPs the boundary a is read back exactly if a is more than 2g |
| Relax.RiscvLands | src/arch-riscv.cc:907-921 | From a multiple of g behind a - g bytes of NOPs, the instruction lands on a multiple of a exactly if a is more than 2g or it is on one already |
| Relax.RiscvMisaligns | src/arch-riscv.cc:907-921 | Two bytes of NOPs at 0x1002, meant for a 4-byte boundary, both go, and the instruction stays at 2 mod 4 |
| Relax.LoongarchSuffices | src/arch-loongarch.cc:913-942 | The NOPs of an R_LARCH_ALIGN suffice from every multiple of four exactly if the alignment is at least four |
| Relax.LoongarchGrows | src/arch-loongarch.cc:913-942 | An alignment of one at 0x1000 removes minus three bytes |
| Relax.AlignRemoves | src/arch-riscv.cc:907-921 | In 64-bit arithmetic, with enough NOPs, exactly those not needed to reach the boundary are removed |
| Relax.ShrinkSection | src/arch-riscv.cc:886-1050 | For every well-formed section: removed ranges are in order and apart, every alignment puts the next instruction on its boundary with the fewest NOPs, at the scanned address and at every other that differs by a multiple of the boundary, every relaxed instruction loses its bytes, nothing else goes, and the new size is what is left |
| Arm64Thunk.StaysShort | src/arch-arm64.cc:657-666 | If since the thunk was sized the distance has only moved toward zero, a short entry's page displacement still fits in 33 bits |
| Arm64Thunk.MarginIsNeeded | src/arch-arm64.cc:657-666 | Without the margin of a page it would not |
| Arm64Thunk.ShortReaches | src/arch-arm64.cc:679-708 | The short sequence, decoded and executed, branches to the target if and only if the page displacement fits in 33 bits |
| Arm64Thunk.LongReaches | src/arch-arm64.cc:686-715 | The long sequence branches to the target from everywhere, modulo 2^64 |
| Arm64Thunk.ShrinkSize | src/arch-arm64.cc:649-675 | Every entry is 12 bytes for a near target and 24 otherwise, one after the other |
| Arm64Thunk.NearIsShort | src/arch-arm64.cc:649-675 | An entry takes 12 bytes if its target is nearer than 4 GiB less two pages, and 24 if it is not nearer than 4 GiB |
| Arm64Thunk.CopyBuf | src/arch-arm64.cc:677-717 | Every entry's instructions end up at its offset |
| Arm64Thunk.EntriesReach | src/arch-arm64.cc:649-717 | Every entry branches to its target if distances have only moved toward zero since sizing |
| Crc32.EightSteps | lib/crc32.cc:13-31 | Eight bit steps take in the lowest byte of a word and leave the rest of it for later |
| Crc32.WordAtOnce | lib/crc32.cc:13-31 | Four bytes one by one are the same as a whole word in 32 steps |
| Crc32.ForwardBack | lib/crc32.cc:17-21 | One round of the solver is undone by one step of the checksum |
| Crc32.BackForward | lib/crc32.cc:17-21 | And the other way around |
| Crc32.Solve | lib/crc32.cc:13-31 | The 32 rounds compute the solution, lowest byte first |
| Crc32.Forges | lib/crc32.cc:8-31 | For all data and every desired value, appending four bytes makes the CRC-32 of section 8 of RFC 1952 the desired one if and only if they are the solver's |
| CrcDivision.CrcIsRemainder | lib/crc32.cc:8-12 | The checksum is the complement of the one remainder of the message, times x^32 and with its first 32 bits complemented, divided by the generator polynomial of CRC-32 |
| Arith.BitCeil | lib/lib.h:212-217 | The least power of two that is not below the value |
| Arith.AlignTo | lib/lib.h:254-259 | The least multiple of the alignment that is not below the value, and the value itself for an alignment of zero |

## Left out

- Weak memory orderings: the concurrent models interleave atomic operations sequentially; acquire and release pairs appear as the claimed and published states.
- SipHash and other hash functions: ICF is proved for a hash that does not collide among the inputs of a round, and the digest table for digests that its slots can tell apart.
- ConcurrentMap: one shard at a time, with a key's home bucket in the shard as a given function of the key; keys are compared as strings, and the values' constructors are values.
- `std::sort`, `ranges::unique`, `ranges::lower_bound` and `std::upper_bound` are modelled by simple loops with the same contract.
- The parallel prefix sum of the `.gdb_index` pool is a sequential loop, and pools of 4 GiB and more, whose offsets the 32-bit format cannot hold, are not modelled.
- GdbReader.Lookup: a name is identified with its offset in the pool, in place of comparing strings.
- GcSections: `should_keep()`, `is_c_identifier()` and what a relocation's symbol resolves to are fields of the model; the handling of `--undefined` and `--require-defined` and the removal of unneeded libraries from the list are left out.
- Symbols: files' reachability is fixed, a definition in a dead section is not a claim, and one claim per file and symbol is assumed; `mark_live_objects` and visibility merging are left out.
- Relax.LoongarchAlign: takes the alignment; the fatal errors for malformed R_LARCH_ALIGN addends, and shifts of 31 and more, are not modelled.
- Relax: the decision how many bytes a relaxable relocation saves, one shallow branch per relocation type, is a field of the relocation.
- Arena: the 8 GiB arena of 64-bit hosts only; running out of memory ends the thread.
- Arm64Thunk: the meaning of the seven instruction forms in thunks is written out in the model.
- Crc32: the parallel checksum with zlib's `crc32_combine` is foreign code.
- Per-relocation switches, PLT templates and instruction tables of the architectures: wide but shallow.
- Command line, linker scripts, archives, ELF and DWARF parsing, LTO, output files: input and output, or little invariant structure.
- HyperLogLog and LEB128 helpers: an estimate without an exact property, and easy members.
