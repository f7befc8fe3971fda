# A verified model of AFL with controlled compilation

This project models the parts of the fuzzer and of its compiler passes whose correctness rests on an
argument rather than on reading one function, and proves those arguments.

**Compiler passes.** `Ir` is a small intermediate representation in static single assignment form, with
an interpreter: blocks with phis, integers of any width as natural numbers, shifts, truncations,
comparisons, selects, byte loads, opaque instructions whose meaning is a parameter, branches and returns.
Two functions are equivalent when they return, crash and diverge alike on every input and for every
meaning of the opaque instructions. `Splice` is the surgery that all passes share: cut a block at an
instruction, insert blocks that do its work, merge the results in a phi. `Expansions`, `CompareToUnit`,
`ByteOrder`, `SelectToBranch`, `StrCompare` and `EdgeCounters` are the rewrites and what they mean;
`Census` counts instructions through them. `Editor`, `CompareToUnitPass` and `EdgePass` are the passes as
they edit a function in place, each method proved against the rewrite it performs. `LibraryCall` follows a function
and its copy in step to put the library's own comparison in the place of the chain's value.

**Minimisers.** `Blocks` has the block deletions both minimisers use. `Minimize` describes the passes of
afl-tmin without their short cuts and proves what they achieve; `TestMin` is the program with its buffers,
flags and skip rules, proved to leave the same bytes. `TrimCase` is the trimmer of the fuzzer.

**Fork server.** `ForkServer` is a transition system of fuzzer, timer, server and children over two pipes
and a shared map. Every statement holds in every state of every interleaving.

**Mutation.** `Reachable` has the two helpers that recognise what earlier stages made. `BitFlips` and `Stages`
list what the deterministic stages for single bytes should execute and count every change in that list;
`StageRuns` is the loops over one buffer, each proved to execute that list. `Tokens` is where tokens come
from, `Overwrite` the stages that write them, `Havoc` the stacks of random tweaks, whatever the random numbers
are, and splicing.

**Fuzzer state.** `QueueScore` is the bookkeeping of favored entries, `VirginMap` the maps of untouched
bits and the condensing of traces, `Hash32` the trace checksum, `Dictionary` the way of a token from an
instruction through the dictionary file into the fuzzer. `Bitwise`, `BitMaps` and `Bytes` are shared.

**Coverage and allocation.** `Coverage` goes from the source lines recorded for each block, through the mapping
file, the traced runs and the bitmap, to the lines reported as covered. `Dislocator` is the allocator that
puts every block before a guard page, on a page table and a memory of bytes.

Conventions: a class stands for mutable state of the source, its methods say what they change; functions
over values are the specifications they are proved against. Fixed-width arithmetic is written out where it
can wrap around. The target program is a function from inputs to outcomes, that is, deterministic.

## Model

| member | source | states |
|---|---|---|
| CompareToUnit.ConvertPreserves | llvm_mode/compare-to-unit.so.cc:91-728 | in every mode, for every well-formed function: simplifying inclusive compares, then signedness, then halving at 64, 32, 16 and 8 bits gives the same results, crashes and divergence on every input and for every meaning of opaque instructions; phis keep one entry per predecessor edge, names stay in single assignment |
| CompareToUnit.GivesUpExactly | llvm_mode/compare-to-unit.so.cc:210-348 | the pass stops with its assertion exactly when a strict signed comparison wider than 64 bits is present, before or after the inclusive ones were split |
| CompareToUnit.ConvertCounts | llvm_mode/compare-to-unit.so.cc:507-728 | under ALL a w-bit equality ends as exactly w/8 byte comparisons and a w-bit order comparison as exactly 3^log2(w/8) |
| CompareToUnit.LeftoversAreMagic | llvm_mode/compare-to-unit.so.cc:467-501 | under ALL every comparison of 16, 32 or 64 bits that remains is a standard-magic one |
| CompareToUnit.NotDictConverts | llvm_mode/compare-to-unit.so.cc:560-728 | under NOT_DICT a w-bit order comparison ends as exactly 3^log2(w/8) byte comparisons; the equalities with a constant, those made of inclusive comparisons included, all keep their width, and all other equalities of w bits end as w/8 byte comparisons |
| CompareToUnit.LeftoversHaveWords | llvm_mode/compare-to-unit.so.cc:578-592 | under NOT_DICT every comparison of 16, 32 or 64 bits that remains is a standard-magic one, or an equality of the original with a constant that carries the bytes of this constant as its word |
| CompareToUnit.NoneOnlyRecords | llvm_mode/compare-to-unit.so.cc:578-587 | under NONE the function stays the same but for the words: every equality with a constant of 8, 16, 32 or 64 bits has its own, unless it is a standard-magic one |
| CompareToUnit.RecordedHasWord | llvm_mode/compare-to-unit.so.cc:386-465 | the word recorded is the constant itself, as many bytes as it has, the least significant one first |
| CompareToUnit.SharesConserved | llvm_mode/compare-to-unit.so.cc:595-724 | no single expansion loses or adds byte comparisons: what a comparison is going to become is shared out exactly among those that replace it |
| CompareToUnit.RecordedOnce | llvm_mode/compare-to-unit.so.cc:386-465 | the assertion that a comparison to be recorded carries no dictionary word yet never fails |
| CompareToUnit.ConvertWords | llvm_mode/compare-to-unit.so.cc:386-728 | over the whole pass the dictionary words attached to comparisons are exactly the recorded constants, each once |
| CompareToUnitPass.SplitInclusive | llvm_mode/compare-to-unit.so.cc:155-206 | editing blocks, terminators and phis in place yields exactly the function with the inclusive comparison cut in two |
| CompareToUnitPass.SplitSigned | llvm_mode/compare-to-unit.so.cc:263-346 | the same for a signed comparison: sign bits first, then signs or unsigned values |
| CompareToUnitPass.HalveEquality | llvm_mode/compare-to-unit.so.cc:595-655 | the same for an equality: high halves, then low halves; the dictionary word moves to the high halves |
| CompareToUnitPass.HalveOrder | llvm_mode/compare-to-unit.so.cc:656-724 | the same for an unsigned order comparison: high halves, inverse of the high halves, low halves |
| CompareToUnitPass.SimplifyCompares | llvm_mode/compare-to-unit.so.cc:91-207 | collecting the inclusive comparisons and rewriting them one after the other, wherever they have moved, computes the stage |
| CompareToUnitPass.SimplifySignedness | llvm_mode/compare-to-unit.so.cc:210-348 | the same for signed ones; reports the failed assertion exactly when a signed comparison is too wide |
| CompareToUnitPass.HalfComparesAndRecord | llvm_mode/compare-to-unit.so.cc:507-728 | the same for one width: record, then halve, as the mode says |
| CompareToUnitPass.RunOnModule | llvm_mode/compare-to-unit.so.cc:761-770 | the stages in the order of the pass compute the converted function, or stop at the failed assertion |
| ByteOrder.BytesDenote | llvm_mode/compare-to-unit.so.cc:595-655 | the bytes that the expansion compares, most significant first, denote the value |
| ByteOrder.OrderIsLexicographic | llvm_mode/compare-to-unit.so.cc:656-724 | equality and unsigned order of values are equality and lexicographic order of their bytes, most significant first |
| ByteOrder.EqualityExecutes | llvm_mode/compare-to-unit.so.cc:595-655 | an expanded w-bit equality executes one byte comparison more than there are equal leading bytes, at most w/8 |
| ByteOrder.OrderExecutes | llvm_mode/compare-to-unit.so.cc:656-724 | how many byte comparisons an expanded order comparison executes, exactly: a function of the number of bytes, the number of equal leading bytes, and which way the first different byte decides |
| ByteOrder.OrderExecutesAtMost | llvm_mode/compare-to-unit.so.cc:656-724 | at least 1 and at most 1, 3, 9 or 27 for 8, 16, 32 or 64 bits; the most is executed if and only if all bytes but perhaps the last are equal |
| Splice.CutPreserves | llvm_mode/compare-to-unit.so.cc:155-206 | splitting a block at an instruction, inserting blocks that do its work and merging by a phi preserves behaviour; used by all passes |
| Splice.CutKeepsShape | llvm_mode/compare-to-unit.so.cc:155-206 | and keeps names in range, edges inside the function and one phi entry per predecessor edge |
| SelectToBranch.ConvertAllPreserves | llvm_mode/select-to-branch.so.cc:110-144 | replacing every select by a diamond with a phi, in whatever order the set of pointers is iterated, preserves behaviour and well-formedness and leaves no select |
| SelectToBranch.SplitSelect | llvm_mode/select-to-branch.so.cc:117-141 | three block splits, two new terminators and a phi, done in place, make exactly the diamond |
| SelectToBranch.RunOnModule | llvm_mode/select-to-branch.so.cc:95-144 | the loop over the set of selects computes the converted function for some listing of the set |
| EdgeCounters.InstrumentationCounts | llvm_mode/afl-llvm-pass-no-collision.so.cc:156-209 | for every order of the edges of branches and invokes: a run of the original ends the same way in the instrumented function, and counter i+1 ends at its start plus the traversals of edge i, modulo 256; and conversely |
| EdgePass.IndirectIsCountedIff | llvm_mode/afl-llvm-pass-no-collision.so.cc:136-209 | an indirect branch jumps to the address it holds, which no edit changes: in whatever order the wanted edges are instrumented, a jump over one of them is defined afterwards if and only if the edge is the only way into its target, and is then counted; otherwise the branch no longer lists the target, however often it did |
| EdgePass.IndirectCanBreak | llvm_mode/afl-llvm-pass-no-collision.so.cc:373-375 | a function with an indirect branch, accepted by the pass, whose jump is undefined after its edges were instrumented |
| EdgePass.IdsFit | llvm_mode/afl-llvm-pass-no-collision.so.cc:393-408 | whatever the order of the edges, ids start at 1, different edges have different ids, an edge listed once has one id, and all ids lie below the map size computed from the final edge count |
| EdgePass.MapSizeFits | utils.h:16-21 | the map size is the least multiple of 8 with room for all counters |
| EdgePass.InstrumentInstruction | llvm_mode/afl-llvm-pass-no-collision.so.cc:156-209 | instrumenting one edge in place yields the function with the counter at the target or in a new block; the assertion that no block is instrumented twice holds |
| EdgePass.RunOnModule | llvm_mode/afl-llvm-pass-no-collision.so.cc:310-408 | recording the edges and instrumenting them in the order of the set yields every wanted edge once, with consecutive ids |
| EdgePass.WhichEdges | llvm_mode/afl-llvm-pass-no-collision.so.cc:321-388 | in terms of terminators: both ways out of every conditional branch are recorded, all ways out of every invoke, all ways out of a block with a dictionary word, and no other unconditional branch |
| EdgePass.BranchesAreCounted | llvm_mode/afl-llvm-pass-no-collision.so.cc:310-408 | after the whole pass, in every run, each way out of each conditional branch has a counter of its own that ends at its start plus the times that way was taken, modulo 256 |
| StrCompare.ChainPreserves | llvm_mode/strcompare-to-unit.so.cc:326-398 | a comparison call may be replaced by the chain of blocks: same value, same crashes, well-formed result |
| StrCompare.SplitCall | llvm_mode/strcompare-to-unit.so.cc:326-398 | building the chain block by block in a loop, with the phi at the end, makes exactly that function |
| StrCompare.ZeroIffMemcmp | llvm_mode/strcompare-to-unit.so.cc:340-392 | the chain yields zero exactly when the bytes are equal |
| StrCompare.ZeroIffStrcmp | llvm_mode/strcompare-to-unit.so.cc:262-274 | for literals whose only NUL is the last byte it yields zero exactly when strcmp or strncmp does, and reads no byte that they would not read |
| StrCompare.NeverPastNul | llvm_mode/strcompare-to-unit.so.cc:340-392 | it never reads behind the NUL of the compared string |
| StrCompare.SignIsKeptIff | llvm_mode/compare-transform-pass.so.cc:186-193 | at the first different byte the value has the sign of the difference of the bytes, and equals it, if and only if that difference fits a signed byte; for both orders of the operands |
| StrCompare.SignIsNotKept | llvm_mode/compare-transform-pass.so.cc:186-193 | for example it does not for the literal byte 200 and the memory byte 10 |
| StrCompare.ReversedAgrees | llvm_mode/compare-transform-pass.so.cc:186-193 | whichever operand is subtracted from the other, the chain reads the same bytes and is zero for the same strings |
| LibraryCall.ChainReplacesLibrary | llvm_mode/strcompare-to-unit.so.cc:326-398 | where the result is only compared with zero for equality, the chain replaces a call of the library function itself, whose values for different strings are arbitrary: same results, crashes and divergence |
| LibraryCall.StrcmpCompares | llvm_mode/strcompare-to-unit.so.cc:262-274 | strcmp and strncmp are such functions, for literals without an inner NUL |
| Minimize.MinimizedEmbeds | afl-tmin.c:415-651 | the minimised test case satisfies the oracle if the input did, and is the input with bytes dropped or replaced by the filler |
| Minimize.MinimizedIsOneMinimal | afl-tmin.c:471-549 | deleting any single byte of the result is rejected; so is deleting any aligned block of the lengths a further pass would try |
| Minimize.UnchangedIff | afl-tmin.c:415-651 | an input comes out as it was if and only if no aligned block of the normalization length can be blanked, no aligned block deleted at any length from a sixteenth down to one byte, no symbol replaced everywhere, and no byte blanked |
| Minimize.NormalizedBlockByBlock | afl-tmin.c:437-464 | every aligned block of the input, the last one perhaps shorter, becomes filler if the oracle accepts that with the blocks before it as decided and those behind it as given, and else stays |
| Minimize.AlphabetSymbolBySymbol | afl-tmin.c:569-592 | for every symbol all occurrences become filler if the oracle accepts that with the smaller symbols as decided and the larger ones as given, and else all stay |
| Minimize.BlankableOnlyBeforeBlanked | afl-tmin.c:598-634 | a byte of the result can be blanked only if a later byte was blanked in the last character sweep that ran; so none can if that sweep changed nothing |
| Minimize.BlankMinimalIff | afl-tmin.c:598-634 | no byte of the result can be blanked if and only if none can that stands before one blanked in the last character sweep |
| Minimize.UnchangedIsBlankMinimal | afl-tmin.c:598-634 | if the first pass changes nothing, no single byte of the result can be blanked |
| Minimize.BlankMinimalityCanFail | afl-tmin.c:547-549 | in general it can: an input and an oracle for which the early end of the second pass leaves a byte that could be blanked |
| Blocks.EqualNeighbours | afl-tmin.c:500-511 | deleting a block equal to the one before it leaves the same bytes, so skipping it after a rejection is sound |
| Blocks.EmbeddingIsLighter | afl-tmin.c:471-634 | every change takes from the length plus the number of bytes that are not the filler, which is why the passes end |
| Blocks.RoundUp | afl-tmin.c:402-410 | the doubling loop on 32-bit words ends with the least power of two that is not smaller |
| TestMin.Minimizer.RunTarget | afl-tmin.c:351-396 | after the first run, later verdicts accept exactly the runs alike to it: same crash status, and same checksum unless crashes need not match exactly |
| TestMin.Minimizer.DeleteBlocks | afl-tmin.c:483-537 | the in-place sweep with its skip rule leaves exactly what the plain sweep leaves |
| TestMin.Minimizer.AlphabetMinimization | afl-tmin.c:551-590 | counting symbols and trying only those that occur leaves what trying all 256 would leave |
| TestMin.Minimizer.CharacterMinimization | afl-tmin.c:598-630 | the same for single bytes, with the scratch buffer kept in step |
| TestMin.Minimizer.Minimize | afl-tmin.c:415-651 | all passes, with their flags and early end, compute the minimised test case, and end |
| TestMin.Minimizer.Run | afl-tmin.c:1123-1142 | the whole run: a first run that times out is fatal, otherwise the result is alike to the input's run, embedded in the input, and 1-minimal |
| TrimCase.TrimmedKeeps | afl-fuzz.c:5012-5115 | trimming keeps the checksum, leaves a subsequence, and of five bytes or more keeps the first four |
| TrimCase.NothingToTrimIff | afl-fuzz.c:5012-5115 | a test case comes out as it was if and only if it is too short, or no chunk behind the first one can go, for any of the lengths from a sixteenth of the length, rounded up to a power of two, halved down to a 1024th, at least four |
| TrimCase.Trimmer.WriteWithGap | afl-fuzz.c:2968-2994 | rewriting the file in place and cutting it to size, or removing and creating it where the user named it, leaves exactly the test case without the chunk |
| TrimCase.Trimmer.TrimChunks | afl-fuzz.c:5045-5092 | a sweep with one chunk length; the number of executions does not depend on which chunks go |
| TrimCase.Trimmer.TrimCase | afl-fuzz.c:5012-5121 | the loop over shrinking chunk lengths ends with the trimmed test case in memory and on disk and a trace of the right checksum to be scored again, exactly when something went |
| ForkServer.AtMostOneUnreapedChild | llvm_mode/afl-llvm-rt.o.c:180-283 | in every interleaving of fuzzer, timer, server and children at most one child is not reaped, and the server knows it |
| ForkServer.ContinueReachesALiveStoppedChild | llvm_mode/afl-llvm-rt.o.c:249-255 | the continue signal only reaches a child that is stopped and not about to die |
| ForkServer.ChildTracesAsAsked | llvm_mode/afl-llvm-rt.o.c:242-243 | only the child of the present request runs, it traces exactly when the request says so, and when the fuzzer has its answer the shared map holds exactly the blocks traced since the slate was last wiped, which the request does, and a persistent child once more as it first enters its loop; without tracing the map is as the request left it |
| ForkServer.RepliesAlternate | afl-fuzz.c:2837-2882 | replies are a process number and a status of that very process in turn; the fuzzer never takes one for the other |
| ForkServer.KilledBitIsExact | llvm_mode/afl-llvm-rt.o.c:208-220 | a request says killed about a stopped child exactly when the timer has shot at it |
| ForkServer.NeverStuck | llvm_mode/afl-llvm-rt.o.c:222-233 | the server never gives up and no interleaving deadlocks |
| ForkServer.StatusesAreRelayed | llvm_mode/afl-llvm-rt.o.c:265-277 | in every state of every run the replies are just the numbers of the children and, as the server waits for each, what became of it last according to the history: the signal or code it ended with, or that it stopped |
| ForkServer.EndsAreFinal | llvm_mode/afl-llvm-rt.o.c:265-277 | a reply that a process is over tells the way in which the history says it ended, and that never changes |
| ForkServer.FuzzerLearnsTheEnd | afl-fuzz.c:2866-2882 | when the fuzzer has read a status that is not a stop, its child has ended in this very way |
| ForkServer.StopsAreCounted | llvm_mode/afl-llvm-rt.o.c:288-348 | a persistent child stops exactly once less than its loop has rounds before it leaves the loop, and never more often; zero rounds wrap around; another child never stops |
| QueueScore.Queue.WinSlot | afl-fuzz.c:1336-1362 | taking a slot, perhaps from oneself, keeps reference counts equal to the slots held and compact traces for exactly the holders |
| QueueScore.Queue.UpdateBitmapScore | afl-fuzz.c:1326-1366 | the loop over the trace: who holds which slot afterwards, which compact traces stay, and when the entry's own is made anew |
| QueueScore.CoverageAfterScoring | afl-fuzz.c:1357-1360 | the compact trace of the scored entry covers all its slots if and only if it starts afresh or covered the newly won slots before |
| QueueScore.ScoringKeepsCheapest | afl-fuzz.c:1326-1366 | every slot that a scored entry hits stays held by a cheapest scored entry that hits it |
| QueueScore.Queue.HoldersAreCheapest | afl-fuzz.c:1326-1366 | in every valid queue the holder of a slot has a product of time and length no larger than that of any scored entry that hits the slot |
| QueueScore.Queue.WinsBySmallerProduct | afl-fuzz.c:1327-1345 | a scored entry takes a slot that it hits if and only if the slot is free or its product is no larger than the holder's |
| QueueScore.Queue.Calibrated | afl-fuzz.c:3054-3170 | the checksum is that of the first run, unless there was one; the entry is scored for the first time by the last run, which keeps all of this |
| QueueScore.Queue.Trimmed | afl-fuzz.c:5062-5113 | the entry is scored again exactly when the run of the trimmed case has its checksum, and all of this is kept if runs with that checksum hit the same bytes |
| QueueScore.GreedyCovers | afl-fuzz.c:1397-1415 | every held slot is covered by a favored entry |
| QueueScore.GreedyIsDistinct | afl-fuzz.c:1397-1415 | while every holder's compact trace has all its slots, no entry is selected twice |
| QueueScore.RepeatsIff | afl-fuzz.c:1397-1415 | an entry is selected and counted twice if and only if some held slot is in no compact trace selected so far, its own holder's included, and that holder was selected for an earlier slot |
| QueueScore.DistinctIff | afl-fuzz.c:1397-1415 | selections are without repetition whatever is left to cover if and only if each holder's compact trace has all its slots but perhaps the first |
| QueueScore.ScoreAgainElsewhere | afl-fuzz.c:3073-3170 | a run that gets there, with a target that does not always do the same and any checksum that is not zero there: the first calibration run gives the checksum, the last one the score; a trimmed run like the first one has that checksum and is scored on another byte; culling then counts the entry twice though one entry is favored |
| QueueScore.Queue.CullQueue | afl-fuzz.c:1375-1424 | exactly the greedy picks become favored and each is counted; the number of favored entries is right if and only if no pick repeats; in a queue scored with one trace support per entry both counters are exact and the favored entries cover every held slot |
| QueueScore.Queue.MarkFuzzed | afl-fuzz.c:7178-7182 | the count of pending favored entries stays exact when an entry was fuzzed |
| QueueScore.MinimizeBits | afl-fuzz.c:1300-1310 | dropping the counts keeps exactly the positions hit |
| VirginMap.HasNewBits | afl-fuzz.c:960-1027 | word by word: returns 2 exactly if a hit byte was pristine, else 1 exactly if some bit is new, else 0, and clears exactly the bits of the trace |
| VirginMap.ClassifyCounts | afl-fuzz.c:1228-1251 | two counts at a time through the 16-bit table, skipping zero words, classifies every byte |
| VirginMap.ClassOfBucket | afl-fuzz.c:1196-1208 | the class of a count is the bit of the one range of counts that it is in: 1, 2, 3, 4 to 7, 8 to 15, 16 to 31, 32 to 127, 128 and more |
| VirginMap.ClassifiedAlikeIff | afl-fuzz.c:1228-1251 | two traces are the same after classification if and only if every byte is in the same range |
| VirginMap.InitCountClass16 | afl-fuzz.c:1213-1226 | the table holds the classes of both bytes of every index |
| VirginMap.SimplifyTrace | afl-fuzz.c:1125-1161 | skipping zero words, every byte becomes 1 or 128 |
| VirginMap.SimplifiedTells | afl-fuzz.c:1125-1161 | a simplified trace has 1 exactly where nothing was hit and 128 elsewhere; two are the same if and only if they hit the same bytes |
| VirginMap.MapIsComplement | afl-fuzz.c:960-1027 | over any run the map is what it started from minus the union of the traces seen |
| VirginMap.NewBitsAreBounded | afl-fuzz.c:960-1027 | at most eight inputs per byte of the map ever bring new bits |
| VirginMap.NewSimplifiedAreBounded | afl-fuzz.c:3796-3803 | at most two simplified traces per byte do |
| VirginMap.NewTuplesAreBounded | afl-fuzz.c:960-1027 | at most one input per byte is ever reported as hitting something for the first time |
| Hash32.Checksum | hash.h:36-100 | the loop over words and the final mixing compute the state, cut to 32 bits; both variants |
| Hash32.NeverCollide | hash.h:36-100 | maps of equal length that differ in exactly one word never have the same checksum in the 32-bit variant, nor the same state before truncation in the 64-bit variant |
| Hash32.FoldInjective | hash.h:46-58 | no round forgets anything about the state before it |
| Hash32.MixInjective | hash.h:60-64 | a right shift mixed in with exclusive or can be undone, for every shift |
| Hash32.KnownAnswers | hash.h:36-100 | the checksum of one given word in both variants, worked out by hand; it depends on all rotations, shifts and factors |
| Dictionary.Stringify | llvm_mode/utils.cc:304-351 | prints a token of 1 to 56 bytes, escaping as documented, in at most 224 characters, and drops a final NUL of a text |
| Dictionary.Instruction.RecordDict | llvm_mode/utils.cc:193-215 | stores name="value", or nothing for an empty token; fails on a printed value without quotes |
| Dictionary.CopyDict | llvm_mode/utils.cc:184-191 | a copy of a recorded token is exact |
| Dictionary.MetaReadsBack | llvm_mode/utils.cc:267-284 | splitting the stored text at the equals sign gives back name and quoted value |
| Dictionary.Loader.LoadLine | afl-fuzz.c:1893-1910 | the pointer loops over a line find what the grammar of a line says, or fail as it says |
| Dictionary.Loader.LoadFile | afl-fuzz.c:1871-2108 | line after line, a whole file loads what its lines say or fails as the first bad one says |
| Dictionary.Unescape | afl-fuzz.c:2016-2060 | unescaping into the 256-byte buffer, with its error cases |
| Dictionary.EscapedDecodes | afl-fuzz.c:2025-2056 | unescaping undoes escaping in every style |
| Dictionary.TokenRoundTrip | llvm_mode/afl-llvm-pass-parent.cc:223-236 | a token goes from the instruction through the file into the fuzzer with the same bytes, but for a text's final NUL, and the same 32-bit index |
| Dictionary.FileRoundTrip | llvm_mode/afl-llvm-pass-parent.cc:104-128 | an optimized dictionary file loads exactly the tokens it was written from, in order |
| Dictionary.TokencapDump | libtokencap/libtokencap.so.c:99-135 | the run-time collector's printer never overflows its buffer |
| Dictionary.CollectedRoundTrip | libtokencap/libtokencap.so.c:99-135 | what it prints parses back, unless nothing is left of the token |
| Dictionary.PlainDictionaryLoads | afl-fuzz.c:1871-2108 | a plain dictionary fails to load if and only if some line does not parse or has a token of more than 128 bytes; otherwise exactly the tokens of its lines are loaded, each once by its bytes |
| Dictionary.LevelsFilter | afl-fuzz.c:1986-1997 | a token with a level behind its name is skipped if and only if the level is above the one asked for, and else loaded with its bytes |
| Dictionary.PrintsItselfIff | llvm_mode/utils.cc:304-351 | a token is printed as it is if and only if it is empty or text of printable characters without quotes, backslashes and, but for the run-time collector, equals signs |
| Reachable.CouldBeBitflip | afl-fuzz.c:5305-5331 | answers yes exactly for zero and for a run of 1, 2 or 4 ones anywhere or 8, 16 or 32 ones at a byte boundary |
| Reachable.CouldBeArith | afl-fuzz.c:5334-5405 | answers yes exactly if some byte, some aligned word in either byte order, or the whole double word in either order is off by 1 to 35, wrapping around, and all else is equal |
| Stages.CountFlips | afl-fuzz.c:5650-5895 | over the walking flips of 1, 2 and 4 bits and of bytes, every change of one byte that passes for a bit flip is executed exactly once, and no other change of one byte at all |
| Stages.EveryMutantOnce | afl-fuzz.c:5650-6286 | over all single-byte stages every change of one byte is executed at most once, and it is exactly if it passes for a bit flip, or the effector map marks its block and it is a small sum or difference with arithmetic on, or an interesting value that is neither |
| StageRuns.NeverTwice | afl-fuzz.c:5994-6024 | nor is any executed twice before the entry is abandoned midway |
| StageRuns.EffMapCovers | afl-fuzz.c:5825-5885 | no byte whose inversion changed the trace is lost to the effector map, nor are the first and the last one |
| StageRuns.EffMapIff | afl-fuzz.c:5825-5895 | a block of eight bytes is in the map if and only if it is the first or the last one, or has a byte with an effect, or more than nine tenths of all blocks are like that |
| StageRuns.Fuzzer.FlipStage | afl-fuzz.c:5650-5808 | flipping bits in the buffer and flipping them back executes exactly the listed flips, in order, and restores the buffer |
| StageRuns.Fuzzer.ByteStage | afl-fuzz.c:5822-5885 | the same for bytes; the map built on the way marks exactly the blocks with an effect, or all of them if they are dense |
| StageRuns.Fuzzer.ArithStage | afl-fuzz.c:5981-6039 | executes exactly the sums and differences of marked bytes that pass for no bit flip |
| StageRuns.Fuzzer.InterestStage | afl-fuzz.c:6240-6282 | executes exactly the interesting values of marked bytes that pass for neither |
| StageRuns.Fuzzer.SingleByteStages | afl-fuzz.c:5650-6286 | all of them one after the other, with the effector map of this very buffer, execute exactly the listed mutants, or a beginning of them when a run asks to stop |
| Tokens.SelectExtras | afl-fuzz.c:3132-3169 | the tokens an entry gets are among those whose index it executed, every such token is there by its bytes, none twice, and the order by length stays |
| Tokens.BuiltinTest | afl-fuzz.c:2247-2267 | says yes exactly if the bytes store a built-in interesting number in one of the two byte orders |
| Tokens.NotBuiltin | afl-fuzz.c:2249-2255 | though comparing an unsigned word with a signed number misses the negative numbers: the bytes that store them are caught as swapped forms of others |
| Tokens.MatchesExtra | afl-fuzz.c:2269-2278 | the loop that starts at the first token of the same length finds a match up to case if and only if there is one |
| Tokens.AutoExtras.MaybeAddAuto | afl-fuzz.c:2233-2336 | learned tokens stay different up to case, few enough, none uniform, built in or given by the user, most used first with the top ones by length; the token is there afterwards unless it was rejected |
| Overwrite.TriedIs | afl-fuzz.c:6453-6497 | all that is executed is the original with one token written over it where the map allows, and every such input other than the original is executed |
| Overwrite.NoRepeats | afl-fuzz.c:6470-6478 | no input is executed twice in a row, nor the original first |
| Overwrite.TokenStages.OverwriteStage | afl-fuzz.c:6453-6497 | as tokens grow in length, writing the next one over the last one needs no restoring in between: exactly the original with one token each is executed, and one copy at the end restores the buffer |
| Overwrite.TokenStages.InsertStage | afl-fuzz.c:6512-6550 | keeping the head in the scratch buffer and copying one byte more each time, exactly the original with one token inserted is executed, unless it were too long |
| Overwrite.InsertedAllIs | afl-fuzz.c:6512-6550 | the inputs of that stage are exactly the original with one token at one position, both ends included, that is no longer than a file may be |
| Overwrite.TokenStages.DictionaryStages | afl-fuzz.c:6433-6603 | user tokens over, user tokens between, top learned tokens over: exactly that is executed and the buffer restored, or a beginning of it when a run asks to stop |
| Havoc.ChooseBlockLen | afl-fuzz.c:5187-5224 | the length is at least one and neither above the limit nor above the largest block, whatever is drawn; in the first cycle, or early in a run, it stays small, in the second medium |
| Havoc.RunInBounds | afl-fuzz.c:6669-7033 | no stack of legal tweaks empties the buffer or makes it longer than a file may be |
| Havoc.Havoc.TweakOnce | afl-fuzz.c:6669-7033 | every case of the switch, whatever is drawn, stays inside the buffer and does exactly what one legal tweak of the drawn kind does to its contents, with overlapping copies and both byte orders; nothing happens only where the source breaks out |
| Havoc.Havoc.Round | afl-fuzz.c:6660-7048 | one round executes one input, the result of a power of two, from 2 to 128, of such tweaks of the original, and puts buffer and length back |
| Havoc.Havoc.HavocStage | afl-fuzz.c:6622-7065 | so does every round of the stage; it ends, although finds double the rounds |
| Havoc.LocateDiffs | afl-fuzz.c:567-589 | first and last position at which two buffers differ, or none |
| Havoc.Splice | afl-fuzz.c:7088-7160 | the spliced input agrees with the current one before the cut and with the other one from there on, and never is the current one; it is the other one if and only if the cut is at the first difference |
| Coverage.WriteMapping | llvm_mode/afl-llvm-pass-parent.cc:134-158 | writes one line for each block in the order of the ids, and nothing for no blocks |
| Coverage.MappingLines | python_libs/c2s.py:8-13 | reading the written mapping gives back its lines |
| Coverage.ParseLines | python_libs/c2s.py:8-13 | parsing them gives every block its lines, up to what an equals sign or a comma in a name does |
| Coverage.ShownIs | python_libs/c2s.py:12 | a block's lines come back exactly if and only if no name has a comma or equals sign, which cut it |
| Coverage.Tracer.Calibrate | afl-fuzz.c:3104-3110 | after an entry is calibrated the coverage map has the blocks it had and those of the trace, however many cycles ran |
| Coverage.ExtractBBs | python_libs/coverage.py:17-37 | the bits of the file, as numbers |
| Coverage.ExtractLines | python_libs/coverage.py:39-50 | fails exactly if a block is unknown; else the lines are those of the blocks |
| Coverage.Report | python_libs/coverage.py:63-75 | end to end: after any sequence of entries, the covered blocks are exactly those run, and the reported source lines exactly those recorded for them |
| Dislocator.Heap.Alloc | libdislocator/libdislocator.so.c:89-143 | a block ends at its guard page and is zero, the headers and contents of all others are kept, or the limit or the system says no and nothing changes |
| Dislocator.Heap.Caught | libdislocator/libdislocator.so.c:115-124 | behind every live block a whole page cannot be accessed, and of a freed block nothing can, header included |
| Dislocator.Heap.Store | libdislocator/libdislocator.so.c:84-143 | a program that writes inside live blocks never faults and never harms the allocator |
| Dislocator.Heap.OverflowTest | libdislocator/libdislocator.so.c:153-157 | dividing the wrapped product back detects exactly the products that overflow |
| Dislocator.Heap.Calloc | libdislocator/libdislocator.so.c:149-176 | on overflow no memory is taken; otherwise a zero block of the product's length |
| Dislocator.Heap.Malloc | libdislocator/libdislocator.so.c:182-194 | a block filled with the clobber byte |
| Dislocator.Heap.Free | libdislocator/libdislocator.so.c:201-225 | a live block is closed to the last page and its length given back; freeing twice faults on the canary; no pointer does nothing |
| Dislocator.Heap.Realloc | libdislocator/libdislocator.so.c:231-250 | a new block with the common beginning of the old contents, which is freed; all other blocks are kept; on failure the old one stays; an old block freed before faults, with the new one taken |

## Left out

- Compiler passes work on one function at a time; the loops over a module repeat them.
- CompareToUnit: vector comparisons and comparisons of pointers are passed over by the pass and do not occur in the model.
- CompareToUnit: landing pads, invoke instructions and debug information; finding the constants a comparison is derived from is LLVM's business.
- StrCompare: comparisons of two variables, case-insensitive variants, and strcmp or strncmp with literals that have inner NULs.
- StrCompare.ChainPreserves: a comparison call there means the value of the chain; that it may stand for the library function is LibraryCall.ChainReplacesLibrary, for results only compared with zero, and the sign is kept as StrCompare.SignIsKeptIff says.
- EdgeCounters.InstrumentationCounts: the multiway terminator is an invoke or any other that keeps its targets in its successor list; what becomes of indirect branches is EdgePass.IndirectIsCountedIff.
- EdgeCounters: which dictionary word maps to which edge, and making landing pads have one predecessor.
- Minimize: the statistics, the mask file and interruption by the user.
- TrimCase: interruption by the user takes the branch of a failed execution; system calls that fail.
- ForkServer: the handshake, system calls that fail, signals from the user, the mode without a fork server, reuse of process numbers by the system, and targets that enter their loop again after having left it.
- QueueScore: the linked list of entries is a sequence; the number of calibration runs is that of the traces given; the marking of redundant entries on disk.
- VirginMap: a word is the eight bytes that hold it, so the variant for four bytes is the same loop; the flag that the bitmap is to be saved.
- Hash32: that truncating the 64-bit state can make different maps collide is not shown by an example.
- Dictionary: the header line of a dictionary file is skipped as a comment and the kind of dictionary is given; lines are as the system cuts them; multiple records of one origin on an instruction.
- Stages: the deterministic stages for two and four bytes, and the test for interesting values that only they use; simplified runs of tokens found while flipping the lowest bits.
- StageRuns: what a run reports is a function of the input; skipping an entry, or its deterministic stages, altogether.
- Tokens: the C library's sort is any one that orders; use counts are unbounded; tokens are values, not pointers into a shared list.
- Overwrite: the byte behind the contents of the buffer, which is copied to the scratch buffer after the last position (afl-fuzz.c:6546), is a parameter.
- Havoc: random numbers are any in range, without a distribution; whether a round found something is a parameter.
- Coverage: numbers as Python reads them may have blanks and signs, which the files written here do not; entries whose calibration ends early.
- Dislocator: where the system maps pages is a parameter, pages already in use excepted; failures to protect pages; reads and jumps through wild pointers.
- The calibration averages, floating-point scores, synchronisation between fuzzers, file handling, the user interface, compiler wrappers and scripts.
