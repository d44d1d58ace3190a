# A verified model of the judge, its tree format and the MySQL headers it ships

The repository is an online judge for HUSTOJ. It compiles and runs submissions, compares their output with the
expected one and records a verdict. It carries its own tree format for settings (`LZData`) and the headers of the
MySQL 6.0.2 client, in which a good part of the algorithms are inline functions and macros. This project models the
algorithms whose bodies are in the repository and proves what they promise, or exactly when they keep the promise.

| file | models |
|---|---|
| `SuffixAutomaton.dfy`, `Trie.dfy` | the Aho-Corasick matcher of `my_trie.h`: mathematics, then the pointer graph |
| `AtomicCell.dfy`, `AtomicBodies.dfy` | the five atomic operations: meaning, linearizability, the macro bodies (loops under interference) |
| `CasMode.dfy`, `CasEffects.dfy`, `CasConservation.dfy`, `Tickets.dfy` | the compare-and-swap bodies under any interleaving of any number of threads |
| `MutexMode.dfy`, `MutexEffects.dfy` | the multi-step bodies of `atomic/rwlock.h` with and without the mutex |
| `SkipSpace.dfy` | `skip_trailing_space` with addresses and alignment |
| `Bitmap.dfy` | `MY_BITMAP` as a set of bit numbers |
| `IoCache.dfy` | the buffered stream macros of `my_sys.h` |
| `Binary.dfy`, `BitTricks.dfy` | bit strings; the functions of `my_bit.h` |
| `Bytes.dfy`, `Codec.dfy` | base-256 numbers; the store and korr macros |
| `Rint.dfy` | the `rint` replacement of `my_global.h` |
| `Matcher.dfy`, `JudgeCore.dfy` | output comparison and the judging of one submission |
| `Text.dfy`, `XmlTree.dfy`, `XmlReading.dfy`, `XmlParser.dfy`, `XmlTags.dfy`, `XmlRoundTrip.dfy` | the tree printer, its parser, and both together |
| `LzData.dfy` | reading and writing a tree by paths |
| `Ranges.dfy`, `Arithmetic.dfy`, `Wrappers.dfy` | initial segments of the naturals, quotients and remainders, optional values |

Code that changes state in place is a class or a method on an array here too, and is proved against a specification on
values; the theorems are about the specification.

## What does not hold as one might expect

* **`ac_trie_next` looks at the current node only.** It reports the longest key that ends at a position if the state is
  itself a key, and misses a key that ends inside a longer path. It sees every occurrence if and only if every path that
  ends in a key is a key (`SuffixAutomaton.ReportsEveryOccurrenceIff`; a miss: `MissedOccurrence`).
* **The verdict is that of the last test run.** The loop of `doJudge` stops at a failed run but not at a wrong answer, so
  a wrong first answer and a right second one are recorded as accepted (`JudgeCore.WrongThenRightIsAccepted`); and a
  submission that passes all tests is recorded as a system error if an output file stays. Exactly these two courses of
  events make the verdict wrong (`JudgeCore.AcceptedIsRightIff`). Whatever happens, it is right if and only if there is
  one test, its output can be removed, and no other verdict is configured with the code of acceptance
  (`JudgeCore.RightWhateverHappensIff`). Verdict and pass rate together are right: `JudgeCore.AcceptedWithFullRateIff`.
* **`LZData::write` tests `i > 0`**, so a child at place 0 counts as not found and a second child of that name is added,
  which no read sees. What is read after a write: `LzData.ReadAfterWrite` and `LzData.ValueIsReadBackIff`; the second
  write to any path of an empty node is lost: `LzData.SecondWriteIsNotSeen`.
* **Printing and parsing a tree gives it back** exactly when its tags and values are ones that the parser leaves alone
  (`XmlRoundTrip.RoundTripIff`); values of interior nodes are never printed.
* **The size macros of the bitmap wrap** when `n_bits + 31` exceeds 32 bits (`Bitmap.BufferFitsIff`).
* **`my_b_write_byte` does not look at the outcome of its flush**: it stores outside the buffer exactly when the buffer is
  full and still full after the slow path (`IoCache.WriteCache.MyBWriteByte`). It is safe whatever the slow path does if
  and only if there is room before the call (`IoCache.NeverOverrunsIff`).
* **`rint` skips the parity test beyond `MAX_EXACT_INTEGER`.** On the real numbers that loses ties-to-even exactly there;
  no floating-point number is such a tie (`Rint.RoundsToNearestEvenIff`, `Rint.DoublesRoundToNearestEven`).
* **Without the mutex the bodies of `rwlock.h` lose updates**: all runs are linearizable if and only if the lock is taken
  or there is at most one thread, from every initial value (`MutexMode.LinearizableIff`).
* Comments that the code does not follow: `skip_trailing_space` returns one past the last non-space character, and not
  that character; `my_bit_log2` is the floor of the logarithm, and not its ceiling; `links` is a list, and not an array.

## Model

| member | source | states |
|---|---|---|
| `SuffixAutomaton.LongestIsLongest` | mysql_6_0_2/my_trie.h:68-80 | the reference state of the automaton, the first suffix of the text that is a path, has every suffix that is a path as its own suffix |
| `SuffixAutomaton.LongestExtend` | mysql_6_0_2/my_trie.h:82-92 | the state alone determines the next state: extending the state or the whole text by a byte has the same longest path suffix |
| `SuffixAutomaton.FailureStep` | mysql_6_0_2/my_trie.h:89-90 | where a path cannot be extended, its longest proper suffix that is a path may take its place |
| `SuffixAutomaton.RunFromRoot` | mysql_6_0_2/my_trie.h:82-92 | feeding a text byte by byte from the root ends in the longest suffix of the text that is a path, for every trie and text |
| `SuffixAutomaton.ReportIsLongestKey` | mysql_6_0_2/my_trie.h:78-92 | a non-zero result k means that the last k bytes are a key, and no longer key ends there |
| `SuffixAutomaton.ReportsEveryOccurrenceIff` | mysql_6_0_2/my_trie.h:78-92 | the result is non-zero wherever a key ends, in every text, if and only if each path that ends in a key is a key |
| `SuffixAutomaton.NoInnerKeyIsEnough` | mysql_6_0_2/my_trie.h:78-92 | in particular if no key is a proper suffix of a path |
| `SuffixAutomaton.MissedOccurrence` | mysql_6_0_2/my_trie.h:78-92 | with the keys "abc" and "b" the text "ab" ends in a key and 0 is returned |
| `SuffixAutomaton.SearchAgreesWithRun` | mysql_6_0_2/my_trie.h:82-136 | a word is in the trie exactly when the matcher, run over it from the root, returns its length at its last byte |
| `Trie.TrieData.constructor` | mysql_6_0_2/my_trie.h:22-51 | the invariant that insertion and preparation are to establish holds of the empty trie |
| `Trie.TrieData.Twice` | mysql_6_0_2/my_trie.h:22-51 | and of a trie with a word of two equal bytes, whose last node fails to its first |
| `Trie.TrieData.PathsArePrefixClosed` | mysql_6_0_2/my_trie.h:22-29 | the strings spelled by the linked nodes are closed under prefixes |
| `Trie.TrieData.ChildOf` | mysql_6_0_2/my_trie.h:26-27 | an extension of a node's path that is a path is spelled by a node in its sibling chain |
| `Trie.TrieData.FailLink` | mysql_6_0_2/my_trie.h:28 | the failure link of a node that cannot be extended is not null, is shallower, and leads to the same state |
| `Trie.TrieData.TrieGoto` | mysql_6_0_2/my_trie.h:55-65 | walking the chain finds the child if there is one, the root for a missing edge of the root, and null otherwise; a non-null result is the longest path suffix |
| `Trie.TrieData.FollowFailures` | mysql_6_0_2/my_trie.h:88-91 | the failure loop terminates in the longest path suffix of the extended state, follows exactly the links that are needed to come to an edge, and each of them is paid for by depth |
| `Trie.TrieData.TrieSearch` | mysql_6_0_2/my_trie.h:116-136 | true exactly for the keys |
| `Trie.AcTrieState.constructor` | mysql_6_0_2/my_trie.h:50 | a search starts at the root |
| `Trie.AcTrieState.AcTrieNext` | mysql_6_0_2/my_trie.h:82-92 | after any text the state is its longest suffix that is a path, the result is that node's key length or 0, and the links followed over the whole run, which are counted exactly, never outnumber the bytes |
| `AtomicCell.OnlyMeaning` | mysql_6_0_2/my_atomic.h:16-38 | the description of the five operations, in 32 bits, allows one content afterwards and one answer, and these are the ones of the atomic cell |
| `AtomicCell.ExtendLinearizes` | mysql_6_0_2/my_atomic.h:16-50 | a linearization stays one when a call begins, or a call that it explains returns |
| `AtomicCell.AppendLinearizes` | mysql_6_0_2/my_atomic.h:16-50 | letting a pending call take effect last keeps results, real-time order and the list of calls right |
| `AtomicCell.CallInv` | mysql_6_0_2/my_atomic.h:16-50 | calling an operation of the atomic cell keeps its invariant |
| `AtomicCell.TakeEffectInv` | mysql_6_0_2/my_atomic.h:16-50 | a called operation taking effect keeps the invariant, linearization included |
| `AtomicCell.ReplyInv` | mysql_6_0_2/my_atomic.h:16-50 | returning keeps the invariant |
| `AtomicBodies.Cell.AddMsvc` | mysql_6_0_2/atomic/generic-msvc.h:64-65 | the exchange-and-add body adds modulo 2^32 and returns the old value |
| `AtomicBodies.Cell.CasMsvc` | mysql_6_0_2/atomic/generic-msvc.h:66-69 | the compare-exchange body means compare-and-swap, with the caller's expected value updated on failure |
| `AtomicBodies.Cell.CasGcc` | mysql_6_0_2/atomic/gcc_builtins.h:22-25 | so does the builtin body |
| `AtomicBodies.Cell.LoadMsvc` | mysql_6_0_2/atomic/generic-msvc.h:72-74 | exchanging 0 for 0 returns what the cell holds and never changes it |
| `AtomicBodies.Cell.AddByCas` | mysql_6_0_2/my_atomic.h:65-70 | whatever other threads put into the cell before each access, the loop walks through the steps of the concurrent model, adds modulo 2^32 to what its last access finds, and returns that value |
| `AtomicBodies.Cell.FasByCas` | mysql_6_0_2/my_atomic.h:71-76 | the same for the storing loop |
| `AtomicBodies.Cell.LoadByCas` | mysql_6_0_2/my_atomic.h:77-81 | a compare-and-swap of 0 for 0 returns what the cell holds and never changes it |
| `AtomicBodies.Cell.StoreByFas` | mysql_6_0_2/my_atomic.h:82-85 | a fetch-and-store whose result is ignored walks through the steps of a store and stores |
| `AtomicBodies.Cell.AddLocked` | mysql_6_0_2/atomic/rwlock.h:52 | the three statements add and return the old value |
| `AtomicBodies.Cell.FasLocked` | mysql_6_0_2/atomic/rwlock.h:53 | the three statements store and return the old value |
| `AtomicBodies.Cell.CasLocked` | mysql_6_0_2/atomic/rwlock.h:54 | the statement means compare-and-swap |
| `CasMode.CasBody` | mysql_6_0_2/my_atomic.h:26-29 | one compare-and-swap: new cell, verdict and updated expected value |
| `CasMode.LoopsPerHeader` | mysql_6_0_2/atomic/gcc_builtins.h:18-37 | with a swap body instead of a fetch-and-store body, fetch-and-store is a loop; what else is one with each header |
| `CasMode.MicroStep` | mysql_6_0_2/my_atomic.h:65-85 | one access either takes effect with the atomic result or, being a first read or a failed compare-and-swap, changes nothing and leaves a fresh expected value |
| `CasMode.AccessMatches` | mysql_6_0_2/my_atomic.h:65-85 | one access of any thread is one step, or no step, of the atomic cell |
| `CasMode.RunRefines` | mysql_6_0_2/my_atomic.h:65-85 | every run of every number of threads maps to a run of the atomic cell with the same history |
| `CasMode.EveryRunIsLinearizable` | mysql_6_0_2/my_atomic.h:65-85 | whatever bodies a header supplies, every interleaving is linearizable |
| `CasMode.AccessPays` | mysql_6_0_2/my_atomic.h:65-76 | no access breaks the balance of retries, threads bound to fail, and changes of the cell |
| `CasMode.RetriesAreBounded` | mysql_6_0_2/my_atomic.h:65-76 | over a run of n threads at most (n - 1) compare-and-swaps of loops fail for each step that changes the cell |
| `CasMode.CountersCount` | mysql_6_0_2/my_atomic.h:65-76 | the two counters of the model count exactly the failing compare-and-swaps and the changing steps of the run |
| `CasMode.LastRead` | mysql_6_0_2/my_atomic.h:65-76 | the value a loop expects is what the cell held after this thread's last access |
| `CasMode.FailureHasCulprit` | mysql_6_0_2/my_atomic.h:65-76 | for every failed compare-and-swap of every run: the access by which the thread last read the cell, and after it a step of another thread that changed the cell |
| `CasEffects.EveryCallTakesEffect` | mysql_6_0_2/my_atomic.h:16-86 | every call that returns, in every run, has taken effect in one access of its own between its begin and its return, as my_atomic.h describes: a load returns what the cell held in between, a store has left its argument there |
| `CasEffects.EveryCallBegins` | mysql_6_0_2/my_atomic.h:65-86 | a thread in a call has begun it once, and has taken effect once if it is done |
| `CasConservation.SwapsConserveValues` | mysql_6_0_2/my_atomic.h:71-76 | in every state of every run the initial and the stored values are the returned ones, the current one and those still held |
| `CasConservation.CompletedSwaps` | mysql_6_0_2/my_atomic.h:71-76 | when all calls have returned: initial plus stored values equal returned values plus the final one, each as often |
| `CasConservation.AddsAreNotLost` | mysql_6_0_2/my_atomic.h:65-70 | in every state of every run the cell and the increments still to take effect are the initial value plus all increments, modulo 2^32 |
| `CasConservation.UnitAddsReturnDistinct` | mysql_6_0_2/my_atomic.h:65-70 | at most 2^32 unit adds, however interleaved with each other and with loads, return pairwise distinct values |
| `Tickets.UnitAddsDistinctIff` | mysql_6_0_2/my_atomic.h:19-20 | in a sequential order of unit adds and loads the adds return distinct values if and only if there are at most 2^32 of them |
| `Tickets.DistinctTickets` | mysql_6_0_2/my_atomic.h:19-20 | the returns of at most 2^32 unit adds in a linearizable history differ, whatever loads are among them |
| `Tickets.ReturnsAnswerDifferentCalls` | mysql_6_0_2/my_atomic.h:16-38 | in a well-formed history no call is answered twice |
| `MutexMode.MicroStep` | mysql_6_0_2/atomic/rwlock.h:52-56 | each access within a body keeps its locals in agreement with the cell, and the last one has the atomic effect |
| `MutexMode.AccessMatches` | mysql_6_0_2/atomic/rwlock.h:40-56 | under the lock, or alone, threads exclude each other, and one access is one step, or no step, of the atomic cell |
| `MutexMode.RunRefines` | mysql_6_0_2/atomic/rwlock.h:40-56 | every such run maps to a run of the atomic cell with the same history |
| `MutexMode.EverySafeRunIsLinearizable` | mysql_6_0_2/atomic/rwlock.h:40-56 | every run between lock and unlock, or of at most one thread, is linearizable |
| `MutexMode.LostUpdateIsNotLinearizable` | mysql_6_0_2/atomic/rwlock.h:20-33 | two concurrent adds of 1 that are both told the initial value have no linearization |
| `MutexMode.UnlockedRunLosesAnUpdate` | mysql_6_0_2/atomic/rwlock.h:19-33 | with the lock macros empty such a run exists for every two or more threads and every initial value |
| `MutexMode.LinearizableIff` | mysql_6_0_2/atomic/rwlock.h:19-56 | all runs are linearizable if and only if the lock is taken or there is at most one thread |
| `MutexEffects.EveryCallTakesEffect` | mysql_6_0_2/atomic/rwlock.h:40-56 | the same for the bodies under the mutex: one access of each returning call has the described effect |
| `MutexEffects.EveryCallBegins` | mysql_6_0_2/atomic/rwlock.h:40-56 | a thread in a call has begun it once, and has taken effect once if it is leaving |
| `SkipSpace.NaiveEndIff` | mysql_6_0_2/m_string.h:361-385 | the plain scan ends at the one position behind which all is space and before which there is none |
| `SkipSpace.SpaceIntIsSpaces` | mysql_6_0_2/m_string.h:378 | the comparison constant is a word of spaces |
| `SkipSpace.WordOfSpaces` | mysql_6_0_2/m_string.h:378 | a word equals the constant exactly when all of its bytes are spaces |
| `SkipSpace.WordStep` | mysql_6_0_2/m_string.h:378-379 | after a word is skipped, the position is aligned and in bounds again |
| `SkipSpace.SkipTrailingSpace` | mysql_6_0_2/m_string.h:361-385 | for every buffer, length, alignment and both word sizes the result is that of the plain scan: behind it all bytes are 0x20, and the one before it is not; each read is in bounds and each word read aligned |
| `Bitmap.BufferFitsIff` | mysql_6_0_2/my_bitmap.h:95-97 | for 32-bit numbers the buffer has room for all bits, with less than a word to spare, if and only if there are at most 2^32 - 32 |
| `Bitmap.MasksAreShifts` | mysql_6_0_2/my_bitmap.h:99-106 | the masks are the shifted ones of the macros and their complements |
| `Bitmap.BitIsDigit` | mysql_6_0_2/my_bitmap.h:105-106 | bit i is the binary digit with the weight 2^(i mod 8) of the number in byte i / 8 |
| `Bitmap.SetBitAt` | mysql_6_0_2/my_bitmap.h:99-100 | setting a bit changes that bit and no other, padding included |
| `Bitmap.ClearBitAt` | mysql_6_0_2/my_bitmap.h:103-104 | so does clearing |
| `Bitmap.FlipBitAt` | mysql_6_0_2/my_bitmap.h:101-102 | so does flipping |
| `Bitmap.SingleBitView` | mysql_6_0_2/my_bitmap.h:99-106 | on the set of bits the three are insertion, removal and toggling |
| `Bitmap.Normalise` | mysql_6_0_2/my_bitmap.h:152-153 | or-ing the mask into the last word sets all padding and leaves the set as it was |
| `Bitmap.PaddedEqualIff` | mysql_6_0_2/my_bitmap.h:154 | with the padding set, equal bytes and equal sets are the same |
| `Bitmap.MyBitmap.BitmapSetBit` | mysql_6_0_2/my_bitmap.h:119-124 | the set gains the bit; the byte touched is in the buffer |
| `Bitmap.MyBitmap.BitmapFlipBit` | mysql_6_0_2/my_bitmap.h:125-130 | the bit is toggled |
| `Bitmap.MyBitmap.BitmapClearBit` | mysql_6_0_2/my_bitmap.h:131-136 | the set loses the bit |
| `Bitmap.MyBitmap.BitmapIsSet` | mysql_6_0_2/my_bitmap.h:137-142 | non-zero exactly for members of the set |
| `Bitmap.MyBitmap.BitmapClearAll` | mysql_6_0_2/my_bitmap.h:157-158 | the set becomes empty |
| `Bitmap.MyBitmap.BitmapSetAll` | mysql_6_0_2/my_bitmap.h:159-160 | the set becomes all numbers below `n_bits` |
| `Bitmap.BitmapCmp` | mysql_6_0_2/my_bitmap.h:150-155 | true exactly when the sets are equal, whatever the padding held, and neither set changes, also on a shared buffer |
| `Bitmap.RunRefinesSet` | mysql_6_0_2/my_bitmap.h:95-160 | any run of the operations on the bytes, comparisons included, is the run on the set |
| `IoCache.ReadCache.constructor` | mysql_6_0_2/my_sys.h:426-444 | an empty buffer over a file, with the cursor anywhere in it |
| `IoCache.ReadCache.AheadInFile` | mysql_6_0_2/my_sys.h:426-439 | the buffered bytes ahead of the read position are the next bytes of the file |
| `IoCache.ReadCache.MyBRead` | mysql_6_0_2/my_sys.h:572-576 | answers as a plain cursor on the file and keeps the record of all calls a run of it; never fails on what is buffered |
| `IoCache.ReadCache.MyBGet` | mysql_6_0_2/my_sys.h:584-587 | the next byte, or `my_b_EOF` where the read function fails, as a step of the same run |
| `IoCache.ReadCache.MyBFillCache` | mysql_6_0_2/my_sys.h:595-596 | dropping the rest of the buffer and reading nothing does not move the cursor unless the device fails |
| `IoCache.ReadCache.MyBTell` | mysql_6_0_2/my_sys.h:598-599 | the offset of the cursor, as a step of the same run |
| `IoCache.ReadCache.ReadFunction` | mysql_6_0_2/my_sys.h:572-576 | the contract asked of the read function: all bytes or a failure, device errors included |
| `IoCache.ReadCache.SlowGet` | mysql_6_0_2/my_sys.h:584-587 | the contract asked of `_my_b_get`, device errors included |
| `IoCache.RunsDeliverTheFile` | mysql_6_0_2/my_sys.h:567-599 | between any two points of any run without a failure in between, what the calls deliver is the stretch of the file from cursor to cursor; the calls of a read cache are such a run by its invariant |
| `IoCache.TellCountsTheDelivered` | mysql_6_0_2/my_sys.h:598-599 | `my_b_tell` is the cursor at any earlier point plus the bytes delivered since, if nothing failed in between |
| `IoCache.ReadCache.EverythingDelivered` | mysql_6_0_2/my_sys.h:567-599 | the calls made on a read cache, as long as none fails, have delivered the file from its start to its cursor |
| `IoCache.WriteCache.constructor` | mysql_6_0_2/my_sys.h:446-456 | nothing written, an empty buffer |
| `IoCache.WriteCache.MyBWrite` | mysql_6_0_2/my_sys.h:578-582 | flushed bytes followed by the buffer are everything taken by all calls so far and then the argument, or a first part of it on a failure; with room it does not fail |
| `IoCache.WriteCache.MyBWriteByte` | mysql_6_0_2/my_sys.h:589-593 | the byte is appended, unless there was no room and the slow path left none: exactly then the store is outside the buffer |
| `IoCache.NeverOverrunsIff` | mysql_6_0_2/my_sys.h:589-593 | the store is inside whatever the slow path does if and only if there is room before the call |
| `IoCache.WriteCache.EverythingWritten` | mysql_6_0_2/my_sys.h:578-599 | after any mixture of calls on a write cache that succeed, flushed and buffered bytes are their arguments in order, and each `my_b_tell` was the start plus the length before it |
| `IoCache.SuccessfulWritesAddUp` | mysql_6_0_2/my_sys.h:578-599 | the same about the plain writer that the calls are a run of |
| `IoCache.WriteCache.MyBTell` | mysql_6_0_2/my_sys.h:598-599 | the start plus the number of bytes taken, as a step of the same run |
| `IoCache.WriteCache.WriteFunction` | mysql_6_0_2/my_sys.h:578-593 | the contract asked of the write function and of `_my_b_write` |
| `BitTricks.SmearStep` | mysql_6_0_2/my_bit.h:73-77 | one shift-and-or doubles the window of bits that each bit stands for |
| `BitTricks.FullSmear` | mysql_6_0_2/my_bit.h:73-77 | five of them fill all places below the highest one |
| `BitTricks.Smear` | mysql_6_0_2/my_bit.h:73-77 | the five assignments leave as many ones as the argument has digits |
| `BitTricks.MyBitLog2` | mysql_6_0_2/my_bit.h:16-21 | the loop computes the floor of the logarithm, and 0 for 0 |
| `BitTricks.MyRoundUpToNextPower` | mysql_6_0_2/my_bit.h:70-79 | the least power of two not below v for 0 < v <= 2^31, 0 for all other v, and the power whose exponent is the logarithm rounded up |
| `BitTricks.RoundUpExponent` | mysql_6_0_2/my_bit.h:16-79 | the highest place of v - 1, plus one, is the logarithm of v, plus one unless v is a power of two |
| `BitTricks.MyClearHighestBit` | mysql_6_0_2/my_bit.h:81-90 | takes the highest power of two off |
| `BitTricks.ClearsInCountSteps` | mysql_6_0_2/my_bit.h:81-90 | repeated clearing reaches 0 after exactly as many steps as there are ones |
| `BitTricks.MyCountBits` | mysql_6_0_2/my_bit.h:23-43 | eight table look-ups count the ones of every 64-bit number |
| `BitTricks.MyReverseBits` | mysql_6_0_2/my_bit.h:92-99 | four table look-ups reverse all 32 bits |
| `BitTricks.RevBit` | mysql_6_0_2/my_bit.h:92-99 | bit i of the reversed number is bit n - 1 - i, and there are no others |
| `BitTricks.ReverseIsInvolution` | mysql_6_0_2/my_bit.h:92-99 | reversing twice gives the number back |
| `BitTricks.ReverseKeepsOnes` | mysql_6_0_2/my_bit.h:23-99 | reversing keeps the number of ones |
| `BitTricks.ReverseDecreases` | mysql_6_0_2/my_bit.h:81-99 | along the clearing chain the reversed number falls by one known power of two at each step |
| `Codec.UnsignedReadsAreGeneric` | mysql_6_0_2/my_global.h:1255-1283 | the unsigned reads of 2, 3, 4, 5, 6 and 8 bytes are one base-256 codec on that many bytes, whatever follows them |
| `Codec.SignedReadsAreGeneric` | mysql_6_0_2/my_global.h:1240-1254 | the signed reads are its two's complement, whatever follows the bytes |
| `Codec.MiUnsignedReadsAreGeneric` | mysql_6_0_2/myisampack.h:42-79 | the unsigned reads of myisampack.h are the same codec on the bytes in opposite order, whatever follows them |
| `Codec.MiSignedReadsAreGeneric` | mysql_6_0_2/myisampack.h:27-41 | and so are the signed ones |
| `Codec.Int4NetIsGeneric` | mysql_6_0_2/my_global.h:1380-1383 | the network-order read is the signed four-byte read of myisampack.h |
| `Codec.Int2Store` | mysql_6_0_2/my_global.h:1284-1287 | stores the codec's two bytes and changes no other |
| `Codec.Int3Store` | mysql_6_0_2/my_global.h:1288-1292 | stores the codec's three bytes and changes no other |
| `Codec.Int4Store` | mysql_6_0_2/my_global.h:1293-1296 | stores the codec's four bytes and changes no other |
| `Codec.Int5Store` | mysql_6_0_2/my_global.h:1297-1302 | stores the codec's five bytes and changes no other |
| `Codec.Int6Store` | mysql_6_0_2/my_global.h:1303-1309 | stores the codec's six bytes and changes no other |
| `Codec.Int8Store` | mysql_6_0_2/my_global.h:1310-1312 | two stores of halves are the codec's eight bytes |
| `Codec.MiInt2Store` | mysql_6_0_2/myisampack.h:84-86 | stores the codec's two bytes in opposite order and changes no other |
| `Codec.MiInt3Store` | mysql_6_0_2/myisampack.h:87-92 | stores the codec's three bytes in opposite order and changes no other |
| `Codec.MiInt4Store` | mysql_6_0_2/myisampack.h:93-97 | stores the codec's four bytes in opposite order and changes no other |
| `Codec.MiInt5Store` | mysql_6_0_2/myisampack.h:98-104 | stores the codec's five bytes in opposite order and changes no other |
| `Codec.MiInt6Store` | mysql_6_0_2/myisampack.h:105-112 | stores the codec's six bytes in opposite order and changes no other |
| `Codec.MiInt7Store` | mysql_6_0_2/myisampack.h:113-121 | stores the codec's seven bytes in opposite order and changes no other |
| `Codec.MiInt8Store` | mysql_6_0_2/myisampack.h:122-125 | two stores of halves are the codec's eight bytes in opposite order |
| `Codec.LittleRoundTrip` | mysql_6_0_2/my_global.h:1240-1312 | what is stored is read back, for every width, signed or not, and every value in range |
| `Codec.LittleMacrosRoundTrip` | mysql_6_0_2/my_global.h:1240-1312 | each read gives back what the store of its width has left at any place of any buffer, with the rest of the buffer behind it |
| `Codec.BigRoundTrip` | mysql_6_0_2/myisampack.h:27-125 | the round trip with the high byte first |
| `Codec.BigMacrosRoundTrip` | mysql_6_0_2/myisampack.h:27-125 | each read gives back what the store of its width has left at any place of any buffer, with the rest of the buffer behind it |
| `Codec.BigEncodingsSort` | mysql_6_0_2/myisampack.h:42-125 | unsigned numbers stored high byte first compare byte by byte as the numbers do |
| `Codec.MiSizeStore` | mysql_6_0_2/myisampack.h:232-237 | stores the eight bytes of a size, or of -1 for the error mark, and changes no other |
| `Codec.SizeRoundTrip` | mysql_6_0_2/myisampack.h:232-238 | a size and the error mark are read back as themselves at any place of any buffer |
| `Bytes.WriteRead` | mysql_6_0_2/my_global.h:1255-1312 | writing n bytes keeps a number modulo 256^n, whatever its sign |
| `Bytes.ReadWrite` | mysql_6_0_2/my_global.h:1255-1312 | reading bytes and writing the number gives the bytes back |
| `Bytes.LexIsNumeric` | mysql_6_0_2/myisampack.h:42-79 | the order of byte strings is the order of the numbers they spell high byte first |
| `Rint.RoundToInteger` | mysql_6_0_2/my_global.h:1582-1600 | the result is a nearest integer, for every number of 53 bits the one that is even at a tie, and for all reals the value of one rounding function |
| `Rint.LimitIs53Bits` | mysql_6_0_2/my_global.h:1572 | the limit of the code is the largest number of 53 bits |
| `Rint.NearestEvenIsUnique` | mysql_6_0_2/my_global.h:1574-1580 | at most one integer is nearest with ties to even |
| `Rint.RoundsToNearestEvenIff` | mysql_6_0_2/my_global.h:1582-1600 | the result is always nearest, and even at a tie unless the tie is beyond the limit with an odd integer part |
| `Rint.DoublesRoundToNearestEven` | mysql_6_0_2/my_global.h:1587-1590 | for every number of 53 bits and any exponent the result is nearest with ties to even |
| `Rint.Monotone` | mysql_6_0_2/my_global.h:1582-1600 | rounding keeps order, across the two branches |
| `Rint.Odd` | mysql_6_0_2/my_global.h:1591-1599 | rounding commutes with negation |
| `Rint.Idempotent` | mysql_6_0_2/my_global.h:1582-1600 | rounding twice is rounding once, and the fixed points are the integers |
| `Text.FindBehind` | LZData/xmlParser.h:58-68 | the search finds the first occurrence behind a text without one |
| `Text.FindIsFirst` | LZData/xmlParser.h:58-68 | the result is the first occurrence, and -1 exactly when there is none |
| `XmlTree.Print` | LZData/xml.cpp:52-74 | appends the rendering of the children to the stream, for every tree and depth |
| `XmlTree.PrintNode` | LZData/xml.cpp:56-72 | appends the rendering of one child: its lines with those of its children between them, or one line with its value |
| `XmlTree.LineShape` | LZData/xml.cpp:59-70 | every line begins with exactly as many tabs as its depth and then "<", with "/" behind it in an end line, and ends with a line feed |
| `XmlTree.RenderIsRows` | LZData/xml.cpp:52-74 | the rendering is the text of a list of rows: begin, end or leaf, with an indentation |
| `XmlTree.WellNested` | LZData/xml.cpp:52-74 | every forest is well nested, each row indented by the number of tags open around it |
| `XmlReading.MarkFinds` | LZData/xmlParser.h:58-68 | the marks of a printed tag are found where they were written |
| `XmlReading.PrintsAreUnique` | LZData/xml.cpp:52-74 | equal texts, each possibly followed by an end tag, come from equal forests and equal remainders |
| `XmlReading.OutputDeterminesForest` | LZData/xml.cpp:52-74 | outputs are equal exactly when the forests are equal but for the values of interior nodes |
| `XmlParser.Parser.FindChar` | LZData/xmlParser.h:58-68 | the position of the first occurrence from the index on |
| `XmlRoundTrip.GoodForestsReturn` | LZData/xml.cpp:52-74 | parsing a printed good forest succeeds and returns it |
| `XmlRoundTrip.OnlyGoodForestsReturn` | LZData/xml.cpp:52-74 | a forest that comes back has only good tags and values |
| `XmlRoundTrip.RoundTripIff` | LZData/xml.cpp:52-74 | print and parse succeed and give the forest, but for values that are not printed, if and only if its tags and values are good |

## Sources in a legacy encoding

The judge's own files, the tree class and the parser are in the repository in a Chinese double-byte encoding. Their code
is plain ASCII; the members that model them are listed here, with the lines of those files.

| member | source | states |
|---|---|---|
| `Matcher.Compare` | Judger/Excuter.cpp:291-360 | the walk over both texts computes the verdict: wrong if the visible characters differ, accepted if the texts agree up to carriage returns of line ends, a presentation error otherwise |
| `Matcher.FirstKept` | Judger/Excuter.cpp:315-322 | what a text begins with once the carriage returns of its line ends are dropped |
| `Matcher.DropReturn` | Judger/Excuter.cpp:315-322 | skipping a carriage return against a line feed decides nothing |
| `Matcher.HeadsDiffer` | Judger/Excuter.cpp:323-336 | any other difference rules acceptance out for good |
| `Matcher.LinesKeepTheVisible` | Judger/Excuter.cpp:286-360 | texts that agree up to line ends have the same visible characters |
| `Matcher.AcceptIsAnEquivalence` | Judger/Excuter.cpp:291-360 | acceptance is an equivalence, verdicts are symmetric, and accepted texts are judged alike against any third |
| `Matcher.LineEndsDoNotMatter` | Judger/Excuter.cpp:315-322 | writing either text with the line ends of the other system does not change the verdict |
| `Matcher.LineEndIff` | Judger/Excuter.cpp:315-322 | a carriage return belongs to a line end exactly if only carriage returns stand between it and a line feed |
| `Matcher.OneCharacterMore` | Judger/Excuter.cpp:286-360 | one character more anywhere in a right answer makes it wrong, unless it is NUL, a space, a tab, a carriage return or a line feed; a presentation error then, unless it is a carriage return of a line end |
| `JudgeCore.ExcRunner` | Judger/Excuter.cpp:187-231 | the result code of a run by the first thing that went wrong; time and memory only if the process was created |
| `JudgeCore.ExcMatcher` | Judger/Excuter.cpp:241-284 | success exactly on acceptance, and the code of every other outcome, unreadable files included |
| `JudgeCore.RunAndMatch` | Judger/JudgeCore.cpp:98-107 | the matcher is reached after clean runs only, and its code replaces the runner's |
| `JudgeCore.RunTests` | Judger/JudgeCore.cpp:90-130 | the loop runs up to the first test that stops it; accepted answers, peaks and the result code are those of the tests run |
| `JudgeCore.DoJudge` | Judger/JudgeCore.cpp:73-135 | result, pass rate, peak time and memory after judging, in every case of failure; with different codes the result is each of them exactly in the circumstances it stands for |
| `JudgeCore.LastCodeMeans` | Judger/Excuter.cpp:187-284 | of the last test run: which circumstances give the codes for memory, time, runtime and system errors, wrong answer, presentation and acceptance, each if and only if |
| `JudgeCore.OneLastRun` | Judger/JudgeCore.cpp:93-130 | the last test run is the first that was not fine, or the last of all |
| `JudgeCore.RecordedAt` | Judger/Excuter.cpp:202-203 | the fields hold the time and memory of a test that ran, and otherwise what they held before |
| `JudgeCore.TotalsAre` | Judger/JudgeCore.cpp:90-130 | what the loop keeps is the number of accepted answers and the peaks of the recorded times and memory sizes |
| `JudgeCore.AcceptedIsTheLastTest` | Judger/JudgeCore.cpp:93-130 | the verdict is acceptance exactly when no test stopped the loop and the last one matched |
| `JudgeCore.FullPassRateIff` | Judger/JudgeCore.cpp:131 | the pass rate is 1 exactly when every test was run and accepted |
| `JudgeCore.PassRateCounts` | Judger/JudgeCore.cpp:131 | the pass rate is the number of tests that were run and accepted over the number of tests |
| `JudgeCore.AcceptedIsRightIff` | Judger/JudgeCore.cpp:93-130 | the verdict "accepted" is given exactly to submissions that pass all tests, except that an earlier mismatch is covered by a last match, or all tests pass and an output file stays |
| `JudgeCore.RightWhateverHappensIff` | Judger/JudgeCore.cpp:93-130 | for every outcome of n tests it is right if and only if n is 1, the output can be removed and no other verdict has its code |
| `JudgeCore.WrongThenRightIsAccepted` | Judger/JudgeCore.cpp:93-130 | two tests, the first one wrong: accepted with pass rate one half |
| `JudgeCore.AcceptedWithFullRateIff` | Judger/JudgeCore.cpp:93-134 | accepted together with pass rate 1 means exactly that all tests passed and all outputs were removed |
| `Text.TrimCuts` | LZData/LZData.cpp:61-95 | trimming cuts white space at both ends, all of it, and nothing else |
| `Text.TrimOfTrimmed` | LZData/LZData.cpp:61-95 | exactly the strings without white space at their ends stay |
| `Text.TrimAround` | LZData/LZData.cpp:61-95 | white space put around a string makes no difference |
| `Text.LTrimString` | LZData/LZData.cpp:61-72 | the loop cuts white space in front |
| `Text.RTrimString` | LZData/LZData.cpp:74-89 | the loop cuts white space at the end |
| `Text.TrimString` | LZData/LZData.cpp:91-95 | both |
| `XmlTree.PrintTable` | LZData/LZData.cpp:27-33 | n tabs are appended |
| `XmlParser.Parser.NextTag` | LZData/xmlParser.cpp:40-55 | reads the next tag, both marks looked for from one place, and the ways this ends otherwise |
| `XmlParser.Parser.ParseElement` | LZData/xmlParser.cpp:71-112 | the node of an opening tag with its value and children, or complete with a final slash |
| `XmlParser.Parser.ParseReal` | LZData/xmlParser.cpp:36-121 | outcome, children and place in the buffer, by the recursive specification |
| `XmlParser.Parser.ParseAll` | LZData/xmlParser.cpp:23-34 | the same for a whole document below a new root |
| `XmlTags.AnyMark` | LZData/xmlParser.cpp:40-55 | text before a tag is skipped, and the tag is trimmed |
| `XmlTags.SlashTag` | LZData/xmlParser.cpp:71-88 | a tag that ends with a slash is a node without value and children, named up to the first space |
| `XmlTags.EndTagDecides` | LZData/xmlParser.cpp:57-68 | an end tag ends the node around it, successfully if and only if it has its name |
| `XmlTags.NoMoreMarks` | LZData/xmlParser.cpp:40-44 | without a further mark a document ends, and a node below it is not closed |
| `XmlTags.NoEndOfMark` | LZData/xmlParser.cpp:45-50 | a mark that does not end is an error |
| `XmlTags.EndBeforeBegin` | LZData/xmlParser.cpp:40-54 | a ">" before the next "<" raises the exception |
| `XmlTags.NothingAfterTag` | LZData/xmlParser.cpp:87-98 | a tag that nothing follows is a node without value, and an error |
| `XmlRoundTrip.GoodForestsAreRead` | LZData/xmlParser.cpp:36-121 | a printed forest of good tags and values is read node by node, whatever follows it |
| `XmlRoundTrip.ChildrenAreRead` | LZData/xmlParser.cpp:57-68 | reading inside a node ends at its own end tag |
| `XmlRoundTrip.TagComesBack` | LZData/xmlParser.cpp:53-88 | a tag that comes back is good |
| `XmlRoundTrip.ValueComesBack` | LZData/xmlParser.cpp:90-105 | a value that comes back is good |
| `LzData.FindNextChild` | LZData/LZData.cpp:311-326 | the first child of that name after the index, or -1, also for an index out of range |
| `LzData.ReadAfterWrite` | LZData/LZData.cpp:264-309 | after a write, what is read at that path: the node from before if it is the first child of its parent, else one with the new value |
| `LzData.ValueIsReadBackIff` | LZData/LZData.cpp:264-309 | the value comes back if and only if the path does not lead to a first child, or the value was there already |
| `LzData.SecondWriteIsNotSeen` | LZData/LZData.cpp:282-309 | in an empty node the second write to any path is not seen by reads |
| `LzData.OtherPathsKeep` | LZData/LZData.cpp:264-309 | a write does not change what is read at a path that parts from it |
| `LzData.WriteKeepsTheRest` | LZData/LZData.cpp:282-309 | a node keeps its tag, its value and all its children but the one that the path names first, and gets at most one more |
| `LzData.TheWayKeeps` | LZData/LZData.cpp:282-309 | a node on the way to the written path keeps tag and value; one that was missing is new, with its name and no value |
| `LzData.ReadOn` | LZData/LZData.cpp:264-281 | reading a longer path is reading on from the node that its first part leads to |
| `LzData.BelowKeeps` | LZData/LZData.cpp:264-309 | what is read below the written path stays |

## Left out

- `trie_init`, `trie_insert`, `ac_trie_prepare`, `ac_trie_init`: bodies are not in the repository; what they establish is the invariant `Trie.TrieData.Valid`, shown to hold of the empty trie and of one with a word whose failure link leads to an inner node.
- Trie.AcTrieState.AcTrieNext: `leaf` is a 16-bit field; the invariant asks that key lengths fit it.
- AtomicBodies.Cell.AddByCas: other threads are the values they leave in the cell before each access, finitely many; without a bound the loop need not end. The arithmetic is modulo 2^32; the 8-, 16-bit and pointer variants differ in the modulus only.
- CasMode.EveryRunIsLinearizable: one access is one indivisible step of a sequentially consistent memory; memory ordering, spin backoff and the x86 assembly texts are not modelled.
- SkipSpace.SkipTrailingSpace: the address is a number; that the buffer lies within the address space is not modelled.
- Bitmap.BitmapCmp: maps of one size whose buffers are one array or two; buffers that overlap in part and maps of different sizes are not modelled.
- `create_last_word_mask` and the bitmap functions without bodies (intersection, prefix, first bit and others): not in the repository; the mask is the predicate `Bitmap.PaddingMask`.
- IoCache.ReadCache.ReadFunction: the real slow paths are not in the repository; the contract leaves open how much they buffer and where the cursor is after a failure. A device that can fail at any time is covered; locking and shared caches are not modelled.
- IoCache.WriteCache.WriteFunction: a failing slow path is taken to keep what was written before, to take a first part of its argument, and to leave any amount of room; `SEQ_READ_APPEND`, network and FIFO caches are not modelled.
- BitTricks.MyCountBits: the byte tables are parameters with a statement of their entries; `my_count_bits_ushort`, which indexes the same 256 entries by 16 bits, is not modelled.
- Codec.UnsignedReadsAreGeneric: the portable byte-by-byte macros; the unaligned casts for x86 and the float layouts are not modelled.
- Codec.MiSizeStore: the branch for 32-bit file offsets; with 64-bit offsets the macro is the eight-byte store.
- Rint.RoundToInteger: over the real numbers; negative zero, infinities and not-a-number are not modelled.
- JudgeCore.DoJudge: with codes that coincide, the recorded number does not tell the circumstances apart, and only the function of the circumstances is stated. Compiling, process control, the debugger loop, files and the data base are inputs; the plain `ExeRunner`, which is not used, is not modelled. The pass rate is an exact quotient, not a float. Without tests the result is a system error, and the verdict theorems start from one test.
- JudgeCore.RunTests: `setTestDataIndex` only selects the test; the bookkeeping after the loop stands in `DoJudge`.
- Matcher.Compare: characters are those of the buffer; the translation of line ends by a text-mode file is part of the input.
- XmlTree.Print: nodes are values, so one node reached twice and changes during printing are not modelled; `std::endl` is a line feed.
- XmlParser.Parser.ParseReal: the children are returned instead of added to the parent; the first character of an empty tag is taken not to be "/", and a ">" before the "<" is the exception that the negative length raises.
- LzData.ReadAfterWrite: write returns the new tree instead of changing shared nodes, and its result node is not modelled; numbers as values are not modelled.
- The `lzd` text format, its parser and its escapes: a second printer of the same trees with weaker structure.
- Task queue, locks, threads, configuration, data base manager and the MySQL client interface: declarations, I/O and foreign calls.
