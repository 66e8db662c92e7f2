# Verified models of libromano

A Dafny model of the algorithmic core of libromano, a C utility library, with proofs about it. Code
that updates things in place is modelled by classes, arrays and loops; each such method is proved
against a function or an abstract value, and the laws are proved about those. Code made of
expressions is modelled by functions and lemmas. `dafny verify dfyconfig.toml` checks everything.

The parts, and the main result of each:

- **Robin Hood hash map** (`RobinHood`, `Bits`, `HashMaps`). In every state reachable by insertions,
  lookups and removals the table is a finite map with first-write-wins insertion, and every stored
  probe length is below log2 of the capacity. The second half rests on a window-counting argument:
  doubling the capacity and re-inserting every entry cannot lengthen the longest probe, although the
  re-insertion checks no limit.
- **Work-stealing thread pool** (`ThreadPool`, `ThreadPoolWait`, `ThreadPoolCall`, `ThreadPoolSteal`,
  `ThreadPoolTurns`). A step system in which every atomic operation is one step of one thread. In every
  run each item has exactly one owner, is begun at most once and freed exactly once, and a waiter's
  counter is the number of its live items; so a wait that reads zero means that all of them are done, and
  a release leaves nothing. `threadpool_wait` runs beside the pool in steps of its own, and what its
  return means is stated over its last scan. A worker that comes back empty-handed has tried every queue
  exactly once, whatever the others did meanwhile, and an item in a queue it has not yet tried is always
  within its reach.
- **Integer formatting** (`Fmt`). The table-driven digit count is the decimal length of every 64-bit
  number, because every comparison it makes on shifted values is exact.
- **JSON** (`JsonText`, `JsonGrammar`, `JsonRoundTrip`, `JsonLayout`, `JsonCanonical`, `JsonParsers`,
  `JsonWriters`). The parser accepts exactly the documents of a grammar after RFC 8259, which names where
  it is more generous, with the values they derive. For every tree without floats and every indentation,
  what parsing the printed text gives; it is the same tree if and only if the tree is in a stated domain,
  and for those the printed text is the only one that derives the tree and has the writer's layout.
  Parser and writer are imperative and refine the two functions.
- **Regex bytecode** (`Regex`, `RegexEmitter`, `RegexMachine`, `RegexRuns`, `RegexTree`, `RegexMeaning`,
  `RegexPlain`). Which token lists are accepted; that compiled code is whole instructions with every
  placeholder jump resolved; which turns of the machine, exactly, leave the instruction boundaries. For
  every pattern without `+` and every text, a structural evaluator says what `regex_match` answers and
  whether it ever does.
- **Linear algebra over exact reals** (`Matrix`, `MatrixMul`, `Cholesky`, `PositiveDefinite`). The
  factorisation succeeds exactly when a factor exists, and finds the only one; a symmetric matrix has
  one exactly when it is positive definite. The blocked kernels equal the scalar one.
- **Base64, statistics, shuffle** (`Base64`, `Base64Bits`, `Base64Buffers`, `Stats`, `Shuffle`,
  `ShuffleSeeds`). Both round trips of section 4 of RFC 4648, with every character of the text and every
  byte of the data given by its bits; the one-pass variance; and a shuffle that always permutes, with
  which random value leads to which index and what its random values and its seeds can reach.

Some properties one might expect turned out false of the code. Each is kept as the code has it, with an
input at which it fails and the condition under which it holds:

- `threadpool_wait` loads the count of busy workers and looks at the queues in separate steps. It can
  return while an item is running (`ThreadPoolWait.ReturnsWhileRunning`), is in hand and not yet counted
  (`ReturnsBeforeCounted`) or is not yet queued (`ReturnsBeforeQueued`). If nobody outside was submitting
  at the load of the last scan and no item was made during that scan, it is right exactly when no worker
  and no release has an item in hand at the return (`WaitIsRight`); without that assumption
  `NothingLive` has the condition. Seen from the call, before a release and with nobody outside
  submitting, it can return too early exactly if any item is live, even if no item is made from then on
  (`ThreadPoolCall.CallMayFail`).
- The regex machine can jump into the middle of an instruction (`RegexRuns.PlusLeavesBoundaries`); a turn
  does so exactly when it takes the exit jump of a one-or-more loop (`RegexRuns.TurnOnBoundary`), so
  never in an expression without `+` (`RegexRuns.MatchNeverStuck`).
- `regex_match` need not end: `(c?)*` turns for ever on a text that begins with another character
  (`RegexMeaning.OptionalStarredSpins`). Without `+` it ends exactly when the evaluator does not say
  `Forever` (`MatchMeans`). A starred item can make it turn for ever exactly if some character lets the
  item idle, passed with the flag set and nothing consumed (`RegexTree.StarSpins`), and if none of the
  starred items can idle it ends on every text (`SettledStops`). For any bytecode, it ends within a bound
  in the two lengths or never (`DecidedSoon`).
- `c|d` refuses a text that begins with d (`RegexPlain.AlternationRefuses`), because an alternation sign
  compiles like a concatenation; and `cd` accepts the text c (`ShortTextAccepted`). `RightOnAllTexts` has
  the exact condition on a plain pattern for all texts, short ones included; without an alternation sign
  it comes down to a single test, or a first test that fits nothing (`NoSignRight`).
- JSON trees outside the domain do not come back (`JsonRoundTrip.OutsideDomain`); the domain is an
  if-and-only-if (`JsonRoundTrip.RoundTrip`).
- The queue of an item from outside is the 32-bit submission counter modulo the number of workers. As many
  such items as there are workers go to different queues if and only if the counter does not wrap among
  them or the number divides 2^32 (`ThreadPoolTurns.RoundRobin`).
- The shuffle does not reach every permutation. From 21 different elements on there are more permutations
  than seeds (`ShuffleSeeds.SomePermutationMissed`); with a random value of its own for every step it
  would reach all of them up to 2^32 elements (`Shuffle.FreeDrawsReachAll`), and not beyond
  (`Shuffle.LastIndexNeverComes`, `Shuffle.IndexReachable`).

## Model

| member | source | states |
|---|---|---|
| `Bits.RoundU64ToNextPow2` | include/libromano/bit.h:38-48 | for every positive 64-bit x the result is one less than the least power of two that is at least x; the increment in the return statement is lost |
| `Bits.SmearedIsOnes` | include/libromano/bit.h:40-46 | six or-shift steps fill every word of up to 64 bits with ones below its top bit |
| `Bits.NewCapacity` | src/hashmap.c:293-296 | on 64-bit words the capacity asked for when growing is the least power of two above the present one |
| `Bits.NextPow2Doubles` | src/hashmap.c:293-296 | which for a power of two is exactly its double |
| `HashMaps.HomeIsMask` | src/hashmap.c:288-291 | for a power-of-two capacity, masking the hash is reduction to a slot |
| `HashMaps.NextIsMask` | src/hashmap.c:432-432 | masking the index plus one is the cyclic successor |
| `RobinHood.NoCross` | src/hashmap.c:391-444 | no entry's path from its home slot to its own slot crosses an empty slot |
| `RobinHood.StopIsMiss` | src/hashmap.c:631-652 | stopping at an empty bucket or one with a shorter probe never misses a key that is present |
| `RobinHood.MatchOnlyBeforeSeating` | src/hashmap.c:536-546 | key comparisons made after a displacement never match; before it, comparing the cached hash as well loses nothing |
| `RobinHood.Displace` | src/hashmap.c:425-433 | swapping the carried entry with a richer resident keeps the Robin Hood order, the probe lengths, the number of entries, and the map together with the entry in hand |
| `RobinHood.HeldWithinCount` | src/hashmap.c:487-494 | an entry in hand has probed at most as many slots as there are entries, which bounds the recursion of growing insertions |
| `RobinHood.Shift` | src/hashmap.c:687-705 | one backward move of a deletion keeps the map, the count and the order outside the hole |
| `RobinHood.Close` | src/hashmap.c:695-698 | at an empty bucket or one at its home the deletion may stop: the whole table is ordered again and no tombstone is left |
| `RobinHood.DoublingKeepsProbes` | src/hashmap.c:300-342 | if every probe length was below m, then after moving all entries into a table of twice the capacity every probe length is still below m |
| `HashMaps.HashMap.constructor` | src/hashmap.c:344-374 | an empty map whose capacity is a power of two, 1024 by default and otherwise between the size asked for and twice that |
| `HashMaps.HashMap.MoveEntry` | src/hashmap.c:391-444 | adds exactly the entry moved, without a limit test, and keeps a Robin Hood table |
| `HashMaps.HashMap.MoveAll` | src/hashmap.c:326-341 | the new table holds exactly the bindings of the old one |
| `HashMaps.HashMap.Grow` | src/hashmap.c:300-342 | capacity and probe limit go up by one power of two, the map and the size stay, and every probe length is below the old limit |
| `HashMaps.HashMap.InsertBucket` | src/hashmap.c:446-505 | placing a carried entry after growth adds it to the map and loses and duplicates nothing, however often the table grows again; it terminates |
| `HashMaps.HashMap.Insert` | src/hashmap.c:507-568 | the map afterwards is the old map plus the key if it was absent; the table stays valid and its load at most 0.9, including growth in the middle of an insertion |
| `HashMaps.HashMap.Get` | src/hashmap.c:614-653 | exactly the mapped value or nothing, after looking at no more than log2 of the capacity plus one buckets |
| `HashMaps.HashMap.Remove` | src/hashmap.c:655-711 | removes exactly the key; every other binding, the invariant and the size stay right |
| `HashMaps.HashMap.ShiftBack` | src/hashmap.c:687-705 | the backward shift with wrap-around terminates and takes out exactly one entry |
| `HashMaps.HashMap.Iterate` | src/hashmap.c:713-747 | the next occupied bucket from the iterator on, or the end |
| `HashMaps.HashMap.IterateAll` | src/hashmap.c:713-747 | a full pass yields every binding of the map exactly once |
| `HashMaps.HashMap.SizeIsMapSize` | src/hashmap.c:376-379 | the size field is the number of bindings |
| `HashMaps.HashMap.ProbesFitSixteenBits` | src/hashmap.c:219-227 | the probe field never truncates on a 64-bit machine |
| `HashMaps.Run` | src/hashmap.c:507-711 | every sequence of insertions, lookups and removals answers and ends as the finite map does, with a valid table throughout |
| `ThreadPool.InvStep` | src/thread.c:373-694 | every step of every thread keeps the invariant: one reference per live item, exact counters, nothing begun twice |
| `ThreadPool.EveryRun` | src/thread.c:373-511 | in every interleaving each item is in one place, begun at most once and freed exactly once, and each waiter's counter is the number of its live items |
| `ThreadPool.NoSharing` | src/thread.c:462-511 | an item with a worker is with no other worker, in no queue and with no submitter |
| `ThreadPool.WaitSeesAllDone` | src/thread.c:656-660 | when a wait reads zero, every item ever submitted on that waiter, by its own items too, has been freed and nothing refers to it |
| `ThreadPool.ZeroStaysZero` | src/thread.c:391-405 | once zero, the counter stays zero as long as only items counted on it submit on it |
| `ThreadPool.StealPass` | src/thread.c:439-460 | the victims of one steal pass are all other workers, each exactly once |
| `ThreadPoolSteal.Pass` | src/thread.c:439-500 | in any run in which a worker that found nothing only misses, whatever the others do, after m misses it may dequeue from exactly the m-th queue from its own on, and after as many as there are workers it is back at the stop flag |
| `ThreadPoolSteal.EachOnce` | src/thread.c:439-500 | a worker that comes back empty-handed has tried the queue of every worker in exactly one step, its own first, and no other queue |
| `ThreadPoolSteal.Reaches` | src/thread.c:439-500 | from any point of a pass, an item in a queue not yet tried is taken by some continuation of the pass, and nothing else is |
| `ThreadPoolTurns.RoundRobin` | src/thread.c:611-614 | among as many items from outside as there are workers each queue gets exactly one, if and only if the 32-bit counter does not wrap in between or the number of workers divides 2^32 |
| `ThreadPoolTurns.LastItem` | src/thread.c:471-500 | in every run after the stop flag is set a worker begins at most one item, and none unless it had already passed its test of the flag |
| `ThreadPoolTurns.ComesBack` | src/thread.c:597-609 | an item submitted by a running item goes to the end of its worker's own queue, where that worker can take it as soon as it has finished |
| `ThreadPool.ReleaseLeavesNothing` | src/thread.c:662-694 | after a release without outside submitters no item is live, every item ever made has been freed and every counter is zero |
| `ThreadPoolWait.NothingLive` | src/thread.c:424-437 | nothing is live exactly when no thread has an item and no queue holds one |
| `ThreadPoolWait.ReturnHasScan` | src/thread.c:632-653 | a thread that has left the wait did so at the end of a scan begun by a load that read zero |
| `ThreadPoolWait.WaitIsRight` | src/thread.c:625-654 | in every interleaving, with no submission from outside at the load and no item made during the last scan, nothing is live at the return if and only if no worker and no release has an item in hand |
| `ThreadPoolWait.StillScanIsRight` | src/thread.c:625-654 | if moreover nobody had an item at the load and none was taken from a queue during the scan, nothing is live at the return |
| `ThreadPoolCall.CallMayFail` | src/thread.c:625-654 | in every reachable state before a release with nobody outside submitting, some continuation without a new item makes a wait called now return with an item live, if and only if an item is live now |
| `ThreadPoolWait.ReturnsWhileRunning` | src/thread.c:634-649 | a run in which the wait returns while the only item is running, although nobody had it at the load and no thread is between counts at either read |
| `ThreadPoolWait.ReturnsBeforeCounted` | src/thread.c:424-430 | a run in which the wait returns while a worker has taken the item and not yet counted itself |
| `ThreadPoolWait.ReturnsBeforeQueued` | src/thread.c:592-618 | a run in which the wait returns while a submitter has made an item and not yet queued it |
| `Fmt.TableOk` | src/fmt.c:13-61 | each table entry is the digit bound in the top bits less the power of ten shifted exactly, with nothing shifted out and no borrow into the top bits |
| `Fmt.FloorLog2IsLog2` | src/fmt.c:130-133 | the leading-zero count xor 63 is the logarithm |
| `Fmt.CountDigitsIsLength` | src/fmt.c:130-138 | the digit count is the length of the decimal form for every 64-bit number, zero included |
| `Fmt.UtoaFast` | src/fmt.c:153-180 | writes exactly the decimal form, two digits at a time from the right, and touches nothing else |
| `Fmt.AbsI64IsAbs` | include/libromano/bit.h:182-186 | the mask form is the absolute value for every signed 64-bit number, the least one included |
| `Fmt.FmtSizeI64` | src/fmt.c:182-185 | the size is the length of the signed decimal form |
| `Fmt.FmtI64` | src/fmt.c:187-195 | the text is the signed decimal form for every signed 64-bit number and the length returned is its length |
| `Fmt.FmtSizeU64` | src/fmt.c:197-200 | the size is the length of the decimal form |
| `Fmt.FmtU64` | src/fmt.c:202-205 | the text is the decimal form and the length returned is its length |
| `JsonText.ParseValue` | src/json.c:987-1008 | a success consumes input and stays within the text |
| `JsonText.ParseArray` | src/json.c:842-888 | a success consumes input and stays within the text |
| `JsonText.ParseDict` | src/json.c:890-962 | a success consumes input and stays within the text |
| `JsonGrammar.ParseIffDerives` | src/json.c:597-1045 | a text is accepted with a value if and only if the grammar derives that value from it, floats included: blanks around every token, all escapes, numbers by their digits, order and duplicate keys kept |
| `JsonRoundTrip.ParseOfPrint` | src/json.c:842-1045 | what parsing the printed text of any tree without floats gives, at every indentation: the tree as it comes back, a refusal or an overflow |
| `JsonRoundTrip.RoundTrip` | src/json.c:1114-1237 | parsing the printed text gives the same tree if and only if the tree is in the domain |
| `JsonRoundTrip.OutsideDomain` | src/json.c:745-766 | what comes back of numbers from 2^63 on, of signed numbers that are not negative and of vertical tabs |
| `JsonRoundTrip.NumberBack` | src/json.c:745-766 | number parsing undoes the decimal form, and overflows exactly from 2^63 on |
| `JsonRoundTrip.StringBack` | src/json.c:630-714 | string parsing on an escaped string, character by character |
| `JsonRoundTrip.DecodeFits` | src/json.c:630-714 | the decoding pass walks the units of the measuring pass and writes no more than was measured |
| `JsonRoundTrip.ReadWriteRead` | src/json.c:1010-1045 | every accepted document without floats, written at any indentation, reads back as itself up to the sign of an integer zero |
| `JsonLayout.PrintLaidOut` | src/json.c:1114-1237 | every document written is accepted by the layout automaton of its indent |
| `JsonLayout.LineBreaks` | src/json.c:1099-1170 | in a laid out text every line break is outside strings and is followed by exactly the indent times the depth of blanks, one level less before a closing bracket; without an indent there is none |
| `JsonLayout.OwnLines` | src/json.c:1114-1237 | with an indent a line begins after every opening bracket and comma and before every closing bracket, and blanks outside strings are indents or the one after a colon; without an indent only the latter |
| `JsonCanonical.PrintIsTheOne` | src/json.c:1114-1459 | for every tree in the domain and every indent, the text written is the only one that derives the tree and is laid out |
| `JsonParsers.JsonParser.MeasureString` | src/json.c:630-663 | the measuring loop counts the units up to the closing quote, or refuses |
| `JsonParsers.JsonParser.DecodeString` | src/json.c:676-714 | the decoding loop stays inside its buffer and yields the decoded text |
| `JsonParsers.JsonParser.ParseStringText` | src/json.c:610-721 | the string parser refines its function |
| `JsonParsers.JsonParser.ParseNumberText` | src/json.c:745-840 | the number parser refines its function |
| `JsonParsers.JsonParser.ParseArrayText` | src/json.c:842-888 | the array parser refines its function, element order kept |
| `JsonParsers.JsonParser.ParseDictText` | src/json.c:890-962 | the dict parser refines its function, order and duplicate keys kept |
| `JsonParsers.JsonParser.ParseValueText` | src/json.c:987-1008 | the dispatch refines its function |
| `JsonParsers.JsonParse` | src/json.c:1010-1045 | terminates on every text and accepts exactly the documents of the grammar, with the value they derive |
| `JsonWriters.JsonWriter.Reserve` | src/json.c:1060-1087 | keeps the text written and makes room for what is needed and one more |
| `JsonWriters.JsonWriter.EscapedSize` | src/json.c:1358-1371 | the sizing loop, up to the first NUL, never reserves less than the writing loop writes |
| `JsonWriters.JsonWriter.WriteStr` | src/json.c:1353-1397 | appends the quoted string, up to its first NUL, within the reserved space, although the writing loop makes no checks |
| `JsonWriters.JsonWriter.WriteArray` | src/json.c:1114-1170 | appends the printed array and restores the indentation |
| `JsonWriters.JsonWriter.WriteDict` | src/json.c:1172-1237 | appends the printed dict and restores the indentation |
| `JsonWriters.JsonWriter.WriteValue` | src/json.c:1399-1429 | appends the printed value |
| `JsonWriters.JsonWrite` | src/json.c:1431-1459 | the text is laid out with the indent, and for a tree in the domain it is the only laid out text that derives the tree, whatever the number of reallocations |
| `Regex.AcceptedIffScanned` | src/regex.c:468-795 | the emitter accepts a token list if and only if its groups balance and every quantifier directly follows an operand |
| `Regex.AlternationIsConcatenation` | src/regex.c:468-535 | concatenation does not stop at an alternation sign, so the loop over alternatives is dead |
| `Regex.ProgramJumps` | src/regex.c:507-643 | in emitted code every backward jump lands on an instruction, and every other jump is a placeholder for the final Fail or the exit of a one-or-more loop |
| `RegexMachine.BytesRoundTrip` | src/regex.c:353-370 | decoding undoes encoding for every 32-bit jump |
| `RegexMachine.FixUpResolves` | src/regex.c:806-865 | the resolving pass meets no unknown opcode and resolves every placeholder, the ones copied by one-or-more included |
| `RegexMachine.CompileResolves` | src/regex.c:766-868 | every accepted list compiles to whole instructions, the emitted ones with every placeholder resolved |
| `RegexEmitter.Emitter.EmitJumpTo` | src/regex.c:372-403 | a jump pushed with distance zero and patched is the encoded jump |
| `RegexEmitter.Emitter.EmitAlternation` | src/regex.c:468-505 | position, group counter and bytes after the alternation loop are those of the emitted instructions |
| `RegexEmitter.Emitter.EmitConcatenation` | src/regex.c:507-542 | position, group counter and bytes after the concatenation loop are those of the emitted instructions |
| `RegexEmitter.Emitter.EmitQuantified` | src/regex.c:544-643 | position, group counter and bytes after a quantified operand are those of the emitted instructions |
| `RegexEmitter.Emitter.EmitLoop` | src/regex.c:594-625 | copying the operand's bytes and patching both jumps gives the one-or-more instructions |
| `RegexEmitter.Emitter.EmitPrimary` | src/regex.c:645-764 | position, group counter and bytes after a primary are those of the emitted instructions, errors included |
| `RegexEmitter.Emitter.EmitProgram` | src/regex.c:766-868 | accepts exactly the lists that compile and leaves exactly the compiled bytes |
| `RegexRuns.PlaceholderTarget` | src/regex.c:814-831 | under the machine's jump rule a resolved placeholder leads to the final Fail |
| `RegexRuns.ExitInside` | src/regex.c:594-625 | the exit jump of a one-or-more loop always lands inside an operand |
| `RegexRuns.TurnOnBoundary` | src/regex.c:1055-1163 | a turn begun at an instruction never meets an unknown opcode, and leaves the boundaries if and only if it takes the exit jump of a one-or-more loop |
| `RegexRuns.MatchNeverStuck` | src/regex.c:1050-1183 | without one-or-more, on any string and after any number of turns, the machine is at an instruction boundary or has answered |
| `RegexRuns.PlusLeavesBoundaries` | src/regex.c:622-622 | a one-or-more of a character, on every string that goes on with another character, leaves the boundaries at the sixth turn |
| `RegexTree.ItemsCode` | src/regex.c:507-764 | the emitted code is the code of the tree of the pattern, for every accepted list without one-or-more |
| `RegexMeaning.SteadyTurn` | src/regex.c:1061-1160 | a turn at a test, a group mark, a conditional advance or a flag instruction sets position and flag as the instruction says |
| `RegexMeaning.MatchMeans` | src/regex.c:1050-1183 | on every pattern without one-or-more and every text the machine stops if and only if the evaluator of the tree answers, with that answer, and turns for ever if and only if the evaluator says so |
| `RegexMeaning.DecidedSoon` | src/regex.c:1050-1166 | for any bytecode and text the machine never stops if and only if it is still running after twice the product of the two lengths and one more turn |
| `RegexTree.StillIs` | src/regex.c:1055-1163 | with text left, exactly when the evaluator passes an item with nothing consumed, and with which flag; it depends on the next character only |
| `RegexTree.StarSpins` | src/regex.c:578-593 | a star over settled items turns for ever on some text, when reached with the flag set and text left, if and only if some character lets its operand idle |
| `RegexTree.OptionalPairSettled` | src/regex.c:535-536 | an optional group of two tests cannot idle, since the link between them leads to Fail |
| `RegexMeaning.SettledStops` | src/regex.c:1050-1166 | if no starred item can idle, the machine stops within that many turns on every text |
| `RegexMeaning.UngroupedStops` | src/regex.c:1050-1166 | so it does for every pattern without one-or-more and without groups |
| `RegexMeaning.OptionalStarredSpins` | src/regex.c:578-593 | an optional character in a starred group never stops on a text that begins with another character |
| `RegexPlain.TestFits` | src/regex.c:404-446 | the shortcut tests for digits and letters are the ranges they stand for |
| `RegexPlain.PlainMatch` | src/regex.c:1050-1183 | on a pattern of characters, any-characters and ranges joined by signs, and any text, the machine stops, and answers true if and only if pattern and text are not empty and agree at every index both have |
| `RegexPlain.PlainIsIntended` | src/regex.c:507-542 | on one text, when that answer is the intended one, that some alternative matches the beginning of the text; with room for the first alternative it is never true by mistake |
| `RegexPlain.RightOnAllTexts` | src/regex.c:468-542 | a plain pattern gets the intended answer on every text if and only if each alternative that can match implies the whole pattern, no alternative is empty, and alternatives of one test cover the first character of a longer pattern |
| `RegexPlain.NoSignRight` | src/regex.c:507-542 | without an alternation sign that means a single test, or a first test that fits nothing |
| `RegexPlain.AlternationRefuses` | src/regex.c:468-542 | an alternation of two characters refuses every text that begins with the second |
| `RegexPlain.ShortTextAccepted` | src/regex.c:1055-1165 | two characters accept the text of the first alone |
| `Matrix.LanesStep` | include/libromano/simd.h:55-75 | a fused multiply-add of all lanes and the horizontal sum add exactly that many terms of the row product |
| `Matrix.ProductUnique` | src/math_linalg32.c:192-217 | the product determines every cell of the result buffer |
| `MatrixMul.MulScalar` | src/math_linalg32.c:192-217 | the result is the product and every cell is written exactly once |
| `MatrixMul.MulBlocked` | src/math_linalg32.c:227-405 | the kernels of four rows and four or eight lanes, with remainder rows and columns, compute the product and write every cell exactly once, for all sizes |
| `MatrixMul.KernelsAgree` | src/math_linalg32.c:431-439 | the scalar and the blocked kernels leave the same buffer |
| `Cholesky.Decompose` | src/math_linalg32.c:634-696 | succeeds if and only if the matrix is square and some lower triangular factor with positive diagonal exists, and returns that factor |
| `Cholesky.FactorUnique` | src/math_linalg32.c:655-695 | a matrix has at most one such factor |
| `Cholesky.FactorOfSymmetric` | src/math_linalg32.c:655-695 | for a symmetric matrix the factor times its transpose is the matrix, every cell of it |
| `Cholesky.NoFactor` | src/math_linalg32.c:664-673 | a pivot that is not positive shows that no factor exists |
| `PositiveDefinite.NotPositive` | src/math_linalg32.c:664-673 | for a symmetric matrix it shows that the matrix is not positive definite, as the error says |
| `PositiveDefinite.FactorIffPositive` | src/math_linalg32.c:634-696 | a symmetric matrix has a factor, so the factorisation succeeds, if and only if x^T a x is positive for every x that is not zero |
| `Cholesky.ForwardSubstitute` | src/math_linalg32.c:738-754 | the factor times the result is the right-hand side, for every column |
| `Cholesky.SolveLower` | src/math_linalg32.c:698-754 | the first half of the solver: factor and forward substitution together |
| `Stats.StatsMean` | src/math_stats32.c:34-48 | the running interpolation is the arithmetic mean; 0 for no values |
| `Stats.StatsVariance` | src/math_stats32.c:182-205 | the one-pass form is the mean squared distance from the mean |
| `Base64.DecodeOfEncode` | src/base64.c:18-176 | decoding undoes encoding for every non-empty byte string |
| `Base64.EncodeUndoesDecode` | src/base64.c:18-176 | encoding undoes decoding if and only if the text is canonical |
| `Base64.EncodeCanonical` | src/base64.c:18-79 | what the encoder writes is canonical: padded, with no bits left over |
| `Base64.DecodeLength` | src/base64.c:115-134 | the decoded length is the one computed beforehand |
| `Base64.ValueOfSign` | src/base64.c:14-113 | the decode table undoes the encode table |
| `Base64.SignOfValue` | src/base64.c:14-113 | the encode table undoes the decode table on the alphabet |
| `Base64Bits.SignIsLetter` | src/base64.c:14-16 | the encode table is the alphabet by its rule: A to Z, a to z, 0 to 9, plus and slash |
| `Base64Bits.ValueIsLetterValue` | src/base64.c:104-113 | the decode table is the same rule read backwards, with 254 for the pad and 255 for every other character covered |
| `Base64Bits.EncodeBits` | src/base64.c:18-79 | character k of the text is the letter of bits 6k to 6k + 5 of the data padded with zero bits, and the pad past their end |
| `Base64Bits.DecodeBits` | src/base64.c:136-176 | byte k is bits 8k to 8k + 7 of the sextets of the text, for every readable text; a character outside the alphabet runs over into the one before it |
| `Base64Bits.LettersOnly` | src/base64.c:104-176 | when all but the pads are letters, each bit of the result is one bit of one letter |
| `Base64Buffers.EncodeScalar` | src/base64.c:18-79 | fills exactly the buffer of the computed size with the encoding, every character given by its bits |
| `Base64Buffers.DecodeScalar` | src/base64.c:136-176 | fills exactly the buffer of the computed size with the decoding, every byte given by its bits |
| `Base64Buffers.Base64Encode` | src/base64.c:81-102 | the encoding with its size: character k is the letter of bits 6k to 6k + 5 of the data, or the pad |
| `Base64Buffers.Base64Decode` | src/base64.c:178-202 | refused exactly when the length is not a multiple of four, and otherwise the decoding, byte k being bits 8k to 8k + 7 of the text |
| `Shuffle.IndexInRange` | src/vector.c:263-264 | the index stays in the rest of the vector for every 64-bit random value, and the stride does not overflow |
| `Shuffle.IndexIs` | src/vector.c:263-264 | the index is j exactly for the random values from (j - i) * s up to below (j - i + 1) * s, where s is the least number that size - i times exceeds every 64-bit value |
| `Shuffle.IndexReachable` | src/vector.c:263-264 | which indices some random value leads to, exactly |
| `Shuffle.ShuffledPermutes` | src/vector.c:250-268 | whatever the random values, the result is a permutation |
| `Shuffle.ShuffledShuffles` | src/vector.c:261-267 | at every step the element at i changes places with the one at the index where the step's random value lands |
| `Shuffle.FirstElement` | src/vector.c:261-267 | the first element afterwards is the old one at the index the first random value determines |
| `Shuffle.LastIndexNeverComes` | src/vector.c:264-264 | with 2^32 + 1 elements left, no random value leads to the last index |
| `Shuffle.FreeDrawsReachAll` | src/vector.c:250-268 | if every step had a random value of its own, every permutation of at most 2^32 elements would come out for some values |
| `ShuffleSeeds.OrdersSize` | src/vector.c:250-268 | n different elements have n! orders |
| `ShuffleSeeds.SomePermutationMissed` | src/vector.c:263-264 | with at least 21 different elements, whatever the hash function, some permutation comes out for no 64-bit seed |
| `Shuffle.MemSwap` | src/memory.c:81-94 | exchanges two blocks of bytes and touches nothing else |
| `Shuffle.VectorShuffle` | src/vector.c:250-268 | the elements in the buffer, of any size, come of the old ones by those exchanges with the hashes of the seed and its successors, hence permuted; the first is the old element at the index of the hash of the seed |

## Left out

- `hashmap_update`, the packing of keys, sizes and values into a bucket, `hashmap_grow` with rehashing (no caller asks for it), and keys of size 0, which mark an empty bucket.
- Sizes of the hash map are unbounded naturals: the 64-bit limit enters only in `Bits.NewCapacity`, the load limit 0.9 is taken as a fraction, and `mathf_log2` as exact on powers of two.
- HashMaps.HashMap.Iterate: does not model the wrap of the 32-bit index, which on capacities above 2^32 makes the pass start again.
- Weak memory orders, the insides of the concurrent queues (modelled as bags whose removal may miss and whose size is exact), the sleeping and waking of workers, and liveness of the pool.
- Floats in JSON are read by extent only and never written; an overflowing integer is an outcome of its own, since its value is undefined in C.
- JsonParsers.JsonParser.ParseNumberText: keeps a float as its text and does not model its value or the overflow of its exponent.
- JSON values are trees: the linked lists of arrays and dicts are sequences, so `json_array_pop`, `json_dict_pop`, references between values, size tags and allocation failure are not modelled.
- JsonParsers.JsonParser.ParseStringText: says where the position is on success only; a refused `\u` escape may leave it past the end.
- Fmt.UtoaFast: the table of digit pairs is given by its rule rather than as its two hundred characters.
- The meaning of regex matches with one-or-more, whose exit jump leaves the instruction boundaries; code of 2^31 bytes or more; the lexer.
- RegexMeaning.SettledStops: one direction for whole patterns, since a star that can turn for ever may never be reached; for a single star `RegexTree.StarSpins` has both, for a single text `MatchMeans`.
- `isdigit`, `islower` and `isupper` on bytes from 128 on, which are undefined for the negative characters passed to them; the model answers false.
- Rounding: the matrix and statistics code is over exact reals, with the square root as an assumption of `Cholesky.Decompose`; 32-bit index overflow is not modelled.
- `matrixf_transpose` and the back substitution that uses it, `matrixf_mul` below eight rows, and the SIMD statistics.
- Base64Buffers.DecodeScalar: not stated for the empty text and for characters outside '+' to 'z', for which the source reads outside its buffer or its table.
- Base64Buffers.Base64Decode: not stated for the empty text and for characters outside '+' to 'z', for the same reason.
- Shuffle.VectorShuffle: not stated for an empty vector, for which the source's size minus one wraps and the loop runs outside the buffer.
- Which permutations the seeds reach for 20 elements and fewer, which depends on the hash function; `murmur_64` is any function with 64-bit values.
- Strings, vectors beyond the shuffle, the stack, the logger, files, sockets, HTTP, profiling and the other utilities: input and output, or only easy members.
