# Verified models of the repository's algorithms

The repository is a collection of small C and C++ programs. This project models the
self-contained algorithms in them and proves what each is for. Code that works by changing
state is modelled by classes and methods with loops and arrays; what a method does is stated
through functions on sequences, maps and bit strings, and the main theorems are about those
functions, for every input and every run.

| files | what they model |
|---|---|
| `Permutations.dfy` | the lexicographic permutation generator: ranks, the successor step, and the complete enumeration |
| `Polynomials.dfy`, `Words.dfy`, `Crc.dfy`, `BitVectors.dfy` | polynomial arithmetic over two elements, the syndrome and parity shift registers, detection of error bursts, and the bit-field and packing methods |
| `Punctures.dfy` | puncturing of bit vectors and unpuncturing of soft bits |
| `Probing.dfy`, `HashTable.dfy` | the open-addressing hash table that grows and shrinks, with backward-shift deletion |
| `Heaps.dfy`, `PriorityQueue.dfy` | the 1-indexed heap with removal anywhere and an index callback |
| `Strings.dfy`, `NamedVars.dfy` | the store of named variables on top of both, and its sorted traversal |
| `Lists.dfy`, `TimerTable.dfy`, `TimerWheel.dfy` | the circular list with owner pointers, a plain table of timers, and the hashed wheel that refines it |
| `MultiLock.dfy` | the acquisition of several mutexes by any number of threads |
| `ShellSort.dfy` | Shell sort for both orders |
| `SharedBlocks.dfy` | the block allocator whose headers live inside the segment |
| `Codecs.dfy` | base64 and hex text |
| `RingBuffers.dfy`, `MessagePools.dfy` | the byte ring and the message queues over a pool of nodes |
| `RefCounts.dfy` | reference counts and the pointers that keep them |
| `Options.dfy`, `Collections.dfy` | an option type and facts about sequences and sets |

How the models are set up:

- Integers are unbounded except where the width matters and is written out: a word is 64 bits,
  a cell of a bit vector is an octet, a reference count has 16 bits, a block header 12 bits of
  size, and the lap count of a timer with period 0 wraps to 2^32 ticks.
- A 64-bit word is the sequence of its bits, index being exponent; a bit string is a polynomial,
  highest coefficient first.
- Whether `malloc`, `calloc` or `realloc` grant memory is a parameter, as is the address at
  which a shared segment is attached. Hash functions, comparisons and the answers of callbacks
  are arbitrary functions.
- The wheel's `View()` is a table from timers to the tick they are due. Set, cancel, reset and
  tick are proved to be the operations of that table, so the theorems of `TimerTable.dfy` on
  whole runs hold of the wheel.
- The lock protocol is a state machine: one step is one mutex operation of one thread, and a
  run is any interleaving. A thread ends by giving up the mutexes it held before the call.
- Ghost parameters name, for a list, its nodes and, for a message queue, its messages; they
  stand for what a caller knows and do not exist in the original.

Where the code does not do what it is for, the exact condition is proved:

- the generator announces one permutation of zero elements and returns none
  (`Permutations.Enumerate`: the numbers agree exactly for n >= 2);
- without a constant coefficient in the generator polynomial some bursts go unnoticed
  (`Crc.BurstDetection`);
- with owner flags 2, 4, 5 or 6 the lock protocol can deadlock (`MultiLock.DeadlockFreedom`,
  with the two runs that do);
- constructing the 32768th pointer to an object breaks its count (`RefCounts.Pointer.To`,
  `RefCounts.OneTooMany`), and assigning a pointer runs into an assertion already when its
  object has 32766 (`RefCounts.Pointer.Assign`, `RefCounts.SelfAssignment`);
- a block of 4096 bytes or more gets a header with another size, and the walk no longer finds the
  blocks handed out (`SharedBlocks.Segment.Alloc`).

## Model

| member | source | states |
|---|---|---|
| `Permutations.FactorialCounts` | peepuhl/Permutation-Generator.cpp:70-73 | the announced number of results is the number of arrangements of n distinct elements |
| `Permutations.RankBound` | peepuhl/Permutation-Generator.cpp:42-49 | a sequence of n distinct elements has a rank below n! |
| `Permutations.DescendingRank` | peepuhl/Permutation-Generator.cpp:42-49 | a descending sequence has the last rank, n! - 1: the walk that ends at the first element ends at the last permutation |
| `Permutations.RankIsLexicographic` | peepuhl/Permutation-Generator.cpp:51-65 | on the arrangements of one set, lower rank and lexicographic order are the same |
| `Permutations.SuccessorRank` | peepuhl/Permutation-Generator.cpp:51-65 | replacing the pivot by the least larger element of a descending suffix and sorting the rest upwards raises the rank by exactly one |
| `Permutations.ReversedRun` | peepuhl/Permutation-Generator.cpp:51-65 | after the swap, reversing the descending suffix leaves it ascending |
| `Permutations.StepIsSuccessor` | peepuhl/Permutation-Generator.cpp:42-66 | the three loops of one call take a permutation to the one whose rank is one higher |
| `Permutations.PermutationGenerator.constructor` | peepuhl/Permutation-Generator.cpp:28-30 | a new generator has produced nothing yet |
| `Permutations.PermutationGenerator.Swap` | peepuhl/Permutation-Generator.cpp:21-25 | exchanges two positions of the vector and leaves the others |
| `Permutations.PermutationGenerator.Fill` | peepuhl/Permutation-Generator.cpp:34-40 | the first call produces 1..n, the permutation of rank 0 |
| `Permutations.PermutationGenerator.FindDecrease` | peepuhl/Permutation-Generator.cpp:42-49 | finds the position before the longest descending suffix, or reports that the whole vector is the last permutation |
| `Permutations.PermutationGenerator.FindNextLarger` | peepuhl/Permutation-Generator.cpp:51-54 | finds the rightmost element above the pivot, all later ones being below |
| `Permutations.PermutationGenerator.ReverseSuffix` | peepuhl/Permutation-Generator.cpp:58-65 | reverses the vector behind the pivot and leaves the front alone |
| `Permutations.PermutationGenerator.Successor` | peepuhl/Permutation-Generator.cpp:42-66 | turns the vector into the permutation of the next rank, which is lexicographically greater, or finds it is the last and leaves it |
| `Permutations.PermutationGenerator.Next` | peepuhl/Permutation-Generator.cpp:32-67 | a call returns rank 0 first, then the permutation of the next rank, and after the last rank the empty vector, then and on every later call |
| `Permutations.Enumerate` | peepuhl/Permutation-Generator.cpp:81-93 | the loop of main collects the permutations of ranks 0, 1, ... in turn; their number is the announced factorial exactly when n >= 2 (for n = 0 one is announced and none comes) |
| `Permutations.EnumerationIsComplete` | peepuhl/Permutation-Generator.cpp:81-93 | n! results with ranks 0, 1, ... hold every permutation of 1..n exactly once, in strictly increasing lexicographic order |
| `Polynomials.RemainderIsUnique` | nopebts/CommonLibs/BitVector.h:68-77 | a polynomial has at most one remainder of lower degree than the generator, so the two shift registers have one reference to agree with |
| `Polynomials.ProductIsLinear` | nopebts/CommonLibs/BitVector.h:68-88 | multiplication by the generator distributes over exclusive or |
| `Crc.SyndromeIsRemainder` | nopebts/CommonLibs/BitVector.cpp:198-205 | the register after any data is the remainder of the data polynomial modulo the generator polynomial |
| `Crc.ParityIsRemainder` | nopebts/CommonLibs/BitVector.cpp:207-214 | the parity word of any data is the remainder of data * x^m modulo the same polynomial |
| `Crc.CodewordDivides` | nopebts/CommonLibs/BitVector.cpp:207-214 | putting the remainder of data * x^m in place of its m zero coefficients makes the generator divide the codeword |
| `Crc.CodewordSyndrome` | nopebts/CommonLibs/BitVector.cpp:261-272 | data followed by its parity has syndrome 0 and data followed by the inverted parity has the all-ones syndrome of 3GPP TS 45.003 section 4.1.2, for data of every length |
| `Crc.ZeroSyndrome` | nopebts/CommonLibs/BitVector.cpp:261-265 | the syndrome is zero exactly for the multiples of the generator polynomial |
| `Crc.SyndromeIsLinear` | nopebts/CommonLibs/BitVector.h:72-77 | the syndrome of an exclusive or is the exclusive or of the syndromes |
| `Crc.SyndromeOfConcat` | nopebts/CommonLibs/BitVector.cpp:198-205 | the syndrome can be computed piecewise: the register after the first part is the start for the second |
| `Crc.StaysNonZero` | nopebts/CommonLibs/BitVector.h:72-77 | with a constant coefficient in the generator, zero input never clears a non-zero register |
| `Crc.BurstIsDetected` | nopebts/CommonLibs/BitVector.cpp:261-265 | with a constant coefficient, an error confined to m consecutive positions changes the syndrome of any word |
| `Crc.BurstDetection` | nopebts/CommonLibs/BitVector.cpp:261-265 | all bursts of up to m positions are detected in words of every length exactly when the generator has a constant coefficient; one position more is never always detected |
| `BitVectors.Generator.constructor` | nopebts/CommonLibs/BitVector.h:54-58 | a generator of length 1 to 63 starts with a zero register; mMask selects the mLen low bits |
| `BitVectors.Generator.Polynomial` | nopebts/CommonLibs/BitVector.h:46-50 | the generator polynomial has the leading coefficient 1 and bit k of mCoeff as the coefficient of x^k for k below mLen, whatever mCoeff holds above |
| `BitVectors.Generator.State` | nopebts/CommonLibs/BitVector.h:64 | state() holds the register in its low bits and zeros above |
| `BitVectors.Generator.SyndromeShift` | nopebts/CommonLibs/BitVector.h:72-77 | the register takes one reduction step of the syndrome, whatever the bits above the mask held |
| `BitVectors.Generator.EncoderShift` | nopebts/CommonLibs/BitVector.h:83-88 | the register takes one reduction step of the parity, whatever the bits above the mask held |
| `BitVectors.BitVector.Syndrome` | nopebts/CommonLibs/BitVector.cpp:198-205 | returns, in mLen bits, the remainder of the vector modulo the generator polynomial |
| `BitVectors.BitVector.Parity` | nopebts/CommonLibs/BitVector.cpp:207-214 | returns, in mLen bits, the remainder of the vector times x^mLen |
| `BitVectors.BitVector.PeekField` | nopebts/CommonLibs/BitVector.cpp:59-70 | reads a field most significant bit first; a field wider than the word keeps its last 64 bits |
| `BitVectors.BitVector.PeekFieldReversed` | nopebts/CommonLibs/BitVector.cpp:73-84 | reads a field least significant bit first |
| `BitVectors.BitVector.FillField` | nopebts/CommonLibs/BitVector.cpp:107-118 | writes a value most significant bit first, one bit a cell with the cell's upper seven bits zero, and changes no other cell |
| `BitVectors.BitVector.FillFieldReversed` | nopebts/CommonLibs/BitVector.cpp:121-132 | writes a value least significant bit first, one bit a cell with the cell's upper seven bits zero, and changes no other cell |
| `BitVectors.BitVector.Invert` | nopebts/CommonLibs/BitVector.cpp:155-160 | complements every bit of every cell |
| `BitVectors.BitVector.Pack` | nopebts/CommonLibs/BitVector.cpp:365-376 | fills the target with the vector's bits, highest first, the last byte padded with zeros |
| `BitVectors.BitVector.Unpack` | nopebts/CommonLibs/BitVector.cpp:395-406 | sets every cell to one bit of the packed bytes, bit 7 of byte 0 first, with the cell's upper seven bits zero |
| `BitVectors.PackRoundTrip` | nopebts/CommonLibs/BitVector.cpp:365-406 | unpacking the packed form restores a vector of any length |
| `BitVectors.ParityChecker.WriteParityWord` | nopebts/CommonLibs/BitVector.cpp:267-272 | writes the parity of the data, inverted unless asked otherwise, most significant bit first into the first mLen cells of the target and leaves the rest |
| `BitVectors.ParityChecker.Syndrome` | nopebts/CommonLibs/BitVector.cpp:261-265 | starts from a cleared register and returns the syndrome of the received word |
| `HashTable.SizeAfter` | paperplane/src/pp_base/pp_named_var.c:388-391 | every size reached is odd and at least 29, and 29 only when nothing has been gained by growing |
| `HashTable.SizeClosedForm` | paperplane/src/pp_base/pp_named_var.c:378-411 | every reachable table size is 32 * 2^k - 3 |
| `HashTable.LoadTest` | paperplane/src/pp_base/pp_named_var.c:495-547 | the integer load quotient exceeds a mark exactly when the exact fraction reaches the mark plus one |
| `HashTable.ResizedLoad` | paperplane/src/pp_base/pp_named_var.c:378-411 | after growing or shrinking the same elements are below the high water mark, so re-adding them resizes nothing |
| `Probing.CanMoveIsHalfRing` | paperplane/src/pp_base/pp_named_var.c:419-435 | the test of can_move_obj says exactly whether the hole is at most half a ring ahead of the ideal slot |
| `Probing.RunIsShort` | paperplane/src/pp_base/pp_named_var.c:490-572 | an unbroken run of used slots is no longer than the number of stored objects |
| `Probing.TestIsExact` | paperplane/src/pp_base/pp_named_var.c:555-570 | at the bounded load the test moves an object exactly when its probe path leads over the hole, across the wraparound too |
| `Probing.ProbeMisses` | paperplane/src/pp_base/pp_named_var.c:580-593 | a probe that meets an empty slot has passed every object with that ideal slot |
| `Probing.InsertKeeps` | paperplane/src/pp_base/pp_named_var.c:507-518 | putting an object in the first empty slot of its probe keeps every object reachable |
| `Probing.GapStep` | paperplane/src/pp_base/pp_named_var.c:555-570 | one step of the backward shift keeps all objects but those behind the hole reachable and the stored set unchanged |
| `Probing.GapEnds` | paperplane/src/pp_base/pp_named_var.c:555-570 | when the next slot is empty every object is reachable without exception |
| `HashTable.Hash.constructor` | paperplane/src/pp_base/pp_named_var.c:443-465 | a new table of 29 slots stores nothing |
| `HashTable.Hash.Marks` | paperplane/src/pp_base/pp_named_var.c:495-547 | the table counts as full when one more object would make it 26 percent or more, and as sparse when it has more than 29 slots and less than 2 percent are used |
| `HashTable.Hash.Resize` | paperplane/src/pp_base/pp_named_var.c:378-411 | the stored objects are the same in the new table, grown or shrunk one step; without memory nothing changes |
| `HashTable.Hash.NewTable` | paperplane/src/pp_base/pp_named_var.c:385-401 | installs an empty table of the new size |
| `HashTable.Hash.Refill` | paperplane/src/pp_base/pp_named_var.c:401-407 | re-adds every object of the old table, without a further resize |
| `HashTable.Hash.Probe` | paperplane/src/pp_base/pp_named_var.c:507-515 | ends at an empty slot with an unbroken path from the ideal one, or at the object itself |
| `HashTable.Hash.Add` | paperplane/src/pp_base/pp_named_var.c:490-519 | stores the object exactly when it is new and memory is granted where one more would make 26 percent or more, in which case the table grows from n to 2n + 3 slots first; every object stays reachable |
| `HashTable.Hash.Locate` | paperplane/src/pp_base/pp_named_var.c:533-541 | finds the object exactly when it is stored |
| `HashTable.Hash.Remove` | paperplane/src/pp_base/pp_named_var.c:527-572 | takes the object out, shrinks a table of more than 29 slots from n to n / 2 - 1 when less than 2 percent are left used and memory is granted, and keeps every other object reachable |
| `HashTable.Hash.CloseGap` | paperplane/src/pp_base/pp_named_var.c:555-570 | the backward shift ends, keeps the remaining objects and leaves each reachable |
| `HashTable.Hash.Get` | paperplane/src/pp_base/pp_named_var.c:580-593 | returns a stored object with the key, or nothing exactly when no stored object has it |
| `HashTable.Hash.Snapshot` | paperplane/src/pp_base/pp_named_var.c:601-624 | the traversal of the table meets every stored object exactly once, or nobody when its list gets no memory |
| `Heaps.RootIsFirst` | paperplane/src/pp_base/pp_named_var.c:819-822 | in a heap nothing precedes the root |
| `Heaps.UpStep` | paperplane/src/pp_base/pp_named_var.c:672-691 | exchanging an element with the parent it precedes moves the disturbance up and disturbs nothing else |
| `Heaps.DownStep` | paperplane/src/pp_base/pp_named_var.c:699-726 | exchanging an element with its greater child moves the disturbance down and disturbs nothing else |
| `Heaps.GreaterChild` | paperplane/src/pp_base/pp_named_var.c:699-726 | the child the loop picks is in order with both children |
| `Heaps.RemoveStarts` | paperplane/src/pp_base/pp_named_var.c:795-811 | moving the last element into any gap disturbs the heap around that slot only and keeps the other elements |
| `Heaps.ReportedIsQueued` | paperplane/src/pp_base/pp_named_var.c:672-691 | only a queued object has a slot reported for it |
| `PriorityQueue.Queue.constructor` | paperplane/src/pp_base/pp_named_var.c:734-752 | a new queue is empty and 1-indexed |
| `PriorityQueue.Queue.UpHeap` | paperplane/src/pp_base/pp_named_var.c:672-691 | restores the heap order upwards from a slot, keeps the elements and reports each moved element's slot |
| `PriorityQueue.Queue.DownHeap` | paperplane/src/pp_base/pp_named_var.c:699-726 | restores the heap order downwards from a slot, keeps the elements and reports each moved element's slot |
| `PriorityQueue.Queue.Insert` | paperplane/src/pp_base/pp_named_var.c:772-787 | adds the object, growing the heap when full, or fails exactly when memory is refused; stored index and position agree |
| `PriorityQueue.Queue.Remove` | paperplane/src/pp_base/pp_named_var.c:795-811 | takes out exactly the object of any valid slot and keeps the order of the rest; stored index and position agree |
| `PriorityQueue.Queue.RemoveNext` | paperplane/src/pp_base/pp_named_var.c:819-822 | returns an element that no queued one precedes and keeps the others |
| `PriorityQueue.Queue.Drain` | paperplane/src/pp_base/pp_named_var.c:1448-1457 | emptying the queue gives every element once and, for any total preorder, in non-increasing order |
| `Strings.StrCmpIsAntisymmetric` | paperplane/src/pp_base/pp_named_var.c:973-976 | the name order of the queue is antisymmetric and total |
| `Strings.StrCmpIsLexicographic` | paperplane/src/pp_base/pp_named_var.c:973-976 | the comparison is negative exactly when the first string is a proper prefix or has the smaller character at the first difference |
| `Strings.StrCmpIsTransitive` | paperplane/src/pp_base/pp_named_var.c:973-976 | the name order of the queue is transitive |
| `NamedVars.EntriesAreOrdered` | paperplane/src/pp_base/pp_named_var.c:973-976 | the comparison the store gives its queue is a total preorder, lower names first |
| `NamedVars.Entry.constructor` | paperplane/src/pp_base/pp_named_var.c:1210-1243 | a new variable has its name, flags and value and one reference |
| `NamedVars.VarTree.constructor` | paperplane/src/pp_base/pp_named_var.c:996-1020 | a new store has no variables |
| `NamedVars.VarTree.Find` | paperplane/src/pp_base/pp_named_var.c:1171-1185 | finds the variable of that name exactly when there is one |
| `NamedVars.VarTree.Get` | paperplane/src/pp_base/pp_named_var.c:1091-1163 | returns the value stored under the name, or nothing when there is none; a string needs room for its terminating zero in the caller's buffer, and the size tells its length or the room it needs; with any other value the size is left as it was |
| `NamedVars.VarTree.SetTree` | paperplane/src/pp_base/pp_named_var.c:1171-1250 | the store as a map gains exactly this binding; another type than before is refused and changes nothing; refused memory leaves the name unbound |
| `NamedVars.VarTree.Release` | paperplane/src/pp_base/pp_named_var.c:1076-1083 | gives one reference back; the last one takes exactly this variable out |
| `NamedVars.VarTree.QueueAll` | paperplane/src/pp_base/pp_named_var.c:1420-1432 | queues every variable once and takes one reference on each |
| `NamedVars.VarTree.Drain` | paperplane/src/pp_base/pp_named_var.c:1434-1460 | the queue gives the variables in name order and each reference is given back |
| `NamedVars.MatchesPrefix` | paperplane/src/pp_base/pp_named_var.c:1420-1425 | a name matches when the pattern, less its last character when that is an asterisk, is a prefix of it |
| `NamedVars.VarTree.ForEach` | paperplane/src/pp_base/pp_named_var.c:1408-1465 | visits exactly the variables whose name begins with the pattern, less its last character when that is an asterisk, or all without a pattern, each once, in strictly increasing name order, and leaves table and reference counts as they were |
| `Lists.Node.Head` | airguitar/src/bse/src/bs_list.c:6-12 | an empty list is a ring of the head alone |
| `Lists.InsertFirst` | airguitar/src/bse/src/bs_list.c:46-55 | the list has the entry in front and is otherwise the same |
| `Lists.InsertLast` | airguitar/src/bse/src/bs_list.c:57-66 | the list has the entry at the end and is otherwise the same |
| `Lists.Remove` | airguitar/src/bse/src/bs_list.c:76-83 | the list loses the entry at its position and its size field stays its length |
| `Lists.WalkMeetsEntries` | airguitar/src/bse/src/bs_list.c:14-44 | walking a list with first and next, or last and prev, meets its entries in order and ends |
| `TimerWheel.Remaining` | airguitar/src/bse/src/bs_tmo.c:107-109 | whatever its slot and laps, a timer on the wheel has at least one tick to go |
| `TimerWheel.SetSlot` | airguitar/src/bse/src/bs_tmo.c:107-109 | slot and lap of a set timer stand for msec / 10 + 1 ticks |
| `TimerWheel.RepeatSlot` | airguitar/src/bse/src/bs_tmo.c:69-73 | slot and lap of a repeated timer stand for the period rounded up to whole ticks, a zero period for 2^32 ticks |
| `TimerWheel.TickSlot` | airguitar/src/bse/src/bs_tmo.c:45-57 | one tick brings every slot one nearer; the slot reached is due or has a lap less |
| `TimerWheel.Apart` | airguitar/src/bse/src/bs_list.c:46-83 | the owner pointer keeps a timer in at most one list of the wheel |
| `TimerWheel.Wheel.constructor` | airguitar/src/bse/src/bs_tmo.c:86-93 | a wheel of empty lists stands for the empty table |
| `TimerWheel.Init` | airguitar/src/bse/src/bs_tmo.c:86-96 | makes the 256 empty lists and the wheel at slot 0 |
| `TimerWheel.Wheel.Set` | airguitar/src/bse/src/bs_tmo.c:98-114 | setting an unarmed timer is the table's set operation: it is due msec / 10 + 1 ticks later |
| `TimerWheel.Wheel.Cancel` | airguitar/src/bse/src/bs_tmo.c:116-123 | cancelling an armed timer is the table's cancel operation |
| `TimerWheel.Wheel.Reset` | airguitar/src/bse/src/bs_tmo.c:125-129 | resetting is the table's reset operation: the timer is due its own msec / 10 + 1 ticks later |
| `TimerWheel.Wheel.Lap` | airguitar/src/bse/src/bs_tmo.c:54-57 | a timer with laps to go loses one and stays due when it was |
| `TimerWheel.Wheel.Rearm` | airguitar/src/bse/src/bs_tmo.c:67-76 | a repeated timer is due after the least number of 10 ms ticks that is not shorter than its period, one of period 0 after 2^32 ticks |
| `TimerWheel.Wheel.Visit` | airguitar/src/bse/src/bs_tmo.c:52-77 | the visit of one entry calls it exactly when it is due and sets it again, its period rounded up to 10 ms ticks later, exactly when its callback asks |
| `TimerWheel.Wheel.Tick` | airguitar/src/bse/src/bs_tmo.c:41-82 | a tick is the table's tick: it calls exactly the timers due now, each once, sets those whose callback asks again, their periods rounded up to 10 ms ticks later, and keeps every armed timer in exactly one list |
| `TimerWheel.Wheel.Round` | airguitar/src/bse/src/bs_tmo.c:41-82 | timer by timer: off the wheel go exactly those due now that have no callback or are not repeated, the others stay due when they were, and the repeated ones are due a period later |
| `TimerWheel.Wheel.Advance` | airguitar/src/bse/src/bs_tmo.c:41-46 | the pulse counts up and the slot moves on around the wheel |
| `TimerTable.SetTimer` | airguitar/src/bse/src/bs_tmo.c:67-114 | over any run that leaves it alone and for any answers, a timer set at tick t is called first at t + msec / 10 + 1, the calls and the pending one are the period rounded up to 10 ms ticks (2^32 ticks for period 0) apart, and they end with the first call that is refused a repetition |
| `TimerTable.ResetTimer` | airguitar/src/bse/src/bs_tmo.c:125-129 | a reset timer is called as if set anew: first its own msec / 10 + 1 ticks later, then a rounded-up period apart |
| `TimerTable.CancelledTimer` | airguitar/src/bse/src/bs_tmo.c:116-123 | a cancelled timer is not called again |
| `TimerTable.TimerRun` | airguitar/src/bse/src/bs_tmo.c:52-77 | the same for a timer armed already: the first call comes when it is due, the next ones a rounded-up period apart, up to the first refused |
| `TimerTable.RepeatingTimer` | airguitar/src/bse/src/bs_tmo.c:67-76 | an armed repeating timer is called when due and then always a rounded-up period later, and stays armed for the next call |
| `TimerTable.OneShotTimer` | airguitar/src/bse/src/bs_tmo.c:59-77 | a timer that does not repeat is called once, when due, and never again; one without a callback goes off the wheel uncalled |
| `TimerTable.UnarmedTimer` | airguitar/src/bse/src/bs_tmo.c:48-80 | a timer that is not armed is never called |
| `TimerTable.Period` | airguitar/src/bse/src/bs_tmo.c:69-73 | the ticks between two calls are the least number of 10 ms that is not shorter than the period, and 2^32 for period 0 |
| `TimerTable.Delay` | airguitar/src/bse/src/bs_tmo.c:107-109 | the ticks from setting a timer to its first call are the least number of 10 ms longer than msec |
| `MultiLock.StepKeepsInvariant` | nopebts/CommonLibs/Threads.cpp:213-265 | every step keeps the mutexes and the threads' own flags in agreement and each thread in an allowed state |
| `MultiLock.RunKeepsInvariant` | nopebts/CommonLibs/Threads.cpp:208-265 | so does every run |
| `MultiLock.RunKeepsAccounts` | nopebts/CommonLibs/Threads.cpp:208-265 | with any owner flags every run keeps the mutexes and the threads' own flags in agreement |
| `MultiLock.WaitersHoldNothing` | nopebts/CommonLibs/Threads.cpp:249-262 | in a reachable state with safe owner flags a thread that cannot step is at a blocking lock, holds none of its mutexes, and waits for one that another thread holds |
| `MultiLock.SafeThreadsDoNotDeadlock` | nopebts/CommonLibs/Threads.cpp:245-265 | with safe owner flags every reachable state with unfinished threads has an enabled step, for any number of threads and any sharing of mutexes |
| `MultiLock.AcquiredAndRestored` | nopebts/CommonLibs/Threads.h:195-222 | for any owner flags and any run: when the constructor has returned all three mutexes are held by this thread alone, and after the destructor exactly those held on entry |
| `MultiLock.EveryRunCanFinish` | nopebts/CommonLibs/Threads.cpp:245-265 | every run from a start with safe flags can be continued until all threads have finished |
| `MultiLock.RefusedRoundIsUndone` | nopebts/CommonLibs/Threads.cpp:247-264 | a thread that took the mutex it waited for and is refused one of the others gives back in its next steps all it took, so that every mutex is as it was, and waits for the next of the three |
| `MultiLock.OtherTwo` | nopebts/CommonLibs/Threads.cpp:248-260 | each round tries the other two mutexes in rising order |
| `MultiLock.CrossedEntry` | nopebts/CommonLibs/Threads.cpp:249 | with bit 2 or 4 set but not bit 1, two crossed threads deadlock at once: the first blocking lock waits while another mutex is held |
| `MultiLock.KeptThird` | nopebts/CommonLibs/Threads.cpp:249-262 | with bits 1 and 4 but not 2 set, two threads deadlock: a refused round keeps the third mutex |
| `MultiLock.DeadlockFreedom` | nopebts/CommonLibs/Threads.cpp:208-265 | threads with the same owner flags are free of deadlock exactly when the flags are 0, 1, 3 or 7 |
| `ShellSort.PassKeepsGap` | design_patterns_eplained_simply/behavioral_design_patterns/template_method_design_pattern.cpp:12-16 | sorting the chains of one gap keeps the order of any other gap |
| `ShellSort.DoSwap` | design_patterns_eplained_simply/behavioral_design_patterns/template_method_design_pattern.cpp:20-25 | exchanges two cells and leaves the others |
| `ShellSort.Insert` | design_patterns_eplained_simply/behavioral_design_patterns/template_method_design_pattern.cpp:14-16 | the innermost loop brings position i into order on its chain and keeps each chain's elements |
| `ShellSort.Pass` | design_patterns_eplained_simply/behavioral_design_patterns/template_method_design_pattern.cpp:13-16 | a pass leaves the array ordered for its gap and for every gap it was ordered for, and keeps each chain's elements |
| `ShellSort.Sort` | design_patterns_eplained_simply/behavioral_design_patterns/template_method_design_pattern.cpp:10-17 | the result is a permutation of any input, non-decreasing for the upward sort and non-increasing for the downward one, ordered for every gap used |
| `ShellSort.GapOneSorts` | design_patterns_eplained_simply/behavioral_design_patterns/template_method_design_pattern.cpp:28-43 | order at gap 1 makes the whole sequence non-decreasing for the upward sort and non-increasing for the downward one |
| `SharedBlocks.SetAllocKeepsSize` | paperplane/src/pp_base/pp_shared_tag.c:21-28 | writing the alloc bit of the header leaves its size field |
| `SharedBlocks.SetSizeKeepsAlloc` | paperplane/src/pp_base/pp_shared_tag.c:21-28 | writing the size field stores the low 12 bits and leaves the alloc bit |
| `SharedBlocks.BlocksAreDisjoint` | paperplane/src/pp_base/pp_shared_tag.c:176-196 | in a tiled segment a block's 4-byte header and its size bytes of data end before the next header begins, less than 4 bytes later, and inside the segment |
| `SharedBlocks.FrontierFollows` | paperplane/src/pp_base/pp_shared_tag.c:176-196 | the first free word comes less than 4 bytes after the data of the last block |
| `SharedBlocks.Rewritten` | paperplane/src/pp_base/pp_shared_tag.c:204-205 | a header rewritten for the same number of words keeps the tiling, with this block changed only |
| `SharedBlocks.Extended` | paperplane/src/pp_base/pp_shared_tag.c:204-205 | a header written at the frontier extends the tiling by one block |
| `SharedBlocks.DataWritten` | paperplane/src/pp_base/pp_shared_tag.c:278-388 | writing the data of a block disturbs no header |
| `SharedBlocks.FirstFit` | paperplane/src/pp_base/pp_shared_tag.c:176-196 | names the first free block with exactly the asked number of words, if there is one |
| `SharedBlocks.TakenIsTiled` | paperplane/src/pp_base/pp_shared_tag.c:176-207 | handing out the first fit, or a new block at the frontier, leaves the segment tiled by its blocks |
| `SharedBlocks.HandedOut` | paperplane/src/pp_base/pp_shared_tag.c:173-207 | the block handed out is the first free one of as many words or lies behind all others; its header and its bytes are inside the segment and overlap no other block, and the other blocks stay |
| `SharedBlocks.RoomCondition` | paperplane/src/pp_base/pp_shared_tag.c:173-202 | there is room exactly when a free block of as many words exists or eight times the rounded size fits behind the last block; an empty segment serves requests of up to 131068 bytes |
| `SharedBlocks.TooBigIsNotTiled` | paperplane/src/pp_base/pp_shared_tag.c:21-28 | no segment is tiled by blocks one of which was asked for with 4096 bytes or more |
| `SharedBlocks.Segment.Attach` | paperplane/src/pp_base/pp_shared_tag.c:111-142 | an attached segment is all zeros: tiled by no blocks |
| `SharedBlocks.Segment.FindFit` | paperplane/src/pp_base/pp_shared_tag.c:176-196 | the walk ends, at the first free block of the right number of words or at the frontier |
| `SharedBlocks.Segment.Claim` | paperplane/src/pp_base/pp_shared_tag.c:204-207 | writes one header word and nothing else; the segment stays tiled exactly when the size is below 4096 |
| `SharedBlocks.Segment.Alloc` | paperplane/src/pp_base/pp_shared_tag.c:150-207 | succeeds exactly for a positive size with a fitting free block or room at the frontier, and returns the first such place, where size bytes overlap no other block; one header changes, which keeps the size modulo 4096, and the segment stays tiled by the blocks handed out exactly when the size is below 4096 |
| `SharedBlocks.Segment.Free` | paperplane/src/pp_base/pp_shared_tag.c:420-429 | clears the lowest bit of one block's header and changes nothing else |
| `SharedBlocks.SharedMemory.Alloc` | paperplane/src/pp_base/pp_shared_tag.c:223-236 | the first of the sixteen segments with room serves the request with size bytes that overlap no other block; the blocks of all others are unchanged, and all stay tiled exactly when the size is below 4096 |
| `SharedBlocks.BaseOf` | paperplane/src/pp_base/pp_shared_tag.c:244-258 | finds the first segment whose range holds the address, if any does |
| `SharedBlocks.Locate` | paperplane/src/pp_base/pp_shared_tag.c:244-276 | base and offset of a block lead back to its segment and its address |
| `Codecs.Digit` | nopebts/CommonLibs/Utils.cpp:610-619 | the alphabet of RFC 4648 section 4: the reverse map undoes it, and no digit is white space or padding |
| `Codecs.AlphabetInOrder` | nopebts/CommonLibs/Utils.cpp:610 | the digits are those of the original's table, in its order, and the reverse map gives a value below 64 to no other character |
| `Codecs.DigitsAreTheBits` | nopebts/CommonLibs/Utils.cpp:632-649 | the digits of the encoding of any bytes are, six bits each, the bits of the bytes, filled up with zero bits, and its length is 4 for every 3 bytes begun, as RFC 4648 section 4 says |
| `Codecs.PaddingPlaces` | nopebts/CommonLibs/Utils.cpp:632-649 | the encoding ends with as many '=' as bytes are missing from the last group of three, and has none elsewhere |
| `Codecs.HexDigitsAreTheBits` | nopebts/CommonLibs/Utils.cpp:752-759 | the digits of the hex text of any bytes are, four bits each, the bits of the bytes, as RFC 4648 section 8 says |
| `Codecs.Base64Encode` | nopebts/CommonLibs/Utils.cpp:632-649 | produces the encoding that the round trip is proved of |
| `Codecs.Base64Decode` | nopebts/CommonLibs/Utils.cpp:653-686 | for every text, valid or not, returns the bytes of its digits and the error message its characters call for |
| `Codecs.GatherDigits` | nopebts/CommonLibs/Utils.cpp:658-677 | takes in up to four digits past white space and bad characters and ends the text at the first padding |
| `Codecs.ScanPadding` | nopebts/CommonLibs/Utils.cpp:664-671 | after padding reports an error exactly when something but padding and white space follows |
| `Codecs.WhatIsReported` | nopebts/CommonLibs/Utils.cpp:659-676 | data after a '=' is reported; otherwise a character that is no digit, white space or '=' is; otherwise the error message is left alone |
| `Codecs.DecodedIsTheBits` | nopebts/CommonLibs/Utils.cpp:653-686 | decoding any text, valid or not: the bytes are, eight bits each, the bits of the digits, six each; a rest of one or two digits makes one byte, of three two |
| `Codecs.CompactReadsTheSame` | nopebts/CommonLibs/Utils.cpp:663 | white space changes neither the digits read nor the error message |
| `Codecs.EncodedReadsBack` | nopebts/CommonLibs/Utils.cpp:632-686 | decoding the encoding of any bytes returns them and reports nothing |
| `Codecs.Base64RoundTrip` | nopebts/CommonLibs/Utils.cpp:632-686 | so does decoding it with white space put anywhere |
| `Codecs.HexDigit` | nopebts/CommonLibs/Utils.cpp:719-723 | the hex digit of the value, undone by the reverse map and never white space |
| `Codecs.HexAlphabet` | nopebts/CommonLibs/Utils.cpp:622-626 | the digits written are 0-9 and upper-case A-F in order, and those and lower-case a-f are the only characters read as values below 16 |
| `Codecs.HexEncode` | nopebts/CommonLibs/Utils.cpp:752-759 | produces two digits a byte, the high half first |
| `Codecs.HexDecode` | nopebts/CommonLibs/Utils.cpp:691-717 | for every text, valid or not, returns the bytes of its pairs and the error message its characters and their number call for |
| `Codecs.HexByteAt` | nopebts/CommonLibs/Utils.cpp:691-717 | byte k is made of characters 2k and 2k + 1, high half first; a bad character counts for nothing and a last single one makes a byte of its own |
| `Codecs.HexReported` | nopebts/CommonLibs/Utils.cpp:703-715 | an odd number of characters is reported, otherwise a bad character, otherwise nothing |
| `Codecs.HexRoundTrip` | nopebts/CommonLibs/Utils.cpp:691-759 | decoding the hex text of any bytes, with white space put anywhere, returns them and reports nothing |
| `Codecs.EncodeToString` | nopebts/CommonLibs/Utils.cpp:747-766 | encodes as binary, hex, base16 or base64 text when that is the name given, or reports the unknown name |
| `Codecs.DecodeToString` | nopebts/CommonLibs/Utils.cpp:729-742 | decodes binary, hex, base16 or base64 text when that is the name given, or reports the unknown name |
| `Codecs.RoundTrip` | nopebts/CommonLibs/Utils.cpp:729-766 | for every known encoding decoding undoes encoding and reports nothing |
| `RingBuffers.Ring.constructor` | paperplane/src/pp_base/pp_base.c:218-230 | a new ring is empty |
| `RingBuffers.Ring.FreeBytes` | paperplane/src/pp_base/pp_base.c:271-279 | reports exactly size - 1 less the bytes stored |
| `RingBuffers.Ring.Put` | paperplane/src/pp_base/pp_base.c:359-398 | appends the first bytes of the source, all of them or as many as there are free cells, in every wraparound case: the write of a bounded queue |
| `RingBuffers.Ring.PutToEnd` | paperplane/src/pp_base/pp_base.c:376-395 | the same where the free cells go on from the end of the buffer to its beginning |
| `RingBuffers.Ring.Get` | paperplane/src/pp_base/pp_base.c:303-335 | returns the oldest bytes, as many as asked for or all there are, and leaves the others: the read of a bounded queue |
| `RingBuffers.Ring.GetToEnd` | paperplane/src/pp_base/pp_base.c:315-332 | the same where the bytes go on from the end of the buffer to its beginning |
| `RingBuffers.NothingLostOrReordered` | paperplane/src/pp_base/pp_base.c:303-398 | over any run the bytes delivered followed by those still stored are the bytes accepted, in order |
| `MessagePools.SList.constructor` | paperplane/src/pp_base/pp_base.c:423-427 | a new list is empty |
| `MessagePools.SList.Put` | paperplane/src/pp_base/pp_base.c:435-449 | the list has the node at its end; it stays acyclic |
| `MessagePools.SList.Get` | paperplane/src/pp_base/pp_base.c:457-470 | returns the first node and leaves the others, or null exactly when the list is empty |
| `MessagePools.SList.IsEmpty` | paperplane/src/pp_base/pp_base.c:478-481 | tells an empty list |
| `MessagePools.MessageQueue.constructor` | paperplane/src/pp_base/pp_base.c:489-517 | all nodes are free and no message is under way |
| `MessagePools.MessageQueue.Send` | paperplane/src/pp_base/pp_base.c:543-566 | accepts a message exactly when its length is in range and a node is free, and then queues it last, as the runs of SentOrder do; the two lists still hold every pool node once |
| `MessagePools.MessageQueue.Receive` | paperplane/src/pp_base/pp_base.c:573-598 | returns the oldest message, whole or cut to the size asked for, and -1 exactly when there is none or the size is not positive; the two lists still hold every pool node once |
| `MessagePools.Separate` | paperplane/src/pp_base/pp_base.c:543-598 | a node in hand is in neither list and no node is in both |
| `MessagePools.PartitionCounts` | paperplane/src/pp_base/pp_base.c:489-517 | the lengths of the two lists and the nodes in hand add up to the pool |
| `MessagePools.SentOrder` | paperplane/src/pp_base/pp_base.c:543-598 | over any run receives return the accepted messages in the order sent, each once, whole or cut to the size asked for |
| `RefCounts.Target.IncRefCnt` | nopebts/CommonLibs/Utils.cpp:60-67 | the assertion holds exactly for a count that is not negative; the count then goes up by one and wraps at the top of its 16 bits |
| `RefCounts.Target.DecRefCnt` | nopebts/CommonLibs/Utils.cpp:41-59 | the assertion holds exactly for a count that is not negative; the count then goes down by one and the object is deleted exactly when none is left |
| `RefCounts.HolderCounts` | nopebts/CommonLibs/Utils.h:222-235 | an object that some live pointer holds has a positive count and is not deleted |
| `RefCounts.Pointer.Null` | nopebts/CommonLibs/Utils.h:242 | a pointer to nothing changes no count |
| `RefCounts.Pointer.To` | nopebts/CommonLibs/Utils.h:243-245 | after construction from a pointer or an object every count is the number of live pointers, exactly when the count was below 32767 |
| `RefCounts.Pointer.RcInc` | nopebts/CommonLibs/Utils.h:237 | counts one more holder of the target, if there is one, and tells whether the assertion held |
| `RefCounts.Pointer.RcDec` | nopebts/CommonLibs/Utils.h:238-240 | counts one holder less, drops the pointer when the object went with it, and tells whether the assertion held |
| `RefCounts.Pointer.Destroy` | nopebts/CommonLibs/Utils.h:248-252 | fails exactly when its object's count has wrapped; otherwise every count is right without this pointer, and an object whose last pointer went is deleted, once |
| `RefCounts.Pointer.Free` | nopebts/CommonLibs/Utils.h:269-275 | the pointer holds nothing afterwards and every count is right |
| `RefCounts.Pointer.Assign` | nopebts/CommonLibs/Utils.h:257 | assignment from any pointer, itself included, runs into an assertion exactly when the object's count is above 32765; otherwise both hold the same object and every count is right |
| `RefCounts.Pointer.AssignTarget` | nopebts/CommonLibs/Utils.h:259 | assignment of an object or of none runs into an assertion exactly when the pointer holds that object already and its count is 32767; otherwise every count is right exactly when there was room for one more |
| `RefCounts.Hold` | nopebts/CommonLibs/Utils.h:243-245 | any number of pointers up to 32767 can hold one object with all counts right |
| `RefCounts.OneTooMany` | nopebts/CommonLibs/Utils.h:203-204 | the 32768th pointer to one object wraps its count to -32768 and makes it wrong |
| `RefCounts.SelfAssignment` | nopebts/CommonLibs/Utils.h:257 | assigning one of n pointers to an object to itself runs into an assertion exactly when n is 32766 or more |
| `Punctures.CopyPunctured` | nopebts/CommonLibs/BitVector.cpp:455-478 | the target receives, once and in order, exactly the cells the list does not name |
| `Punctures.CopyUnPunctured` | nopebts/CommonLibs/BitVector.cpp:480-503 | the target receives the soft bits once and in order and 0.5 at each name |
| `Punctures.NextName` | nopebts/CommonLibs/BitVector.cpp:462-473 | the next name is ahead, leaves room for the rest, and no cell before it is named |
| `Punctures.PunctureRoundTrip` | nopebts/CommonLibs/BitVector.cpp:455-503 | unpuncturing the punctured bits restores every bit that is not named and gives 0.5 at the others, for any list of names |
| `Punctures.UnpunctureRoundTrip` | nopebts/CommonLibs/BitVector.cpp:455-503 | puncturing the unpunctured soft bits gives them back, from any cell on |
| `Punctures.UnnamedCount` | nopebts/CommonLibs/BitVector.cpp:455-503 | the cells ahead are the names ahead and the cells not named, so the asserted lengths fit |
| `Punctures.UnpunctureFits` | nopebts/CommonLibs/BitVector.cpp:480-503 | under the method's own length condition the target is filled, has 0.5 at each name, and puncturing it gives the source back |
| `Punctures.PunctureFits` | nopebts/CommonLibs/BitVector.cpp:455-503 | under the methods' own length conditions the punctured vector fills its target, and unpuncturing restores each bit that is not named and gives 0.5 at the others |

## Left out

- Permutations.PermutationGenerator.Next: does not cover a second call on one element, where the original reads before the start of its vector.
- Permutations.Enumerate: does not cover n = 1, for the same reason, and does not model the wrap-around of the int factorial above 12!.
- BitVectors.Generator.constructor: the length is 1 to 63; for length 0 the original shifts by a negative amount.
- HashTable.Hash.Add: assumes fewer than 2^32 / 100 objects, so that the load test does not wrap.
- HashTable.Hash.Get: the two hash functions must agree on an object and its key, as they do in the store of named variables.
- PriorityQueue.Queue.Remove: does not cover slot 0, which the original never initialises.
- NamedVars.VarTree.QueueAll: memory for the list of variables and for the queue is granted; when it is refused the original visits fewer variables and keeps the extra references.
- NamedVars.VarTree.ForEach: the callback changes nothing and queue memory is granted; an empty pattern is excluded because the original reads before its start.
- NamedVars.VarTree.SetTree: one tree of variables; the trees of several virtual routers and the once-only initialisation are not modelled, nor are nameless entries, whose name string the caller keeps.
- TimerWheel.Wheel.Set: the timer must not be armed already; inserting a node twice breaks the original's list.
- TimerWheel.Wheel.Cancel: the timer must be armed; removing a node that is in no list follows null or stale links in the original.
- TimerWheel.Wheel.Reset: the timer must be armed, because it is cancelled first.
- TimerWheel.Wheel.Tick: callbacks answer whether to repeat and do not themselves set or cancel timers; the thread and the mutex around the tick are left out.
- MultiLock.DeadlockFreedom: says nothing about livelock; that every run can be completed is `MultiLock.EveryRunCanFinish`. The objects are values of a state machine, not classes, because steps of many threads interleave.
- SharedBlocks.Segment.Alloc: sizes so large that the address arithmetic of the original wraps are treated as unbounded integers, for which there is no room.
- SharedBlocks.SharedMemory.Alloc: the operating system's attach call is the address it returns; two processes attaching the same segment are not modelled.
- Codecs.Base64Encode: disjoint bits are joined by addition where the original uses a bitwise or.
- Codecs.EncodeToString: encoding names are compared exactly; the original's case-insensitive string type does not take part in a comparison with a literal, which falls back to the ordinary one.
- RingBuffers.Ring.Put: the extra null byte behind the original's buffer, which only the string reader uses, is left out, and sizes are not negative.
- MessagePools.MessageQueue.constructor: nodes are objects rather than offsets into one allocation, and that allocation succeeds.
- RefCounts.Target.DecRefCnt: deletion is a counter, so an object whose destructor releases further pointers is not modelled, and neither is the mutex around the count.
- Punctures.CopyPunctured: the names rise and are below the size, as the original asserts.
- The hash table in airguitar/src/bse/src/bs_hash.c, which only grows, is the same algorithm with other constants.
- LSB8MSB, reverse8, map, unmap and sum of bit vectors are left out: they move or add cells one by one.
- hex and unhex of bit vectors whose length is not a multiple of 4, energy, noise ratio, slicing and the other signal code are floating point or have no clean contract.
- pp_ring_put_with_shift, pp_ring_get_advance and pp_ring_get_string move the write end or stop at a terminator, so no queue contract holds of them.
- bs_tmo_get_msec under-reports in the current slot and bs_tmo_show re-initialises the wheel; neither is modelled.
- The chained table pp_ht reverses its buckets when it expands and keeps duplicate keys; it is not modelled.
- Tags of the shared memory (parsing initial values, the Berkeley DB file) and the typed getters of named variables are input and output around the modelled core.
- The red-black tree of showmethecode/reason-2.x/src/reason/structure/tree.h (that InsertRebalance and RemoveRebalance keep the in-order sequence, put no red node under a red one and keep black heights equal) and the stable quicksort of list.h beside it are not modelled.
- Sockets, daemons, databases, logging and the design-pattern programs other than the sort are input and output or show the shape of a program.
