# A verified model of the data structures, allocators and front end

A Dafny model of the components of a small language written in C: pointer sets, a
hash table, two slab allocators, the perfect-hash generator, a relocating array and
the lexer with its buffers. Where the C code changes objects in place, so does the
model: classes with the fields of the structs, methods with the loops of the
functions, and links followed and rewritten one at a time. Each is proved against
a specification in values, and the theorems are about those values.

## The modules

* `RedBlack`, `RedBlackRules`, `RedBlackWritten`, `RedBlackRuns`, `BstKids`, `TrieShape`,
  `BstSet`: the trie of 16-bit chunks whose levels are red-black trees with parent
  links. `RedBlack` has the trees as values, cut at the kid the fix-up loop looks at,
  and the next three what holds of them; `BstKids` has the links in memory and shows that
  rotations, recoloring and the loop do to them what `RedBlack` says; `BstSet` has
  the whole trie.
* `ListSet`, `FixSet`, `PtrSets`: the trie with sorted lists, the trie with direct
  indexing, and the three compared with the mathematical set of addresses.
* `HashFn`, `Primes`, `HashTable`: the 64-bit mixing function and its inverse, prime
  capacities, and the chained table with growth by relinking.
* `SlabTab`, `SlabTabWritten`, `SlabPool`: the shared slab as a state machine in which any
  number of threads take one step at a time (one access to shared memory, or one call of the
  mutex and condition-variable interface), with spurious wake-ups; which runs of the
  program as written go wrong; and the free-pointer stack alone.
* `Bits`, `Ring`, `Bitset`, `LinkedList`, `SlabState`, `SlabV2`: the slab allocator over
  nodes with bitsets, two intrusive circular lists and a ring of resting nodes.
* `Hashgen`: the capacity search of the perfect-hash generator and its look-up.
* `DynArr`, `DynArrRuns`: the relocating array with registered pointers, and whole runs of it.
* `Buffers`, `DStr`, `Lexer`: the buffers over a string, over `read` and over `fgets`, the
  string with its short form, and the lexer.

## Where the code misses its purpose

In these places the code is modelled as it is written. For each there is an input that
fails and the exact condition under which the code meets its purpose; where a small
repair is evident the repaired reading is modelled too, with the full property.

* `ideas/ptrset/bst_set.c:260-267`, `:276-283`: after the inner rotation `parent` still
  names the old parent. Variant `AsWritten` of `RedBlack` and `BstSet`; `Reread` reads
  it again. Fails on 3, 1, 2 (`StaleParentFails`); a red-black tree comes out exactly under
  `WrittenInsertExact` and, for runs, `RedBlackRuns.WrittenRunExact`; the program reads a null pointer
  exactly under `InsertFailsExact` and `RunFailsExact`, and so for the whole set in `BstSet.Add`.
* `ideas/ptrset/fixset.c:63-69`: the node the last chunk leads to is never tested. Fails in
  `WrittenFindsOther`; what `has` then answers is exact in `FixSet.Has`; variant `Tested`
  tests the node.
* `ideas/slab/slab_tab.c:184-185`: a put is taken without the mutex. Fails in
  `WrittenLosesWakeup` and `WrittenLosesObject`. Two steps do harm, the hazards: reading the
  stack pointer while another thread is moving it, and sending the signal for a free object
  before the one thread it could wake has gone to sleep. `SlabTabWritten.WrittenRunExact`
  proves of every run that they are the only ones and that each of them does harm; variant
  `Locked` takes the put under the mutex.
* `ideas/free/bitset.h:80-88`: clearing a bit moves the hint up as well as down. Fails in
  `EarlyMisses`; exact conditions `ClearHintExact` and `HintExact`.
* `scripts/hashgen/main.cc:47-62`: the search does not end for some inputs. Fails in
  `StrHashHopeless`; exact condition `Generate` and `HopelessNeverEnds`.
* `ideas/dynarr/main.c:303`: growing stores a variable that is still null. Fails in
  `WrittenPushFails`; exact condition in `Darr.Push`; variant `Repaired` stores the new
  array.
* `ideas/dynarr/main.c:297-300`: a pointer variable that is registered twice is moved twice.
  Fails in `TwiceFails`; exact condition `Once`, in `MoveAll` and `Darr.Push`.
* `c/src/lex.c:444-447`: the character that ends a word is taken and never put back,
  so `x=` gives only a word (`EqualsLost`, in general `WordEatsNext`). Printed tokens
  come back exactly when every word that another token follows has white space behind it
  (`RoundTrip`).

The allocator in `ideas/slab_v2` does not compile as written, so `SlabV2`, `Bitset` and
`Ring` follow what its notes in `ideas/slab_v2/arch` describe. Each change:

* `bitset.h:46-47`: `last` is the field `b_last`.
* `bitset.h:81`: the words of a new bitset are cleared.
* `slab.h:54`: a put also increments `n_count`.
* `slab.h:92`: a node that comes from the ring is in no list and is not unlinked again.
* `slab.h:170-171`: a new node joins `s_avail`.
* `slab.h:196-201`: a node leaving `s_empty` joins `s_avail`; the count compared with is
  that of the first available node (the `&` at line 198 is dropped).

`arch:86-87` says that the hint makes finding a free bit constant time. The scan in
`bitset.h:104` starts at word zero all the same; the model follows the code.

## Model

| member | source | states |
|---|---|---|
| `RedBlack.FindExact` | ideas/ptrset/bst_set.c:156-171 | in a search tree the walk ends at a kid exactly when the chunk is in the tree, and then at the kid with that chunk |
| `RedBlack.DescendSplits` | ideas/ptrset/bst_set.c:173-188 | where the walk for a new chunk ends, everything before it is smaller and everything after it larger |
| `RedBlack.RotateKeepsInOrder` | ideas/ptrset/bst_set.c:198-240 | a rotation to either side leaves the in-order sequence of kids alone |
| `RedBlack.FixKeepsInOrder` | ideas/ptrset/bst_set.c:242-289 | the whole fix-up, with either reading of `parent`, leaves the in-order sequence alone |
| `RedBlack.InsertInOrder` | ideas/ptrset/bst_set.c:173-196 | an insert leaves the sequence alone when the chunk is present and otherwise puts the new kid, and only it, in its ordered place |
| `RedBlackRules.StepKeepsInv` | ideas/ptrset/bst_set.c:249-287 | while the parent is red the grandparent exists and is black, the only broken rule stays the one at the focus, and the focus moves two levels up or the loop ends (`parent` read again) |
| `RedBlackRules.FixRestores` | ideas/ptrset/bst_set.c:242-289 | from one red-red violation the loop ends, reads no missing grandparent and gives a red-black tree (`parent` read again) |
| `RedBlackRules.InsertKeepsRB` | ideas/ptrset/bst_set.c:173-196 | an insert into a red-black tree never fails and gives a red-black tree (`parent` read again) |
| `RedBlackWritten.InnerBreaks` | ideas/ptrset/bst_set.c:260-267 | as written, one inner rotation is never repaired: a null grandparent is read later or the finished tree breaks a rule |
| `RedBlackWritten.WrittenFixExact` | ideas/ptrset/bst_set.c:242-289 | as written, the loop gives a red-black tree if and only if it never comes to an inner grandchild with a black uncle, and then does just what the repaired loop does |
| `RedBlackWritten.WrittenInsertExact` | ideas/ptrset/bst_set.c:173-196 | the same condition asked of the tree before an insert |
| `RedBlackRuns.RunKeys` | ideas/ptrset/bst_set.c:173-196 | after any run of inserts that does not fail the keys are those before it and those inserted |
| `RedBlackRuns.RunKeepsRB` | ideas/ptrset/bst_set.c:173-196 | after any run of inserts every tree is red-black and no insert failed (`parent` read again) |
| `RedBlackRuns.WrittenRunExact` | ideas/ptrset/bst_set.c:173-196 | as written, every tree of a run of inserts is red-black if and only if no insert of the run comes to an inner grandchild |
| `RedBlackWritten.FixFailsExact` | ideas/ptrset/bst_set.c:249-287 | in any tree with a black root the loop reads a missing grandparent if and only if, as written, it climbs past red uncles to a red inner grandchild with a black uncle right below the root |
| `RedBlackWritten.InsertFailsExact` | ideas/ptrset/bst_set.c:173-196 | an insert into any tree with a black root, red-black or already broken, fails if and only if, as written, its walk ends at such a place; otherwise the root is black again |
| `RedBlackRuns.RunFailsExact` | ideas/ptrset/bst_set.c:173-196 | a run of inserts fails if and only if, as written, one of its walks ends at such a place |
| `RedBlackRuns.StaleParentFails` | ideas/ptrset/bst_set.c:260-267 | the chunks 3, 1, 2: as written the third insert reads a null grandparent; repaired it gives the balanced tree |
| `RedBlackRuns.WalkIsLogarithmic` | ideas/ptrset/bst_set.c:156-171 | a walk over n kids passes at most 2 log2(n + 1) of them |
| `BstKids.KidRotateLeft` | ideas/ptrset/bst_set.c:198-218 | the links in memory before spell a tree in its place below the root, and afterwards the rotated tree, with every parent link right |
| `BstKids.KidRotateRight` | ideas/ptrset/bst_set.c:220-240 | the mirror image |
| `BstKids.KidFixLeft` | ideas/ptrset/bst_set.c:253-268 | one turn of the loop under a left parent does to the links what FixStep does to the tree, for both readings |
| `BstKids.KidFixRight` | ideas/ptrset/bst_set.c:269-285 | the same under a right parent |
| `BstKids.KidFix` | ideas/ptrset/bst_set.c:242-289 | the loop over links does what Fix does to the tree, and fails exactly when Fix reads a missing grandparent |
| `BstKids.KidFind` | ideas/ptrset/bst_set.c:156-171 | walking the links finds what the walk over the tree finds |
| `BstKids.KidWalk` | ideas/ptrset/bst_set.c:180-188 | walking with a pointer to the link ends at the kid or at the place the tree walk ends at |
| `BstKids.KidAttach` | ideas/ptrset/bst_set.c:190-195 | a new kid hung at that place and fixed up gives the links of the tree after the insert |
| `BstKids.KidGetOrSet` | ideas/ptrset/bst_set.c:173-196 | the existing kid, or a new kid with the chunk, and links that spell the tree after Insert; it fails exactly where InsertFailsExact says |
| `TrieShape.MemberExact` | ideas/ptrset/bst_set.c:80-98 | an address is in the set exactly when the kid its four chunks spell exists |
| `TrieShape.PrefixMissing` | ideas/ptrset/bst_set.c:86-95 | one missing node or kid on the way keeps an address out of the set |
| `TrieShape.MembersAlong` | ideas/ptrset/bst_set.c:130-146 | adding the kids along one address adds this address and no other |
| `BstSet.FindInLevel` | ideas/ptrset/bst_set.c:156-171 | the walk over one level finds exactly the kid named by the longer prefix |
| `BstSet.WithNodeOk` | ideas/ptrset/bst_set.c:145-154 | a new node where there was none, or in place of the final leaf, loses no member and keeps the whole trie in order |
| `BstSet.WithKidOk` | ideas/ptrset/bst_set.c:173-196 | a kid that joins one level leaves the trees of all other levels and the names of all other objects alone |
| `BstSet.NewNode` | ideas/ptrset/bst_set.c:145-154 | the same in memory, through the pointer npp |
| `BstSet.GetOrSet` | ideas/ptrset/bst_set.c:141 | kid_get_or_set inside a trie: the kid takes its name, the trie stays in order, and it fails exactly when, as written, the walk of this level ends where the fix-up fails |
| `BstSet.AddWalk` | ideas/ptrset/bst_set.c:130-146 | the loop of add and its final leaf: the members afterwards are those before and the address, or it fails on exactly the levels named at Add |
| `BstSet.BstSet.constructor` | ideas/ptrset/bst_set.c:43-52 | a new set is empty |
| `BstSet.BstSet.Has` | ideas/ptrset/bst_set.c:80-98 | true exactly for the members |
| `BstSet.BstSet.Add` | ideas/ptrset/bst_set.c:130-146 | the address joins the members, no other membership changes, every level stays a sorted tree, red-black with `parent` read again; it fails if and only if, as written, on one of the four levels the walk for the chunk ends where the fix-up reads a missing grandparent |
| `ListSet.InsertSorted` | ideas/ptrset/list_set.c:158-177 | a new chunk put behind the smaller ones leaves the list strictly ascending with one more kid |
| `ListSet.InsertChain` | ideas/ptrset/list_set.c:170-176 | linking the new kid behind its predecessor makes the next fields spell the longer list |
| `ListSet.KidFind` | ideas/ptrset/list_set.c:145-156 | the first kid with the chunk, and null exactly when the list lacks it |
| `ListSet.KidSeek` | ideas/ptrset/list_set.c:164-169 | the kid with the chunk, or the link where a new one goes, behind the last smaller chunk |
| `ListSet.KidGetOrSet` | ideas/ptrset/list_set.c:158-177 | the existing kid, or a new one linked so that the list stays strictly ascending |
| `ListSet.WithNodeOk` | ideas/ptrset/list_set.c:134-143 | a new node, or a replaced final leaf, loses no member |
| `ListSet.WithKidOk` | ideas/ptrset/list_set.c:158-177 | a kid that joins one level leaves every other level alone |
| `ListSet.AddWalk` | ideas/ptrset/list_set.c:119-135 | the loop of add and its final leaf: the members afterwards are those before and the address |
| `ListSet.ListSet.Has` | ideas/ptrset/list_set.c:78-96 | true exactly for the members |
| `ListSet.ListSet.Add` | ideas/ptrset/list_set.c:119-135 | the address joins the members and no other membership changes |
| `FixSet.PutNode` | ideas/ptrset/fixset.c:90-112 | a new node in one slot of its parent, or as the root, changes no other slot |
| `FixSet.HasExact` | ideas/ptrset/fixset.c:58-70 | the node three chunks down exists exactly when some added address shares these chunks; the node four down exactly for the added addresses |
| `FixSet.FixSet.Has` | ideas/ptrset/fixset.c:58-70 | as written true exactly when some added address agrees on all chunks but the last; with the last node tested, true exactly for the added addresses |
| `FixSet.FixSet.Add` | ideas/ptrset/fixset.c:90-104 | the address joins the members |
| `FixSet.WrittenFindsOther` | ideas/ptrset/fixset.c:63-69 | as written, after one address is added any other with the same first three chunks is found |
| `PtrSets.Compare` | ideas/ptrset/ptrset.h:7-12 | after any additions the repaired tree set, the list set and the tested direct set answer any query alike, as the mathematical set does |
| `HashFn.UndoStep` | ideas/ptrset/hash.c:48-55 | each step of the mixing is undone by its inverse, for every 64-bit word |
| `HashFn.BitwiseForms` | ideas/ptrset/hash.c:49-55 | the complement is a distance from the word of all ones and each left shift a product |
| `HashFn.StepProducts` | ideas/ptrset/hash.c:49-55 | the shift-and-add steps are multiplications by 2^21 - 1 (less one), 265, 21 and 2^31 + 1 modulo 2^64 |
| `HashFn.HashAssignments` | ideas/ptrset/hash.c:43-58 | the hash is the last of the words that the assignments to hash give one after the other, bit operation by bit operation, from the address and the seed |
| `HashFn.ComputeHash` | ideas/ptrset/hash.c:43-58 | the assignments, taken in order, compute the hash that the table uses |
| `HashFn.HashRoundTrip` | ideas/ptrset/hash.c:43-58 | unmixing gives the address back, for every seed |
| `HashFn.HashInjective` | ideas/ptrset/hash.c:43-58 | different addresses have different hashes under the same seed |
| `Primes.SquareRootBound` | ideas/ptrset/hash.c:76-80 | a number above 1 that nothing up to its square root divides is prime |
| `Primes.IsPrime` | ideas/ptrset/hash.c:68-81 | true exactly for the primes |
| `Primes.PrimeAbove` | ideas/ptrset/hash.c:60-66 | there is a prime above every number |
| `Primes.NextPrime` | ideas/ptrset/hash.c:60-66 | ends for every n with the least prime at or above n |
| `HashTable.FromHolds` | ideas/ptrset/hash.c:189-201 | in good buckets a pointer is in the table exactly when its own bucket holds it |
| `HashTable.FromNoRepeat` | ideas/ptrset/hash.c:111-113 | no pointer occurs twice in the table |
| `HashTable.PutOk` | ideas/ptrset/hash.c:120-125 | a new link at the head of its bucket keeps the buckets good and adds its pointer and one to the length |
| `HashTable.PutLink` | ideas/ptrset/hash.c:123-124 | the link becomes the head of its bucket in memory |
| `HashTable.MoveOne` | ideas/ptrset/hash.c:142-146 | moving one pending link keeps moved and pending links together equal to the old table |
| `HashTable.MoveLink` | ideas/ptrset/hash.c:142-146 | the same in memory, while the links still to be visited stay as they were |
| `HashTable.Grow` | ideas/ptrset/hash.c:128-151 | the new capacity is the least prime at or above twice the old; every link is moved once and none is lost; the loop, bounded by the number of links, never indexes past the old table |
| `HashTable.Insert` | ideas/ptrset/hash.c:103-126 | the table after hash_set: the pointer is a member, the length counts the members, and 4 (len - 1) <= 3 cap; the table grows if and only if the pointer is new and 4 len > 3 cap, then to the least prime at or above twice the capacity |
| `HashTable.Hash.constructor` | ideas/ptrset/hash.c:32-41 | an empty table of capacity 2 |
| `HashTable.Hash.Has` | ideas/ptrset/hash.c:189-201 | true exactly for the pointers set |
| `HashTable.Hash.Set` | ideas/ptrset/hash.c:103-126 | the pointer joins the set whether or not the table grew; the length grows by one exactly when it is new, and the capacity changes exactly when it is new and the table more than three quarters full |
| `HashTable.Hash.LinksPlaced` | ideas/ptrset/hash.c:120-124 | every link sits in the bucket of its hash modulo the capacity, and its hash is that of its pointer |
| `HashTable.Hash.Free` | ideas/ptrset/hash.c:83-101 | the destructor is handed every pointer exactly once |
| `SlabTab.StepExclusive` | ideas/slab/slab_tab.c:152-154 | every step of any thread keeps at most one thread between lock and unlock |
| `SlabTab.StepLone` | ideas/slab/slab_tab.c:152-185 | a step that is no hazard keeps at most one thread between reading the stack pointer and being done with the stack |
| `SlabTab.StepConserves` | ideas/slab/slab.h:25-42 | every step leaves the number of places of each slot unchanged: on the stack, with a thread, or in its hands |
| `SlabTab.StepWakes` | ideas/slab/lib.h:55-62 | every step that is no hazard keeps the free objects covered by threads that were signalled, are taking an object or are about to signal, as long as some thread sleeps or is about to |
| `SlabTab.StepInv` | ideas/slab/slab_tab.c:143-186 | a step that is no hazard keeps all of these, whether puts take the mutex or not |
| `SlabTab.LockedIsSafe` | ideas/slab/slab_tab.c:184-185 | with puts under the mutex there are no hazards |
| `SlabTab.RunInv` | ideas/slab/slab_tab.c:143-186 | put under the mutex: in every state of every run of any number of threads these hold |
| `SlabTab.SoleOwner` | ideas/slab/slab.h:25-42 | an object a thread has is not on the stack, no other thread has it and no thread has it twice |
| `SlabTab.RoomToPut` | ideas/slab/slab.h:37-42 | a put always finds room in the array |
| `SlabTab.OwnerMoves` | ideas/slab/slab_tab.c:152-154 | the owner of the mutex can always take its next step, within the array |
| `SlabTab.SignalledCoverFree` | ideas/slab/lib.h:55-62 | put under the mutex: while the mutex is free and a thread sleeps, no more objects are free than threads were signalled, spurious wake-ups not counted, and have not run their test again |
| `SlabTab.NobodyForgotten` | ideas/slab/lib.h:49-62 | while a thread sleeps and an object is free, some thread inside a call can move |
| `SlabTab.GoExact` | ideas/slab/slab_tab.c:143-186 | in every state the invariant allows, put under the mutex or not: a thread can take its next step if and only if it is inside a call, awake, and does not wait for a mutex that is taken |
| `SlabTab.StartExact` | ideas/slab/slab_tab.c:143-186 | when a thread can begin a get, begin a put, or wake without a signal |
| `SlabTab.GoAdvances` | ideas/slab/slab_tab.c:143-186 | every step of a call brings its thread nearer to its end or its sleep, of which it is never more than six steps away, and touches no other thread but one it wakes |
| `SlabTab.NeverStuck` | ideas/slab/slab_tab.c:143-186 | as long as some thread is inside a call and awake, some thread can move |
| `SlabTab.PutAlone` | ideas/slab/slab_tab.c:184-185 | a put that nothing interrupts, with or without the mutex and whoever sleeps, ends with the object on top of the stack and one sleeper signalled if there is one, and changes nothing else |
| `SlabTab.GetAlone` | ideas/slab/lib.h:55-62 | a get or a woken thread that nothing interrupts once the mutex is free takes the top of the stack and ends, or sleeps when the stack is empty, and changes nothing else |
| `SlabTabWritten.LoadHarms` | ideas/slab/slab_tab.c:184-185 | as written: once a thread reads the stack pointer while another is moving it, the two need only go on for an object to be lost or doubled |
| `SlabTabWritten.VainSignalHarms` | ideas/slab/slab_tab.c:184-185 | as written: once the last signal for a free object is sent to nobody while a thread is between its failed test and its sleep, that thread need only go on to be forgotten |
| `SlabTabWritten.WrittenStepExact` | ideas/slab/slab_tab.c:184-185 | as written: after states reached without a hazard, the next step leaves nothing that goes wrong by itself if and only if it is no hazard, a condition on the threads before the step |
| `SlabTabWritten.WrittenRunExact` | ideas/slab/slab_tab.c:143-186 | as written, for every run from the start with any number of threads: no state of it leads to a lost or doubled object or a forgotten sleeper without a further hazard if and only if the run has no hazard; then every state is good |
| `SlabTabWritten.WrittenLosesWakeup` | ideas/slab/slab_tab.c:184-185 | as written: a run from the start to a state with a free object, a sleeper and no thread that can move |
| `SlabTabWritten.WrittenLosesObject` | ideas/slab/slab_tab.c:184-185 | as written: two puts at once and one object is gone |
| `SlabPool.Slab.constructor` | ideas/slab/slab.h:14-23 | all objects on the stack, none handed out |
| `SlabPool.Slab.Get` | ideas/slab/slab.h:25-29 | the object put back last, which nobody has; every object stays either once on the stack or handed out |
| `SlabPool.Slab.Put` | ideas/slab/slab.h:37-42 | the object is back and is the next one handed out |
| `SlabPool.Slab.Full` | ideas/slab/slab.h:44-48 | true exactly when nothing is handed out |
| `SlabPool.Slab.Empty` | ideas/slab/slab.h:50-54 | true exactly when everything is handed out |
| `Bits.PowerOf2Exact` | ideas/slab_v2/lib.h:53-57 | n & (n - 1) == 0 recognises the powers of two and nothing else |
| `Bits.MaskIsMod` | ideas/slab_v2/ring.h:28-46 | masking with a power of two less one is the remainder |
| `Ring.WrapsExactly` | ideas/slab_v2/ring.h:28-46 | on the indices of a ring the masked increment and decrement are arithmetic modulo the size, also below zero |
| `Ring.Ring.WrBack` | ideas/slab_v2/ring.h:97-104 | the element joins the back of the deque, and the ring stays valid, if and only if the ring was not full |
| `Ring.Ring.RdBack` | ideas/slab_v2/ring.h:106-116 | the back element leaves the deque, and the ring stays valid, if and only if the ring was not empty |
| `Ring.Ring.RdFront` | ideas/slab_v2/ring.h:118-128 | the front element leaves the deque, and the ring stays valid, if and only if the ring was not empty |
| `Bitset.WordFirstZeroExact` | ideas/slab_v2/bitset.h:50-59 | the least clear bit of a word, and -1 exactly for the full word |
| `Bitset.LeastExact` | ideas/free/bitset.h:49-69 | the scan from any word finds the least clear bit from there on, and -1 exactly when there is none |
| `Bitset.HintExact` | ideas/free/bitset.h:49-69 | the scan from the hint finds what the scan from word zero finds if and only if every word below the hint is full |
| `Bitset.SetBitExact` | ideas/slab_v2/bitset.h:38-48 | or-ing in a bit sets this bit and no other |
| `Bitset.ClearBitExact` | ideas/slab_v2/bitset.h:38-48 | masking a bit out clears this bit and no other |
| `Bitset.Bitset.constructor` | ideas/slab_v2/bitset.h:75-84 | an empty bitset (words cleared) |
| `Bitset.Bitset.FirstZero` | ideas/slab_v2/bitset.h:93-116 | the least clear bit, -1 exactly when all are set; the hint moves to its word, and the words below the hint stay full |
| `Bitset.Bitset.Add` | ideas/slab_v2/bitset.h:118-122 | the bit joins the set; the hint moves down to its word, never up, and the words below the hint stay full |
| `Bitset.Bitset.Remove` | ideas/slab_v2/bitset.h:124-128 | the bit leaves the set; the hint moves down to its word, never up, and the words below the hint stay full |
| `Bitset.ClearHintExact` | ideas/free/bitset.h:80-88 | the early clear leaves a right hint if and only if the words it skips over are full |
| `Bitset.EarlyMisses` | ideas/free/bitset.h:80-88 | two full words, clear 0 and 64, set 64: the early scan says -1 while bit 0 is clear |
| `Bitset.EarlyBitset.FirstZero` | ideas/free/bitset.h:49-69 | finds the least clear bit from the hint on, and keeps a right hint right |
| `Bitset.EarlyBitset.Remove` | ideas/free/bitset.h:80-88 | clears the bit and moves the hint to its word, wherever the hint was |
| `LinkedList.RmCircle` | ideas/slab_v2/list.h:35-43 | joining the two neighbours of an element leaves the circle without it |
| `LinkedList.AddCircle` | ideas/slab_v2/list.h:45-54 | joining an element between another and its successor gives the circle with it there |
| `LinkedList.ListRm` | ideas/slab_v2/list.h:35-43 | the element leaves its circle in memory; no link outside the circle changes |
| `LinkedList.ListAddAfter` | ideas/slab_v2/list.h:45-54 | the element enters the circle in memory behind `before`; no link outside changes |
| `SlabState.GetOk` | ideas/slab_v2/slab.h:155-181 | a get hands out a slot that was free, changes no other slot, and leaves each node in exactly one of available, empty and resting |
| `SlabState.PutOk` | ideas/slab_v2/slab.h:183-202 | a put frees its slot and no other, and keeps the same |
| `SlabState.GetListsOk` | ideas/slab_v2/slab.h:155-181 | where the nodes are after a get, from the lists, the ring and the slots in use: the first available one, the hottest resting one or a new one serves; with its last slot it heads the empty list; nothing else moves |
| `SlabState.PutListsOk` | ideas/slab_v2/slab.h:183-202 | where the nodes are after a put, from the lists, the ring and the slots in use: a node all free takes the hot end of the ring, a node that was full or has fewer slots in use than the first available one heads the list, the rest keep their order, and otherwise nothing moves |
| `SlabV2.TakeSlot` | ideas/slab_v2/slab.h:58-67 | the least free slot of the node is taken, the count drops by one and reaches zero exactly when all slots are in use |
| `SlabV2.GiveSlot` | ideas/slab_v2/slab.h:47-55 | the slot is free again and the count rises by one |
| `SlabV2.Renew` | ideas/slab_v2/slab.h:69-86 | the hottest resting node with its slots cleared, or a new one, heads the available list |
| `SlabV2.Take` | ideas/slab_v2/slab.h:168-175 | the slot is taken and a node without free slots moves to the empty list, with both circles well linked |
| `SlabV2.Rest` | ideas/slab_v2/slab.h:99-115 | the node joins the hot end of the ring, and when the ring was full the coldest node left it |
| `SlabV2.Settle` | ideas/slab_v2/slab.h:195-201 | a node all free goes to rest, a node that was empty becomes available, a node with more free slots than the first moves to the front, and both circles stay well linked |
| `SlabV2.Slab.constructor` | ideas/slab_v2/slab.h:117-128 | no nodes, two empty circles and an empty ring |
| `SlabV2.Slab.Get` | ideas/slab_v2/slab.h:155-181 | a slot no live pointer names, in the first available node, else the hottest resting node, else a new one; all other slots stay; lists, ring, counts and bitsets in memory match the state; where every node is afterwards is told as for GetListsOk |
| `SlabV2.Slab.Put` | ideas/slab_v2/slab.h:183-202 | the slot is free, all other slots stay, and lists, ring, counts and bitsets in memory match the state; where every node is afterwards is told as for PutListsOk |
| `SlabV2.Slab.PutThenGet` | ideas/slab_v2/slab.h:155-202 | which node serves a get right after a put: the one just put to, unless an available node before it has no more slots in use, or it went to rest while another is available |
| `Hashgen.ComputeStrHash` | scripts/hashgen/main.cc:74-83 | the loop computes the sum of s[i] * 31^(|s| - 1 - i), taken modulo 2^64 once |
| `Hashgen.StrHashIsPolynomial` | scripts/hashgen/main.cc:74-83 | taking the modulus at every step is the same as taking it once |
| `Hashgen.BumpIsLow` | scripts/hashgen/main.cc:48-61 | a capacity that is passed over is at most the largest difference of two hashes |
| `Hashgen.Scan` | scripts/hashgen/main.cc:48-57 | one capacity: all keys in their slots and nothing else, or the first key whose slot is taken |
| `Hashgen.Generate` | scripts/hashgen/main.cc:44-62 | a perfect hash of least capacity, at most one more than the largest hash difference, or, exactly when some key is repeated, the one whose second occurrence comes first |
| `Hashgen.HopelessNeverEnds` | scripts/hashgen/main.cc:47-62 | when two different keys share a hash before any key is repeated, every capacity is passed over: with Generate this is exactly when the search does not end |
| `Hashgen.LookupExact` | c/src/lex.c:451-453 | hashing and one comparison accept exactly the keys of the table |
| `Hashgen.StrHashHopeless` | scripts/hashgen/main.cc:74-83 | the keys Aa and BB have the same hash, and the search for a table of them never ends |
| `DynArr.MoveAll` | ideas/dynarr/main.c:297-300 | every registered pointer variable is moved to the new array at the same position if and only if none is registered twice |
| `DynArr.Grow` | ideas/dynarr/main.c:282-305 | twice the capacity, the same elements, every registered pointer moved when none is registered twice; as written the array variable is left null |
| `DynArr.Darr.constructor` | ideas/dynarr/main.c:220-229 | an empty array of the initial capacity without registrations |
| `DynArr.Darr.Push` | ideas/dynarr/main.c:307-315 | the element joins at the end and every registered pointer keeps its position across the move; when the array has to grow, that is so if and only if no pointer variable is registered twice and, as written, never |
| `DynArrRuns.Run` | ideas/dynarr/main.c:256-315 | with the array variable repaired: any run of pushes, registrations of variables not registered at the time and removals on a new array succeeds at every step; afterwards the elements are those pushed and every registered variable reads the element at the position it was registered with |
| `DynArrRuns.NotRegistered` | ideas/dynarr/main.c:256-271 | a variable without a registration of its own is in none |
| `DynArr.WrittenPushFails` | ideas/dynarr/main.c:303 | as written, the first push beyond the initial capacity stores through a null pointer |
| `DynArr.TwiceFails` | ideas/dynarr/main.c:297-300 | with the array variable repaired, growing still meets a stray pointer once a variable is registered twice |
| `DynArr.Darr.Reads` | ideas/dynarr/main.c:256-271 | a registered pointer reads the element at the position it was registered with |
| `DynArr.Darr.AddPtr` | ideas/dynarr/main.c:256-271 | a new registration at the head of the circle; the others stay; no variable is registered twice afterwards if and only if that was so before and this one was not registered |
| `DynArr.Darr.RmPtr` | ideas/dynarr/main.c:273-280 | the registration leaves the circle; the others stay |
| `Buffers.BufNstr.Getc` | buf/src/nstr.c:109-124 | the first character of the stream, or the end marker for ever |
| `Buffers.BufUnix.Fill` | buf/src/unix.c:171-188 | whatever number of bytes a read gives, the stream is the same, and there is more exactly when it is not at its end |
| `Buffers.BufUnix.Getc` | buf/src/unix.c:148-163 | the first character of the stream, or the end marker for ever, for any sequence of short reads |
| `Buffers.BufStdio.Read` | buf/src/stdio.c:172-181 | a line or a piece of one is loaded, and at the end the data stays as it was |
| `Buffers.BufStdio.Getc` | buf/src/stdio.c:138-153 | the first character of the stream, or the end marker for ever, for any lines |
| `Buffers.ReadAll` | buf/include/buf.h:8-21 | reading any buffer to its end gives its stream, and the end marker from then on |
| `DStr.StrCpy` | lib/src/dstr.c:127-128 | the characters up to the first NUL and the NUL |
| `DStr.DStr.Push` | lib/src/dstr.c:104-115 | the character joins at the end, across the switch from the object to the heap and every doubling; only when a string with a NUL in it leaves the object are the characters after the NUL lost |
| `DStr.DStr.Grow` | lib/src/dstr.c:117-133 | twice the capacity with the same characters, or those up to the first NUL when they leave the object |
| `DStr.DStr.Clear` | lib/src/dstr.c:135-141 | the string is empty and in the object again |
| `Lexer.TakeLetters` | c/src/lex.c:444-447 | the lexeme is the longest word and the character after it has been taken |
| `Lexer.Keyword` | c/src/lex.c:451-453 | the hash look-up and one comparison make a keyword of str and of nothing else |
| `Lexer.Str` | c/src/lex.c:456-465 | the lexeme is the text up to the closing quote, and it fails exactly when there is none |
| `Lexer.NextToken` | c/src/lex.c:420-437 | the characters taken off the buffer and the token are those of LexOne |
| `Lexer.Lex.Next` | c/src/lex.c:420-437 | the next token and what is left of the stream, or the usage error |
| `Lexer.Run` | c/main.c:46-64 | the tokens of the whole stream in order, a function of the stream alone, whichever buffer and whatever chunks it comes in |
| `Lexer.LexOneExact` | c/src/lex.c:420-477 | from explicit characters: a token fails if and only if the first character that is no white space exists and is neither =, nor a small letter, nor a quote with another behind it; it is the end if and only if the text is all white space |
| `Lexer.LexLetters` | c/src/lex.c:439-454 | from explicit characters: a small letter begins a word of all the letters that follow, which is a keyword exactly when it is str |
| `Lexer.LexQuote` | c/src/lex.c:456-465 | from explicit characters: a quote begins the literal up to the next quote, and fails without one |
| `Lexer.LexAllTrace` | c/main.c:46-64 | each token of a text is the next one of what the tokens before it left; the last text is at its end, or fails |
| `Lexer.DigitFails` | c/src/lex.c:473-477 | x = 5 gives a word and an equals sign, and then fails |
| `Lexer.RoundTrip` | c/src/lex.c:420-471 | printed tokens lex back to the same types and lexemes and then the end if and only if every word that another token follows has white space behind it |
| `Lexer.EqualsNeverBack` | c/src/lex.c:420-447 | after an equals sign that a word has swallowed the tokens never come right again |
| `Lexer.QuoteNeverBack` | c/src/lex.c:444-465 | after an opening quote that a word has swallowed the tokens never come right again, whatever literals follow |
| `Lexer.WordEatsNext` | c/src/lex.c:444-447 | a word takes the character after it along, whatever it is, so without white space that character is lost |
| `Lexer.EqualsLost` | c/src/lex.c:444-447 | x= lexes as one word and the end |
| `Lexer.KeywordExact` | c/src/lex.c:393-395 | the keyword table accepts its one keyword only |

## Left out

- Primes.IsPrime: does not model the wrap-around of `m * m` and `n + 1` at 2^64, because the numbers are unbounded here; it agrees with the code while neither product nor sum reaches 2^64.
- HashTable.Hash.Set: does not model the rounding of 0.75 * cap as a double, because it is exact up to 2^53; the seed is any 64-bit number instead of the clock.
- HashTable.Hash.Free: does not model that the links and the table go back to the allocator and that the handle becomes null; it states what the destructor is handed.
- Buffers.BufNstr.Getc: requires ASCII text, because other characters are negative as `char`; the buffers over files also require that it has no NUL, because a NUL ends a chunk early.
- Lexer.Lex.Next: does not model `l_putback`, because nothing ever sets it, nor locales other than C for `isspace` and `isalpha`.
- Hashgen.ComputeStrHash: does not model the sign of characters above 127.
- Memory accounting (`ps_bytes`), the leaf that a repeated add leaks, and freeing the tries.
- `ideas/ptrset/dynarr_set.c`: the same walk over arrays of kids; its `kid_find` gives the end pointer instead of null.
- Running out of memory, and failures of the thread, file and mapping calls, all of which end the program.
- `SlabPool`: that `_mine` compares addresses only; objects are named by their index.
- `slab_tab_find` with a name that is in no slab, and the checks that only a debug build makes.
- `ideas/slab_v2` tearing a slab down, and the arrays that a reused node abandons.
- `hash_stat`, `dstr_move`, `buf/src/cstr.c` and printing: output and variations of what is here.
- `ideas/ast`, `ideas/ld`, `ld`, `ideas/heap` and the drivers: no settled behaviour, or list operations already covered.
