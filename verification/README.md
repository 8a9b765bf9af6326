# Models of the vendored cores of ion

The application keeps its hardest algorithms in `depend/`: a lock-free queue, a hopscotch hash table, an in-place
radix sort, a JSON writer with its document and pointer classes, a number printer, a base64 coder, a path normaliser
and a pool allocator. This project models them in Dafny and proves what they are for. There is one module per
component, in a file of the same name.

**The queue** (`concurrentqueue.h`) is modelled at several levels.

- `FreeList` is a machine whose steps are the single atomic loads, stores, fetch-adds and compare-exchanges of `add`,
  `try_get` and `add_knowing_refcount_is_zero`, in any order, by any number of threads, on 32-bit words. An invariant
  ties every reference count to the threads that hold the node and every node to one place. From it follow the absence
  of the ABA problem, single ownership, and that no node is ever lost. `FreeListProgress` adds that it is lock-free, and
  `FreeListCalls` what one call gets, and when it may come back with nothing.
- `DequeueProtocol` is the four-counter protocol of `dequeue` and `dequeue_bulk`, one producer and any number of
  consumers. Its proof history is a sequence of tickets, one for each count a consumer reserved, and the main argument
  is that the last ticket that passed the test bounds the number that passed. `DequeueCalls` follows the tickets of one
  call through any run.
- `BlockIndex` is the explicit producer: a ring of blocks, a circular index of blocks that doubles, and consumers that
  read the index in several separate steps while the producer goes on, whose own stores are steps too. `InOrder(phase)`
  says which block every index is in, and how far the producer is with a new block; `Steady()` says what a consumer may
  still rely on after any such step. `ExplicitQueue` joins it with the protocol: over any run of the producer and any
  number of consumers, every access to shared memory a step of its own, every element comes out at most once, and the
  one that comes out for an index is the one that was enqueued at it.
- `CircularIndex` is about comparisons of W-bit wrapped indices and the implicit producer's leeway test, and
  `ImplicitProducer` joins it with the protocol: on every run of that producer and its consumers the producer's
  comparisons mean what they say, and the consumers' do under an exact condition. `WordTests` has the consumers that
  test wrapped words, the same runs while the tests fall in their window, and a run to one that does not.

**The hash table** (`hopscotch_hash.h`): `HopscotchLayout` holds the layout invariant and what each change of it does,
as functions on values; `HopscotchHash` is the table as a class with the methods of the original, proved to be a finite
map; `NeighborhoodBits` and `GrowthPolicy` do the same for the words and masks below it.

**JSON**: `JsonTree` and `JsonText` define trees, events and texts, `JsonReader` a reference reader of the grammar of
RFC 8259 (sections 2 to 7), `JsonWriter` both writers as one class with a style, `JsonPretty` the difference between
them, `JsonLayout` the lines of the pretty text, `JsonDocument` the handlers that build a document from events,
`JsonPointer` the texts of pointers, `PointerText` what RFC 6901 (sections 3, 4 and 6), RFC 3986 and RFC 3629 say of
them, `PointerResolve` what a pointer does to a tree, and `PointerEffects` what that leaves of the tree.

`RadixSort`, `IntegerText`, `Base64` (section 4 of RFC 4648), `DotSegments` (section 5.2.4 of RFC 3986) and
`PoolAllocator` stand alone. `Arith` and `Bits` are facts about division and binary numbers that the others use, and
`Options` and `Hexadecimal` definitions that they share.

Where the code does not do what its documentation suggests, the code is modelled as it is, and a lemma says for exactly
which inputs it does:

- `RemoveDotSegments` refers to RFC 3986, and follows it on absolute paths. On relative paths it may not:
  `DotSegments.RelativeDiffers` gives `a/..`, and `DotSegments.MeetsRfcIff` the condition, for every path.
- `cbase64_calc_encoded_length` computes in 32 bits; `Base64.EncodedLengthIff` gives the largest length for which it is
  right.
- `MemoryPoolAllocator` adds sizes without a test for wrap-around, in four places. `PoolAllocator.ServedWrong` gives an
  input for each way in which a caller gets memory that is not there; `PoolAllocator.ServedRightIff` and
  `PoolAllocator.AlwaysRightIff` give the condition, for every pool and every size, and the contracts of
  `PoolAllocator.MemoryPool.Malloc` and `PoolAllocator.MemoryPool.Realloc` hold with and without it.
- A pointer's token of digits is converted with a test for overflow that does not find all of it.
  `JsonPointer.MissedOverflow` gives `5000000000`, and `JsonPointer.IndexRightIff` the condition, for every name of
  digits.
- A percent-encoded slash in the fragment form of a pointer becomes part of a name, where RFC 6901 lets it separate two:
  `PointerText.HiddenSlash` gives `#/a%2Fb`, and `PointerText.FragmentMeetsRfcIff` the condition, for every fragment
  that is accepted.
- After `Create`, `Get` finds the value again, except when a `-` token was used up on an array;
  `PointerResolve.CreateThenGet` says so in both directions.

## Model

| member | source | states |
|---|---|---|
| FreeList.ActionKeepsInv | depend/concurrentqueue/concurrentqueue.h:1506-1594 | every atomic step of every thread keeps the invariant: counts equal holders, every node has one place, the links spell out the list |
| FreeList.RunKeepsInv | depend/concurrentqueue/concurrentqueue.h:1506-1594 | so does every interleaving of any length |
| FreeList.ReachableInv | depend/concurrentqueue/concurrentqueue.h:1506-1594 | every reachable state has a history that fits it |
| FreeList.CasRefsKeepsInv | depend/concurrentqueue/concurrentqueue.h:1537-1541 | taking a reference by compare-exchange counts exactly one more holder, and never on a node whose count was zero |
| FreeList.CasHeadKeepsInv | depend/concurrentqueue/concurrentqueue.h:1545-1554 | moving the head on takes the first node off the list for the thread that did it |
| FreeList.DropOneKeepsInv | depend/concurrentqueue/concurrentqueue.h:1556-1562 | letting go of a node makes the last holder of a flagged node the one to add it |
| FreeList.RaiseFlagKeepsInv | depend/concurrentqueue/concurrentqueue.h:1515-1527 | `add` hands the node to the thread itself, if nobody holds it, or leaves it to the holders |
| FreeList.AddStoreNextKeepsInv | depend/concurrentqueue/concurrentqueue.h:1582-1584 | the link of a node being added may be overwritten, since nobody holds the node |
| FreeList.AddCasHeadKeepsInv | depend/concurrentqueue/concurrentqueue.h:1584-1586 | a successful exchange puts the node in front of the list it was linked to |
| FreeList.AddGiveUpKeepsInv | depend/concurrentqueue/concurrentqueue.h:1586-1591 | after a failed exchange the node is tried again or left to its other holders, never both |
| FreeList.ListedIff | depend/concurrentqueue/concurrentqueue.h:1506-1594 | a node can be reached from the head along the links if and only if the history has it on the list |
| FreeList.CasInstallsCurrentNext | depend/concurrentqueue/concurrentqueue.h:1543-1546 | no ABA: the link a thread is about to install as the head is at that moment the node's link, whatever happened since it was read |
| FreeList.TakenByOneThread | depend/concurrentqueue/concurrentqueue.h:1546-1554 | a node about to be returned is off the list, nobody's and no other thread's, its flag is down and both references to drop are there |
| FreeList.OwnedIsOffTheList | depend/concurrentqueue/concurrentqueue.h:1529-1566 | a client's node is not on the list and nobody is putting it there |
| FreeList.OwnedUntilAdded | depend/concurrentqueue/concurrentqueue.h:1515-1566 | a node returned stays its owner's through every run that does not add it |
| FreeList.ListChanges | depend/concurrentqueue/concurrentqueue.h:1515-1594 | which nodes are reachable changes by the head being taken and by a node put in front, and in no other way |
| FreeList.CarriedByOneThread | depend/concurrentqueue/concurrentqueue.h:1515-1594 | a node under way is in the hands of one thread only, and not anywhere else |
| FreeList.NeverLost | depend/concurrentqueue/concurrentqueue.h:1515-1594 | every node is owned, listed, carried by a thread, or flagged with some thread still holding it |
| FreeList.LastHolderAdds | depend/concurrentqueue/concurrentqueue.h:1556-1562 | no holder can take a flagged node, and the one that lets go last goes on to add it |
| FreeList.AddFindsFlagDown | depend/concurrentqueue/concurrentqueue.h:1515-1527 | the fetch-add of the flag raises it without carrying into another bit, and leaves the count |
| FreeList.QuietListIsComplete | depend/concurrentqueue/concurrentqueue.h:1506-1594 | with no call in progress every node is owned, with count 0, or listed, with count 1 |
| FreeList.NoThreadIsStuck | depend/concurrentqueue/concurrentqueue.h:1506-1594 | in a reachable state every thread inside a call can take its next step |
| FreeListCalls.GetsHead | depend/concurrentqueue/concurrentqueue.h:1529-1566 | a `try_get` that runs alone from any reachable state without calls ends after six steps with the head node, the head at its link, and that count at 0 |
| FreeListCalls.GotListed | depend/concurrentqueue/concurrentqueue.h:1529-1566 | so exactly that node is listed no more |
| FreeListCalls.GetsNone | depend/concurrentqueue/concurrentqueue.h:1531-1535 | with the head null it ends at once and changes nothing |
| FreeListCalls.NoneOnlyIfEmpty | depend/concurrentqueue/concurrentqueue.h:1529-1566 | in any run, a `try_get` that ends without its thread having gained a node had the head null at some moment of the call |
| FreeListCalls.PutsInFront | depend/concurrentqueue/concurrentqueue.h:1515-1594 | an `add` that runs alone ends after five steps with its node as the head, linked to the old one, with count 1 and nobody's |
| FreeListCalls.PutListed | depend/concurrentqueue/concurrentqueue.h:1515-1594 | so exactly that node is listed besides those that were |
| FreeListProgress.FailedHead | depend/concurrentqueue/concurrentqueue.h:1543-1556 | an exchange of the head that fails means that another thread's succeeded since the expected head was there |
| FreeListProgress.FailedRefs | depend/concurrentqueue/concurrentqueue.h:1537-1541 | an exchange of a count that fails means that another thread wrote the count since it was loaded |
| FreeListProgress.StepCounts | depend/concurrentqueue/concurrentqueue.h:1506-1594 | every step that wins no exchange of the head uses up one of the writes to counts that its thread can still make while the head stays, or one of its other steps before that |
| FreeListProgress.LockFree | depend/concurrentqueue/concurrentqueue.h:1506-1594 | from every reachable state of n threads, with no new call and no exchange of the head won, there are at most 24 n^2 + 10 n steps: some call always gets on |
| DequeueProtocol.ActionKeepsInv | depend/concurrentqueue/concurrentqueue.h:2010-2108 | every atomic step keeps the four counters in agreement with the tickets |
| DequeueProtocol.RunKeepsInv | depend/concurrentqueue/concurrentqueue.h:2010-2108 | so does every interleaving of the producer and any number of consumers |
| DequeueProtocol.ReachableInv | depend/concurrentqueue/concurrentqueue.h:2010-2108 | every reachable state has a ticket history |
| DequeueProtocol.WonWithinTail | depend/concurrentqueue/concurrentqueue.h:2034-2059 | if every ticket that passed, counted with all before it that were not given back, is within the tail, then no more than `tail` tickets passed |
| DequeueProtocol.ReserveKeepsInv | depend/concurrentqueue/concurrentqueue.h:2306-2313 | adding to the optimistic count reserves that many new tickets |
| DequeueProtocol.ReloadTailKeepsInv | depend/concurrentqueue/concurrentqueue.h:2315-2321 | deciding the tickets against the reloaded tail keeps the invariant, with the overcommit read before the reservation |
| DequeueProtocol.GiveBackKeepsInv | depend/concurrentqueue/concurrentqueue.h:2317-2390 | what was reserved in excess is given back to the overcommit, neither more nor less |
| DequeueProtocol.ClaimKeepsInv | depend/concurrentqueue/concurrentqueue.h:2323-2325 | what passed is claimed from the head, neither more nor less |
| DequeueProtocol.HeadWithinTail | depend/concurrentqueue/concurrentqueue.h:2010-2108 | in every reachable state the head does not pass the tail, nor head plus overcommit the optimistic count |
| DequeueProtocol.ClaimIsPublished | depend/concurrentqueue/concurrentqueue.h:2048-2059 | the indices about to be claimed have been published, from whatever head the fetch-add finds |
| DequeueProtocol.PendingFits | depend/concurrentqueue/concurrentqueue.h:2048-2059 | the head plus all that any distinct consumers are about to claim is within the tail |
| DequeueProtocol.ClaimsFitTogether | depend/concurrentqueue/concurrentqueue.h:2048-2059 | so, in every reachable state, the claims of all consumers together have been published, in whatever order they are made |
| DequeueProtocol.HeadOnlyGrows | depend/concurrentqueue/concurrentqueue.h:2059 | no run moves the head back |
| DequeueProtocol.ClaimsAreDisjoint | depend/concurrentqueue/concurrentqueue.h:2059 | the indices of one claim lie below those of any later one: each is claimed once |
| DequeueProtocol.QuietCountsAgree | depend/concurrentqueue/concurrentqueue.h:2010-2108 | with no dequeue in flight, optimistic count minus overcommit is the head |
| DequeueProtocol.SoloDequeue | depend/concurrentqueue/concurrentqueue.h:2303-2394 | a consumer alone on a quiet queue gets exactly what there is, up to what it asks for |
| DequeueCalls.TicketsBalance | depend/concurrentqueue/concurrentqueue.h:2304-2394 | in any run, each ticket that a thread counted it has claimed, given back, or holds still |
| DequeueCalls.CountsFound | depend/concurrentqueue/concurrentqueue.h:2306-2313 | whatever others do, a call counts what its first test finds below the tail, up to what it wants, and claims or gives back all of it |
| DequeueCalls.ClaimsCovered | depend/concurrentqueue/concurrentqueue.h:2315-2327 | whatever others do before the call ends, it claims of its tickets as many as the tail covers when it is loaded again, and gives back the others |
| DequeueProtocol.CountsOrdered | depend/concurrentqueue/concurrentqueue.h:2303-2308 | what a consumer has loaded is ordered before the first test: its tail is not past the present one, and the head not past the tickets counted, less its overcommit |
| DequeueProtocol.TicketsOrdered | depend/concurrentqueue/concurrentqueue.h:2312-2316 | the overcommit loaded is at most the reservation got, as the comment at 2037-2042 argues |
| CircularIndex.CircularLessThanIff | depend/concurrentqueue/concurrentqueue.h:496-503 | on wrapped values the test holds exactly when the distance around the circle is positive and below half of it |
| CircularIndex.CircularLessThanExact | depend/concurrentqueue/concurrentqueue.h:496-503 | on values less than half the circle apart it is the comparison of the unbounded values |
| CircularIndex.CircularLessThanAtHalf | depend/concurrentqueue/concurrentqueue.h:496-503 | half the circle apart neither value is less |
| CircularIndex.WrapKeepsOffset | depend/concurrentqueue/concurrentqueue.h:1722 | the offset in a block is the same for the wrapped index |
| CircularIndex.BeginKeepsInv | depend/concurrentqueue/concurrentqueue.h:2550-2556 | the leeway guard, on wrapped registers, leaves room for the block to be started |
| CircularIndex.StoreKeepsInv | depend/concurrentqueue/concurrentqueue.h:2604-2606 | publishing an element keeps the distance within the bound |
| CircularIndex.ClaimKeepsInv | depend/concurrentqueue/concurrentqueue.h:2610-2660 | so does claiming what was published, which the consumers' protocol guarantees: see ImplicitProducer |
| CircularIndex.RunKeepsInv | depend/concurrentqueue/concurrentqueue.h:2545-2607 | and every run |
| CircularIndex.LeewayHolds | depend/concurrentqueue/concurrentqueue.h:2545-2607 | after any run of these steps the queue holds less than half the index range, and no more than the size limit, whatever the limit is; the wrapped comparisons of head and tail agree with the true counts |
| CircularIndex.AcceptsIff | depend/concurrentqueue/concurrentqueue.h:2547-2556 | when `enqueue` goes on, in counts: within a block always; at the end of one exactly if the elements there and a block more are less than half the index range, and within the limit if there is one |
| ImplicitProducer.MovesFit | depend/concurrentqueue/concurrentqueue.h:2610-2622 | the next step of a consumer does not move the head past the tail: nothing has to be assumed of claims |
| ImplicitProducer.ActionKeepsInv | depend/concurrentqueue/concurrentqueue.h:2545-2660 | every step of the producer with wrapped registers and of any consumer keeps registers and counters in agreement |
| ImplicitProducer.RunKeepsInv | depend/concurrentqueue/concurrentqueue.h:2545-2660 | so does every interleaving |
| ImplicitProducer.ReachableInv | depend/concurrentqueue/concurrentqueue.h:2545-2660 | every reachable state has a ticket history that fits it |
| ImplicitProducer.LeewayHolds | depend/concurrentqueue/concurrentqueue.h:2550-2556 | in every reachable state the head does not pass the tail, the tail is less than half the index range ahead and within the limit, and the producer's tests on wrapped registers are those of the counts |
| ImplicitProducer.TakesIff | depend/concurrentqueue/concurrentqueue.h:2547-2556 | so in every reachable state, whatever the consumers are about to do |
| ImplicitProducer.PassesIff | depend/concurrentqueue/concurrentqueue.h:2616-2621 | a consumer's test on wrapped registers holds exactly when the wrapped difference is positive and below half the range |
| ImplicitProducer.TestOnWords | depend/concurrentqueue/concurrentqueue.h:2616-2621 | within a window of half the range before and after, the test and the difference taken from it are the true ones |
| ImplicitProducer.OutsideTheWindow | depend/concurrentqueue/concurrentqueue.h:2616-2621 | just outside of the window, on either side, the test is wrong |
| ImplicitProducer.TestRightIff | depend/concurrentqueue/concurrentqueue.h:2616-2621 | for all counts: a consumer's test on wrapped registers is right if and only if the difference leaves less than half the range when it is positive, and minus the difference no more than half when it is not |
| ImplicitProducer.FirstTestOnWords | depend/concurrentqueue/concurrentqueue.h:2614-2616 | the first test is right in a reachable state if and only if the tickets counted since the overcommit was loaded are not more than the tail loaded by a number that leaves more than half the range |
| ImplicitProducer.TicketTestOnWords | depend/concurrentqueue/concurrentqueue.h:2619-2621 | and the test of the tickets, when fewer were counted meanwhile than half the range less what the queue holds |
| WordTests.SameStep | depend/concurrentqueue/concurrentqueue.h:2303-2321 | a test that falls in its window, and the tickets taken from it, are the same on words |
| WordTests.SameRun | depend/concurrentqueue/concurrentqueue.h:2545-2660 | the machine whose consumers test words takes the same run as long as every test falls in its window |
| WordTests.WordLeeway | depend/concurrentqueue/concurrentqueue.h:2550-2556 | so the leeway holds of its registers |
| WordTests.SleepsOn | depend/concurrentqueue/concurrentqueue.h:2610-2622 | any number of elements may pass, with every test in its window, while a consumer sleeps with its ticket |
| WordTests.TestMisses | depend/concurrentqueue/concurrentqueue.h:2619-2622 | after half the index range of them it is told that nothing is there, though an element is, and gives the ticket back: a reachable state with a wrong test |
| BlockIndex.Block.IsEmpty | depend/concurrentqueue/concurrentqueue.h:1625-1649 | tells, by flags or by the counter, whether every place was completely dequeued |
| BlockIndex.Block.ReadFlag | depend/concurrentqueue/concurrentqueue.h:1629-1633 | one read of the loop tells whether its place is done |
| BlockIndex.Block.SetEmpty | depend/concurrentqueue/concurrentqueue.h:1652-1667 | marks exactly that place |
| BlockIndex.Block.ResetEmpty | depend/concurrentqueue/concurrentqueue.h:1707-1720 | unmarks every place |
| BlockIndex.ExplicitProducer.constructor | depend/concurrentqueue/concurrentqueue.h:1826-1842 | an empty producer, whether or not its first index could be allocated |
| BlockIndex.ExplicitProducer.Reuse | depend/concurrentqueue/concurrentqueue.h:1913-1923 | the oldest block, when empty, becomes the newest of the ring, and nothing that is not dequeued was in it |
| BlockIndex.ExplicitProducer.MakeRoom | depend/concurrentqueue/concurrentqueue.h:1937-1949 | succeeds exactly when there is a free slot or a larger index can be had; the old headers stay readable |
| BlockIndex.ExplicitProducer.NewBlockIndex | depend/concurrentqueue/concurrentqueue.h:2411-2452 | the doubled index covers every block of the ring |
| BlockIndex.ExplicitProducer.CopyEntries | depend/concurrentqueue/concurrentqueue.h:2429-2437 | the copying loop copies the used slots, oldest first, and stops after them |
| BlockIndex.ExplicitProducer.Splice | depend/concurrentqueue/concurrentqueue.h:1959-1967 | a new block goes between the newest and the oldest of the ring, or becomes a ring of one |
| BlockIndex.ExplicitProducer.Link | depend/concurrentqueue/concurrentqueue.h:1959-1968 | with the new block the ring has one block more, and every block holds what it held |
| BlockIndex.ExplicitProducer.AddBlock | depend/concurrentqueue/concurrentqueue.h:1924-1969 | adds a block exactly when the limit, the index and the allocator allow it; with memory, always without a limit, and with one exactly if the elements there and a block more are within it |
| BlockIndex.ExplicitProducer.AcceptsIff | depend/concurrentqueue/concurrentqueue.h:1930-1934 | for which numbers the limit test lets a block be added |
| BlockIndex.ExplicitProducer.StartLook | depend/concurrentqueue/concurrentqueue.h:1913 | looks at a block only if there is one |
| BlockIndex.ExplicitProducer.Look | depend/concurrentqueue/concurrentqueue.h:1625-1649 | one read of the look at the oldest block, with consumers marking places between the reads: the answer that ends the look is right at that moment |
| BlockIndex.ExplicitProducer.LookThrough | depend/concurrentqueue/concurrentqueue.h:1913 | alone, the loop ends with the right answer |
| BlockIndex.ExplicitProducer.TakeBlock | depend/concurrentqueue/concurrentqueue.h:1909-1969 | which block is filled next: the oldest if it was found empty, else a new one |
| BlockIndex.ExplicitProducer.BeginBlock | depend/concurrentqueue/concurrentqueue.h:1909-1969 | the block to be filled next is in the ring, though not in the index yet, and every way of the consumers is kept; with memory there is one always without a limit, and with one as the numbers say |
| BlockIndex.ExplicitProducer.StoreEntry | depend/concurrentqueue/concurrentqueue.h:1990-1993 | the store of the entry alone keeps every consumer's way, in whatever state of its reads |
| BlockIndex.ExplicitProducer.StoreFront | depend/concurrentqueue/concurrentqueue.h:1994-1995 | so does the store of the front, after which the index covers the new block |
| BlockIndex.ExplicitProducer.StartBlock | depend/concurrentqueue/concurrentqueue.h:1909-2001 | the three together keep everything a consumer may be relying on in the middle of its reads |
| BlockIndex.ExplicitProducer.Construct | depend/concurrentqueue/concurrentqueue.h:2003-2007 | the element goes to the place of its index and is published |
| BlockIndex.ExplicitProducer.Enqueue | depend/concurrentqueue/concurrentqueue.h:1904-2008 | the steps in a row append the element, or fail exactly when a block is needed and none can be had; with memory, never without a limit or within a block, and with one exactly if tail less head and a block more exceed it; the invariant and the consumers' reads are kept |
| BlockIndex.ExplicitProducer.Claim | depend/concurrentqueue/concurrentqueue.h:2059 | gives the next index, which is published and not taken |
| BlockIndex.ExplicitProducer.LoadIndex | depend/concurrentqueue/concurrentqueue.h:2064 | the header loaded leads to the block of any index that is published and not completed |
| BlockIndex.ExplicitProducer.LoadFront | depend/concurrentqueue/concurrentqueue.h:2065 | so it does from whatever front slot is read then |
| BlockIndex.ExplicitProducer.ReadBase | depend/concurrentqueue/concurrentqueue.h:2070 | the base read there is that of the block the front stood for |
| BlockIndex.ExplicitProducer.ReadBlock | depend/concurrentqueue/concurrentqueue.h:2071-2073 | the masked slot holds the very block that the index was enqueued into |
| BlockIndex.ExplicitProducer.Take | depend/concurrentqueue/concurrentqueue.h:2075-2095 | the element taken is the one enqueued at that index |
| BlockIndex.ExplicitProducer.Finish | depend/concurrentqueue/concurrentqueue.h:2096 | marking the place completes exactly that index |
| BlockIndex.ExplicitProducer.ReusedWereCompleted | depend/concurrentqueue/concurrentqueue.h:1913-1923 | a block is started a second time only after every index of its first time was completely dequeued |
| BlockIndex.ExplicitProducer.OldestIsFree | depend/concurrentqueue/concurrentqueue.h:1913-1916 | the block after the tail block is the oldest; once its indices are completed it holds nothing, and no other index of the ring is in it |
| BlockIndex.ExplicitProducer.LiveAreRecent | depend/concurrentqueue/concurrentqueue.h:1904-2008 | every index not completed belongs to a block of the ring |
| BlockIndex.ExplicitProducer.AtBoundary | depend/concurrentqueue/concurrentqueue.h:1909 | the masked tail index is zero exactly when the blocks started so far are full |
| BlockIndex.AllWhenFull | depend/concurrentqueue/concurrentqueue.h:1640-1648 | a counter of distinct places reaches the block size exactly when all places are counted |
| BlockIndex.SlotsDiffer | depend/concurrentqueue/concurrentqueue.h:1990-1995 | blocks less than a turn apart have different slots |
| BlockIndex.SlotFound | depend/concurrentqueue/concurrentqueue.h:2070-2073 | front slot, divided distance of the bases and mask give the slot of the block, from before it or after it |
| BlockIndex.SlotOnWords | depend/concurrentqueue/concurrentqueue.h:2070-2073 | the same from wrapped indices, with the difference as a signed word and its truncating division, while the distance fits a signed word |
| BlockIndex.BlocksAfterIs | depend/concurrentqueue/concurrentqueue.h:2070-2072 | that division gives the number of blocks between, forwards or backwards |
| BlockIndex.EntryIndexed | depend/concurrentqueue/concurrentqueue.h:1991-1993 | writing the entry lists the block and leaves the index covering what it did |
| BlockIndex.FrontIndexed | depend/concurrentqueue/concurrentqueue.h:1994-1995 | moving the front makes the index cover the ring with the new block |
| BlockIndex.EntrySees | depend/concurrentqueue/concurrentqueue.h:1991-1993 | the new entry leaves every way to a block of the ring as it was, from the front a consumer has read |
| BlockIndex.EntryKeeps | depend/concurrentqueue/concurrentqueue.h:1991-1993 | so every consumer between two reads still finds its block after the entry was written |
| BlockIndex.FrontKeeps | depend/concurrentqueue/concurrentqueue.h:1994-1995 | and after the front was moved |
| BlockIndex.StartKeeps | depend/concurrentqueue/concurrentqueue.h:1909-1969 | and after the ring or the index has grown |
| BlockIndex.SeenThen | depend/concurrentqueue/concurrentqueue.h:2064-2073 | what is kept by one step and then by another is kept by both |
| BlockIndex.FrontSees | depend/concurrentqueue/concurrentqueue.h:2064-2065 | from the front of the current header every block of the ring that is in the index is found |
| BlockIndex.DoubledCovers | depend/concurrentqueue/concurrentqueue.h:2429-2449 | an index with the used slots copied to its front covers the ring |
| BlockIndex.CellsPut | depend/concurrentqueue/concurrentqueue.h:2003-2004 | constructing the element fills its place and no other |
| BlockIndex.CellsTake | depend/concurrentqueue/concurrentqueue.h:2076-2095 | the place holds the element of its index, and taking it empties no other place |
| ExplicitQueue.WayStays | depend/concurrentqueue/concurrentqueue.h:2064-2073 | what a consumer has read on the way to its block leads there still after any step that keeps the ways |
| ExplicitQueue.ClaimIsPublished | depend/concurrentqueue/concurrentqueue.h:2048-2059 | the index about to be claimed is below the tail, by the protocol |
| ExplicitQueue.CallClaims | depend/concurrentqueue/concurrentqueue.h:2059 | the claim gives a thread an index that no other holds, and keeps counters and tickets in agreement |
| ExplicitQueue.ExplicitQueue.constructor | depend/concurrentqueue/concurrentqueue.h:1826-1842 | a new producer and any number of idle consumers are in order |
| ExplicitQueue.ExplicitQueue.IndexAct | depend/concurrentqueue/concurrentqueue.h:1990-1995 | a look, or a store to the index, at any moment, keeps everything in order, and does the producer's next thing or nothing |
| ExplicitQueue.ExplicitQueue.BeginAct | depend/concurrentqueue/concurrentqueue.h:1909-1969 | so does taking the next block: the oldest if it was found empty, else one more exactly as memory and the limit allow, in numbers |
| ExplicitQueue.ExplicitQueue.PutAct | depend/concurrentqueue/concurrentqueue.h:2003-2007 | so does publishing an element: the tail goes up by one, with that element |
| ExplicitQueue.ExplicitQueue.ProtocolAct | depend/concurrentqueue/concurrentqueue.h:2010-2059 | so does any step of a consumer in the protocol; the last one gives it the index that was the head |
| ExplicitQueue.ExplicitQueue.ReadAct | depend/concurrentqueue/concurrentqueue.h:2064-2073 | so does any of its four reads on the way to the block of its index, each a step of its own that brings it one further |
| ExplicitQueue.ExplicitQueue.TakeAct | depend/concurrentqueue/concurrentqueue.h:2075-2095 | what it takes out then is the element enqueued at its index, delivered to that thread |
| ExplicitQueue.ExplicitQueue.MarkAct | depend/concurrentqueue/concurrentqueue.h:2096 | marking the place completes that index, and the thread holds none |
| ExplicitQueue.ExplicitQueue.Dequeue | depend/concurrentqueue/concurrentqueue.h:2010-2108 | a whole `dequeue` by a consumer that is alone in the protocol, whatever the producer is at and other consumers hold: it delivers the element at the head and completes it, or nothing if the head is at the tail |
| ExplicitQueue.ExplicitQueue.Act | depend/concurrentqueue/concurrentqueue.h:1904-2108 | what any step of any thread does to the elements, the counters and the deliveries |
| ExplicitQueue.ExplicitQueue.Run | depend/concurrentqueue/concurrentqueue.h:1904-2108 | so does any run of all of them, in any order |
| ExplicitQueue.ExplicitQueue.EachOnce | depend/concurrentqueue/concurrentqueue.h:1904-2108 | after any run no index was delivered twice, each with the element enqueued at it, and when no consumer holds an index exactly those below the head were: none is lost |
| HopscotchHash.HopscotchMap.constructor | depend/hopscotch_map/hopscotch_hash.h:606-641 | an empty table of the rounded number of buckets is an empty map |
| HopscotchHash.HopscotchMap.FindInBuckets | depend/hopscotch_map/hopscotch_hash.h:1735-1764 | finds the key by the bits of its home bucket if and only if it is in a bucket |
| HopscotchHash.HopscotchMap.FindInOverflow | depend/hopscotch_map/hopscotch_hash.h:1766-1800 | finds the key in the overflow list or shows that it is not there |
| HopscotchHash.HopscotchMap.FindPosition | depend/hopscotch_map/hopscotch_hash.h:1684-1701 | finds the place of every key of the map, and none for other keys, though the list is searched only under the flag |
| HopscotchHash.HopscotchMap.Find | depend/hopscotch_map/hopscotch_hash.h:1087-1104 | gives what the map gives |
| HopscotchHash.HopscotchMap.EraseFromBucket | depend/hopscotch_map/hopscotch_hash.h:1390-1400 | empties the bucket and toggles the bit of its home |
| HopscotchHash.HopscotchMap.EraseFromOverflow | depend/hopscotch_map/hopscotch_hash.h:1363-1384 | removes the element and leaves the flag up exactly when another one of that home is left |
| HopscotchHash.HopscotchMap.NextBucket | depend/hopscotch_map/hopscotch_hash.h:564-576 | advancing an iterator leaves before it exactly the elements after the present one |
| HopscotchHash.HopscotchMap.EraseAt | depend/hopscotch_map/hopscotch_hash.h:945-962 | removes exactly the element the iterator points at, and gives an iterator that has before it exactly the elements that were after it |
| HopscotchHash.HopscotchMap.Erase | depend/hopscotch_map/hopscotch_hash.h:983-1004 | removes the key from the map and gives the number removed |
| HopscotchHash.HopscotchMap.FindEmptyBucket | depend/hopscotch_map/hopscotch_hash.h:1521-1531 | the first empty bucket within the probes, or none is |
| HopscotchHash.HopscotchMap.InsertInBucket | depend/hopscotch_map/hopscotch_hash.h:1539-1556 | adds the key to the map in that bucket, keeping the layout and the count |
| HopscotchHash.HopscotchMap.InsertInOverflow | depend/hopscotch_map/hopscotch_hash.h:1558-1584 | adds the key to the map in the list, keeping the layout and the count |
| HopscotchHash.HopscotchMap.SwapEmptyBucketCloser | depend/hopscotch_map/hopscotch_hash.h:1593-1632 | the table holds the same map; the empty bucket moved strictly closer, by less than a neighbourhood, or nothing changed |
| HopscotchHash.HopscotchMap.WillNeighborhoodChangeOnRehash | depend/hopscotch_map/hopscotch_hash.h:1494-1515 | whether some value of the neighbourhood gets another home in the next table; no answer exactly when the policy cannot grow |
| HopscotchHash.HopscotchMap.InsertNear | depend/hopscotch_map/hopscotch_hash.h:1454-1471 | adds the key in a bucket of its neighbourhood, or finds that neighbourhood full with the map as it was |
| HopscotchHash.HopscotchMap.InsertValue | depend/hopscotch_map/hopscotch_hash.h:1444-1456 | adds the key; the list grows only when no bucket near its home is free and the table is nearly empty or growing would move no value there; at the load threshold it grows first; it fails only when it had to grow and no next larger table takes the elements and one more; then it tells whether the map is what it was, and it is when there is no larger table at all; it ends, though it may rehash and roll back |
| HopscotchHash.HopscotchMap.InsertOrGrow | depend/hopscotch_map/hopscotch_hash.h:1454-1487 | the same after the load test; each displacement lowers the empty index, and each rehash raises the bucket count towards the maximum |
| HopscotchHash.HopscotchMap.Insert | depend/hopscotch_map/hopscotch_hash.h:1429-1442 | adds the key unless it is there, and tells which; a present key's value stays; into the list only as above |
| HopscotchHash.HopscotchMap.InsertOrAssign | depend/hopscotch_map/hopscotch_hash.h:1402-1427 | afterwards the key has the value, whether it was there or not; into the list only as above |
| HopscotchHash.HopscotchMap.Rehash | depend/hopscotch_map/hopscotch_hash.h:1183-1187 | at least as many buckets as asked for, and the same map; it succeeds, with exactly the rounded number, when the thresholds of such a table are not below the number of elements, and refuses more than the maximum with nothing changed |
| HopscotchHash.HopscotchMap.RehashImpl | depend/hopscotch_map/hopscotch_hash.h:1246-1317 | for any bucket count the table it ends with holds the same map; it succeeds with that count under the same condition; if it fails it tells whether the rollback restored the map |
| HopscotchHash.HopscotchMap.StartRehash | depend/hopscotch_map/hopscotch_hash.h:1249-1260 | the new table starts with exactly the elements of the overflow list |
| HopscotchHash.HopscotchMap.TakeOverflow | depend/hopscotch_map/hopscotch_hash.h:1251-1260 | the list is taken over whole, and the flags are up at its elements' new homes and nowhere else |
| HopscotchHash.HopscotchMap.MoveBucket | depend/hopscotch_map/hopscotch_hash.h:1267-1282 | one more bucket's value is in the new table and gone from the old, or both are as they were; it succeeds, and the new table does not grow, when its thresholds are not below the number of elements |
| HopscotchHash.HopscotchMap.RollBack | depend/hopscotch_map/hopscotch_hash.h:1286-1313 | takes the list back and restores the map if every value of the new table's buckets goes in again; if the list has grown, the table is out of order |
| HopscotchHash.HopscotchMap.InsertAgain | depend/hopscotch_map/hopscotch_hash.h:1298-1309 | the loop that puts the values in again restores the whole map, with the list that was taken back |
| HopscotchHash.HopscotchMap.EraseMoved | depend/hopscotch_map/hopscotch_hash.h:1277-1278 | the old table is in order without the value moved |
| HopscotchHash.HopscotchMap.Swap | depend/hopscotch_map/hopscotch_hash.h:1006-1019 | exchanges everything that makes up a table |
| HopscotchHash.HopscotchMap.Size | depend/hopscotch_map/hopscotch_hash.h:789 | the counter is the number of keys of the map |
| HopscotchHash.HopscotchMap.Clear | depend/hopscotch_map/hopscotch_hash.h:796-803 | the empty map, with the same buckets |
| HopscotchLayout.BitOfKey | depend/hopscotch_map/hopscotch_hash.h:1735-1764 | a key in a bucket is found through a bit of its home |
| HopscotchLayout.FlagOfKey | depend/hopscotch_map/hopscotch_hash.h:1695-1700 | a key in the list is announced by the flag of its home |
| HopscotchLayout.PutInOk | depend/hopscotch_map/hopscotch_hash.h:1539-1556 | a value put in an empty bucket of its neighbourhood keeps the layout and adds its key |
| HopscotchLayout.TakeOutOk | depend/hopscotch_map/hopscotch_hash.h:1390-1400 | taking one out keeps the layout and removes its key |
| HopscotchLayout.MoveToOk | depend/hopscotch_map/hopscotch_hash.h:1603-1627 | moving one within its neighbourhood keeps layout, map and count |
| HopscotchLayout.SpillOk | depend/hopscotch_map/hopscotch_hash.h:1558-1584 | an element appended to the list with its flag keeps the layout and adds its key |
| HopscotchLayout.UnspillOk | depend/hopscotch_map/hopscotch_hash.h:1363-1384 | removing one, with the flag lowered if it was the last of its home, keeps the layout and removes its key |
| HopscotchLayout.AssignInBucketOk | depend/hopscotch_map/hopscotch_hash.h:1402-1427 | another value for a key in a bucket changes the map at that key only |
| HopscotchLayout.AssignInListOk | depend/hopscotch_map/hopscotch_hash.h:1402-1427 | so does another value for a key in the list |
| HopscotchLayout.EmptyTableOk | depend/hopscotch_map/hopscotch_hash.h:796-803 | empty buckets are the empty map |
| HopscotchLayout.OverflowOnlyOk | depend/hopscotch_map/hopscotch_hash.h:1251-1260 | a list carried over to empty buckets, with its flags, is a table of exactly its elements |
| HopscotchLayout.MovedStep | depend/hopscotch_map/hopscotch_hash.h:1267-1282 | the next bucket's key is not in the new table yet, so that it may be inserted without a search |
| HopscotchLayout.OldStep | depend/hopscotch_map/hopscotch_hash.h:1277-1278 | the old table without the moved value has one key less, and no other change |
| HopscotchLayout.PutBackNext | depend/hopscotch_map/hopscotch_hash.h:1298-1309 | the next value of the new table is not in the old one, and brings its key back |
| HopscotchLayout.PutBackAll | depend/hopscotch_map/hopscotch_hash.h:1298-1309 | all of them bring everything back |
| HopscotchLayout.GrownIff | depend/hopscotch_map/hopscotch_hash.h:1293-1294 | a list that has grown goes with the old table's flags if and only if the homes of the new elements announced one already: else they cannot be found |
| HopscotchLayout.MovedAll | depend/hopscotch_map/hopscotch_hash.h:1267-1282 | after the last bucket the new table holds the whole map |
| NeighborhoodBits.ReadsAgree | depend/hopscotch_map/hopscotch_hash.h:280-312 | the bits of a bucket's word say what the bucket is |
| NeighborhoodBits.ToggleAgrees | depend/hopscotch_map/hopscotch_hash.h:297-302 | toggling a bit of the word toggles that neighbour and nothing else |
| NeighborhoodBits.SetOverflowAgrees | depend/hopscotch_map/hopscotch_hash.h:285-291 | setting the flag bit sets the flag only |
| NeighborhoodBits.SetEmptyAgrees | depend/hopscotch_map/hopscotch_hash.h:380-386 | setting the empty bit changes only that |
| NeighborhoodBits.ScanAgrees | depend/hopscotch_map/hopscotch_hash.h:1745-1763 | the scan ends exactly when no neighbour is left, and its low bit tells about the next |
| GrowthPolicy.PowerTest | depend/hopscotch_map/hopscotch_growth_policy.h:169-171 | the test finds exactly the powers of two |
| GrowthPolicy.SmearStep | depend/hopscotch_map/hopscotch_growth_policy.h:161-163 | each round doubles the run of ones under the top bit |
| GrowthPolicy.RoundUpToPowerOfTwo | depend/hopscotch_map/hopscotch_growth_policy.h:152-167 | the smearing loop gives the least power of two not below the value |
| GrowthPolicy.CeilIsLeastPower | depend/hopscotch_map/hopscotch_growth_policy.h:152-167 | what "least power of two" means |
| GrowthPolicy.PowerOfTwoPolicy.constructor | depend/hopscotch_map/hopscotch_growth_policy.h:101-114 | the mask is one less than the rounded count, or 0 |
| GrowthPolicy.PowerOfTwoPolicy.BucketForHash | depend/hopscotch_map/hopscotch_growth_policy.h:120-122 | masking is the remainder by the number of buckets |
| GrowthPolicy.PowerOfTwoPolicy.NextBucketCount | depend/hopscotch_map/hopscotch_growth_policy.h:127-134 | the count times the factor, or none exactly when that exceeds the maximum |
| GrowthPolicy.PowerOfTwoPolicy.Clear | depend/hopscotch_map/hopscotch_growth_policy.h:149 | one bucket for every hash |
| GrowthPolicy.PowerOfTwoIsLawful | depend/hopscotch_map/hopscotch_growth_policy.h:91-178 | the policy gives the table what its termination and its lookups need |
| RadixSort.FlippedIsKey | depend/kxsort/kxsort.h:47-55 | flipping the sign bit orders signed numbers like unsigned ones, for every width |
| RadixSort.PrefixStep | depend/kxsort/kxsort.h:40-55 | the bytes are the digits of the key |
| RadixSort.PrefixOrders | depend/kxsort/kxsort.h:40-55 | elements with different leading bytes are ordered like these |
| RadixSort.InsertSort | depend/kxsort/kxsort.h:57-71 | the range ends sorted, a permutation of what it was, and nothing outside it changed |
| RadixSort.InsertOne | depend/kxsort/kxsort.h:62-68 | one more element is in its place |
| RadixSort.CountBytes | depend/kxsort/kxsort.h:78-82 | the histogram of the bytes |
| RadixSort.Cursor | depend/kxsort/kxsort.h:84-88 | every cursor starts where its bucket does |
| RadixSort.CycleStep | depend/kxsort/kxsort.h:97-99 | one swap puts one more element into its bucket and keeps the multiset |
| RadixSort.PlaceNext | depend/kxsort/kxsort.h:93-103 | a cycle ends, since each swap uses up a place that was not filled, and leaves one more place of this bucket filled |
| RadixSort.RoomForStray | depend/kxsort/kxsort.h:97-99 | an element outside its bucket finds room there, so that no cursor runs over |
| RadixSort.FillBucket | depend/kxsort/kxsort.h:90-104 | the bucket and those before it are full |
| RadixSort.LastBucket | depend/kxsort/kxsort.h:92 | when the buckets so far reach the end of the range, everything is in place already |
| RadixSort.Permute | depend/kxsort/kxsort.h:90-104 | every element is in the bucket of its byte, and the range is a permutation of what it was |
| RadixSort.Distribute | depend/kxsort/kxsort.h:76-104 | elements that agree on the higher bytes end up ordered by bucket |
| RadixSort.LastByteSorts | depend/kxsort/kxsort.h:106 | after the lowest byte nothing is left to sort |
| RadixSort.OrderedNext | depend/kxsort/kxsort.h:107-115 | sorting a bucket in place extends the sorted part by it |
| RadixSort.SortBucket | depend/kxsort/kxsort.h:108-114 | by the next byte, by insertion or not at all, the bucket gets sorted |
| RadixSort.SortBuckets | depend/kxsort/kxsort.h:106-116 | the whole range is sorted and a permutation of what it was |
| RadixSort.RadixSortCore | depend/kxsort/kxsort.h:73-117 | sorts every range whose elements agree on the higher bytes |
| RadixSort.Sort | depend/kxsort/kxsort.h:119-137 | for every width, signed or not, sorts the range, permutes it, and leaves the rest of the array |
| IntegerText.TableEntry | depend/itoa/to_text_from_integer.h:90-96 | the table has the two digits of every number below 100 at twice the number |
| IntegerText.ScaledNear | depend/itoa/to_text_from_integer.h:97 | each scaled reciprocal times u does not overflow and over-estimates u*2^32/10^N by less than 2^32/10^N |
| IntegerText.NearStep | depend/itoa/to_text_from_integer.h:98-99 | then the integer part is exact, and the scaled fraction is as near to what remains |
| IntegerText.Pair | depend/itoa/to_text_from_integer.h:96 | two characters, the two digits |
| IntegerText.Lead | depend/itoa/to_text_from_integer.h:97 | the leading two digits of N + 2 |
| IntegerText.Rest | depend/itoa/to_text_from_integer.h:98-110 | all the later digits are exact |
| IntegerText.Convert | depend/itoa/to_text_from_integer.h:101-110 | the last k + 1 digits with their leading zeros |
| IntegerText.L09 | depend/itoa/to_text_from_integer.h:112-113 | the comparisons find the number of digits |
| IntegerText.L03 | depend/itoa/to_text_from_integer.h:112-114 | also for up to four digits |
| IntegerText.Short | depend/itoa/to_text_from_integer.h:116 | the decimal text of a 32-bit number |
| IntegerText.WithChunk | depend/itoa/to_text_from_integer.h:117 | the text of the higher part, then eight digits with zeros |
| IntegerText.WithChunks | depend/itoa/to_text_from_integer.h:118 | the text of the highest part, then sixteen digits with zeros |
| IntegerText.TextOfChunks | depend/itoa/to_text_from_integer.h:142-154 | these make up the text of the whole number |
| IntegerText.Magnitude | depend/itoa/to_text_from_integer.h:131-155 | the text of every magnitude of 8 to 64 bits |
| IntegerText.ToText | depend/itoa/to_text_from_integer.h:124-156 | the canonical decimal text of every value of the type, the least one included, and nothing else is written |
| IntegerText.PaddedSplit | depend/itoa/to_text_from_integer.h:97-110 | digits with leading zeros may be written from both parts of any split |
| IntegerText.TextSplit | depend/itoa/to_text_from_integer.h:116-118 | the text of a large number is that of its higher part and the padded lower digits |
| IntegerText.TextReads | depend/itoa/to_text_from_integer.h:124-156 | what "canonical" means: it reads back to the number and only zero starts with a zero |
| Base64.AlphabetInverse | depend/base64/cbase64.h:59-72 | the decoder's values are the inverse of the alphabet, and negative for every other character |
| Base64.AlphabetIs | depend/base64/cbase64.h:59-63 | the alphabet is that of RFC 4648, and `=` the padding |
| Base64.EncodedLengthIff | depend/base64/cbase64.h:86-89 | the 32-bit length is that of the text if and only if there are at most 3221225469 bytes |
| Base64.DecodedLengthIs | depend/base64/cbase64.h:91-100 | the length computed from a text and its padding is the number of bytes |
| Base64.EncodesText | depend/base64/cbase64.h:102-155 | the resumable coder makes the text that RFC 4648 defines by groups of six bits |
| Base64.GroupIs | depend/base64/cbase64.h:102-155 | the text of one to three bytes is their number of 24 bits in base 64, padded |
| Base64.EncodeAppend | depend/base64/cbase64.h:102-155 | stopping and resuming anywhere makes no difference |
| Base64.AnySplitEncodes | depend/base64/cbase64.h:102-242 | however the bytes are split over calls, the text is the same |
| Base64.EncodeCase | depend/base64/cbase64.h:114-152 | one byte in one step of the switch |
| Base64.EncodeBlock | depend/base64/cbase64.h:102-155 | writes what the coder makes of the block from the saved step, saves the step, and touches nothing else |
| Base64.EncodeBlockEnd | depend/base64/cbase64.h:222-242 | writes the last character and the padding |
| Base64.DecodeAppend | depend/base64/cbase64.h:157-220 | the decoder too may be stopped and resumed anywhere |
| Base64.DecodesText | depend/base64/cbase64.h:157-220 | decoding the text of any bytes gives the bytes |
| Base64.ChunksDecode | depend/base64/cbase64.h:157-220 | over any list of chunks, each call started as the one before left it, the decoder gives what one call would |
| Base64.AnySplitDecodes | depend/base64/cbase64.h:157-220 | so however a text is split over calls, the bytes come out |
| Base64.OthersSkipped | depend/base64/cbase64.h:176-179 | characters outside the alphabet make no difference |
| Base64.DecodesWithOthers | depend/base64/cbase64.h:157-220 | so a text with line breaks in it decodes to its bytes |
| Base64.DecodeCase | depend/base64/cbase64.h:172-216 | one character in one step of the switch |
| Base64.DecodeBlock | depend/base64/cbase64.h:157-220 | writes the bytes completed and the one begun, saves the step, and touches nothing else |
| Base64.DecodeParts | depend/base64/cbase64.h:157-220 | calls on consecutive chunks, each writing where the last one stopped, leave output and state as one call on all of them does |
| Base64.BegunNeedsRoom | depend/base64/cbase64.h:172-216 | a begun byte needs room in the output in any case |
| Base64.EncodeStateIn.constructor | depend/base64/cbase64.h:74-78 | starts at the first step |
| Base64.DecodeStateIn.constructor | depend/base64/cbase64.h:80-84 | starts at the first step |
| DotSegments.FindSlash | depend/rapidjson/uri.h:418-423 | the length of the next segment |
| DotSegments.FindBackUp | depend/rapidjson/uri.h:425-440 | where the last segment written starts, or the position itself at the root |
| DotSegments.OneSegment | depend/rapidjson/uri.h:424-453 | one segment is dropped, backed up over or moved down; what is not read yet stays |
| DotSegments.KeepSegment | depend/rapidjson/uri.h:443-453 | moving a segment down and adding its slash does not reach what is not read yet |
| DotSegments.RemoveDotSegments | depend/rapidjson/uri.h:411-458 | in place, the write position never passing the read position, the path becomes what the walk over its segments gives |
| DotSegments.WalkIsRfc | depend/rapidjson/uri.h:411-458 | on the way through an absolute path the walk and the rules of RFC 3986 agree |
| DotSegments.AbsoluteIsRfc | depend/rapidjson/uri.h:411-458 | on every absolute path the result is that of section 5.2.4 |
| DotSegments.RelativeDiffers | depend/rapidjson/uri.h:411-458 | on `a/..` it is not |
| DotSegments.MeetsRfcIff | depend/rapidjson/uri.h:411-458 | on any path it is if and only if no `..` takes back the first kept segment of a relative path for good |
| DotSegments.WalkUnder | depend/rapidjson/uri.h:411-458 | an extra slash in front shows in the result exactly when the loop does not go back over it |
| DotSegments.RelativeWalk | depend/rapidjson/uri.h:411-458 | from the first kept segment on, walk and rules agree exactly under that condition |
| DotSegments.WalkNoDots | depend/rapidjson/uri.h:411-458 | no dot segment is left, whatever the path |
| DotSegments.WalkKeeps | depend/rapidjson/uri.h:411-458 | a path without dot segments stays as it is |
| DotSegments.Idempotent | depend/rapidjson/uri.h:411-458 | doing it twice is doing it once |
| DotSegments.DotsCancel | depend/rapidjson/uri.h:411-458 | anywhere in a path a segment followed by `..` can be taken out together with it, so can a `.`, and so can a `..` at the root |
| JsonWriter.Writer.constructor | depend/rapidjson/writer.h:101-103 | no text, no level, no root yet |
| JsonWriter.Writer.WriteString | depend/rapidjson/writer.h:377-449 | appends the string literal for the bytes |
| JsonText.EscapedIs | depend/rapidjson/writer.h:377-449 | which characters are escaped and how: by letter, by code in four upper-case digits, after a backslash, or not |
| JsonWriter.Writer.PlainLead | depend/rapidjson/writer.h:473-486 | the comma or colon that the place on the level calls for |
| JsonWriter.Writer.PrettyLead | depend/rapidjson/prettywriter.h:208-244 | the same with the line break, indentation or space of the format, which `JsonLayout` pins |
| JsonWriter.Writer.Prefix | depend/rapidjson/writer.h:473-491 | counts one more value on the level, or takes the place of the root |
| JsonWriter.Writer.WriteIndent | depend/rapidjson/prettywriter.h:252-255 | indentation: as many characters as the level times the count, as `JsonLayout` has them |
| JsonWriter.Writer.Null | depend/rapidjson/writer.h:182 | does what the event says wherever a value may come |
| JsonWriter.Writer.Bool | depend/rapidjson/writer.h:183 | likewise |
| JsonWriter.Writer.Number | depend/rapidjson/writer.h:184-194 | likewise |
| JsonWriter.Writer.String | depend/rapidjson/writer.h:203-208 | likewise, and as a name where a name comes |
| JsonWriter.Writer.Key | depend/rapidjson/writer.h:222 | likewise |
| JsonWriter.Writer.StartObject | depend/rapidjson/writer.h:216-220 | opens a level |
| JsonWriter.Writer.EndObject | depend/rapidjson/prettywriter.h:137-155 | closes it, with a line break unless it is empty |
| JsonWriter.Writer.StartArray | depend/rapidjson/writer.h:240-244 | opens a level |
| JsonWriter.Writer.EndArray | depend/rapidjson/prettywriter.h:163-179 | closes it, with a line break unless it is empty or the arrays are on one line |
| JsonWriter.Writer.Accept | depend/rapidjson/document.h:1933-1970 | a tree sent to a writer adds exactly its text, after the separator, and leaves the levels |
| JsonWriter.Writer.AcceptItems | depend/rapidjson/document.h:1951-1957 | likewise the loop over elements |
| JsonWriter.Writer.AcceptMembers | depend/rapidjson/document.h:1939-1949 | likewise the loop over members |
| JsonWriter.EventsWrite | depend/rapidjson/writer.h:182-252 | wherever a value may come, every event of a tree is allowed, and together they write its text, one value on the level |
| JsonWriter.WriteTree | depend/rapidjson/writer.h:176-252 | a fresh writer, plain or pretty, makes a text that the reference reader reads back to the tree |
| JsonReader.StringBack | depend/rapidjson/writer.h:377-449 | every byte string is read back from its literal |
| JsonReader.ValueBack | depend/rapidjson/writer.h:377-491 | every tree is read back from its text, whatever follows it |
| JsonReader.RoundTrip | depend/rapidjson/prettywriter.h:137-255 | the text of either writer, in any format, is read back to the same tree |
| JsonPretty.BareValue | depend/rapidjson/prettywriter.h:137-255 | without its white space outside literals, the pretty text of a value is the plain one, whatever follows |
| JsonPretty.PrettyIsCompactWithSpace | depend/rapidjson/prettywriter.h:137-255 | the two texts differ by white space outside string literals only |
| JsonLayout.PrettyIsLaidOut | depend/rapidjson/prettywriter.h:137-255 | the pretty text, character by character from the plain one: after a bracket that opens, a comma, and before one that closes, unless it is empty or in an array on one line, a line break and as many indentation characters as brackets are open times the count; a space after a colon, and after a comma on one line; nothing else, and nothing inside literals |
| JsonDocument.MaskTests | depend/rapidjson/document.h:804-828 | the masks in the constructors test for the ranges of the integer types |
| JsonDocument.FlagsAreRanges | depend/rapidjson/document.h:792-831 | whichever constructor made it, a number's flags say which integer types hold it |
| JsonDocument.NumberRebuilt | depend/rapidjson/document.h:1962-1968 | sending a number by its flags and constructing it again gives the number and the flags |
| JsonDocument.EventsPushOne | depend/rapidjson/document.h:2803-2844 | the events of a tree push exactly one value, the tree with its flags, and leave what is below it |
| JsonDocument.StoredLoads | depend/rapidjson/document.h:1933-1970 | nothing of a tree is lost in its stored form |
| JsonDocument.GenericDocument.Null | depend/rapidjson/document.h:2804 | pushes the value |
| JsonDocument.GenericDocument.Bool | depend/rapidjson/document.h:2805 | pushes the value |
| JsonDocument.GenericDocument.Number | depend/rapidjson/document.h:2806-2810 | pushes the number with its flags |
| JsonDocument.GenericDocument.String | depend/rapidjson/document.h:2820-2830 | pushes the string, as a value or as a name |
| JsonDocument.GenericDocument.StartObject | depend/rapidjson/document.h:2828 | pushes an empty object |
| JsonDocument.GenericDocument.StartArray | depend/rapidjson/document.h:2838 | pushes an empty array |
| JsonDocument.GenericDocument.EndObject | depend/rapidjson/document.h:2832-2836 | pops names and values into the object below them, in order |
| JsonDocument.GenericDocument.EndArray | depend/rapidjson/document.h:2840-2844 | pops the elements into the array below them, in order |
| JsonDocument.GenericDocument.Accept | depend/rapidjson/document.h:1933-1970 | sending a tree to a document pushes exactly that tree |
| JsonDocument.GenericDocument.AcceptItems | depend/rapidjson/document.h:1951-1957 | likewise the loop over elements |
| JsonDocument.GenericDocument.AcceptMembers | depend/rapidjson/document.h:1939-1949 | likewise the loop over members |
| JsonPointer.CanonicalIndex | depend/rapidjson/pointer.h:1028-1045 | the decimal text of every number below 2^32-1 gets that number as its index |
| JsonPointer.IndexIs | depend/rapidjson/pointer.h:1034-1045 | for a name of any number of digits the loop gives what the number leaves in 32 bits, unless at some digit the prefix leaves less than the one before, and then no index |
| JsonPointer.IndexRightIff | depend/rapidjson/pointer.h:1034-1045 | so a number that is too large for an index is found to be if and only if that happens at some digit, or the invalid index itself is left |
| JsonPointer.TenDigits | depend/rapidjson/pointer.h:1034-1045 | for numbers of up to ten digits: if and only if what is left is less than the number without its last digit, or is the invalid index |
| JsonPointer.MissedOverflow | depend/rapidjson/pointer.h:1034-1045 | 5000000000 is taken for the index 705032704 |
| JsonPointer.ConvertIndex | depend/rapidjson/pointer.h:1028-1045 | the conversion in the name buffer gives the index of the name |
| JsonPointer.DecodePercent | depend/rapidjson/pointer.h:972-990 | decodes one percent-encoded UTF-8 sequence, or tells that it is none, within the buffer |
| Hexadecimal.Digits | depend/rapidjson/pointer.h:1126-1131 | the digits that are written, in upper case, and what each digit of either case is read as |
| Hexadecimal.DigitIff | depend/rapidjson/pointer.h:1126-1135 | no other character is a digit |
| JsonPointer.OnePiece | depend/rapidjson/pointer.h:968-1022 | reads one character, escape or sequence, with the error and the position of each wrong one |
| JsonPointer.OneName | depend/rapidjson/pointer.h:966-1022 | reads a name up to the next slash, and knows whether it is all digits |
| JsonPointer.OneToken | depend/rapidjson/pointer.h:961-1047 | one more token is in its place, with its name and index; the name position stays behind the read position |
| JsonPointer.PieceNoSlash | depend/rapidjson/pointer.h:939-943 | no name has a slash in the source, so that the slashes count the tokens |
| JsonPointer.LongIsNoNumber | depend/rapidjson/pointer.h:984-989 | a sequence of more than one byte has no digit in it to be missed |
| JsonPointer.CountSlashes | depend/rapidjson/pointer.h:939-943 | counts the slashes |
| JsonPointer.GenericPointer.Parse | depend/rapidjson/pointer.h:930-1060 | the tokens are the names the text stands for, all within a name buffer as long as the text; a text that is no pointer leaves none, with the right error and offset |
| JsonPointer.GenericPointer.Fail | depend/rapidjson/pointer.h:1053-1059 | no tokens, the error and its offset |
| JsonPointer.FragmentExistsIff | depend/rapidjson/encodings.h:178-220 | the fragment form of a name exists if and only if the name is valid UTF-8 |
| JsonPointer.StringifyExists | depend/rapidjson/pointer.h:1069-1100 | the string form always exists, the fragment form exactly for such names |
| JsonPointer.PrintName | depend/rapidjson/pointer.h:1077-1097 | the loop over the characters prints that form, or fails when there is none |
| JsonPointer.Print | depend/rapidjson/pointer.h:1069-1100 | so does the loop over the tokens |
| JsonPointer.NameBack | depend/rapidjson/pointer.h:968-1022 | a printed name is read back |
| JsonPointer.RoundTrip | depend/rapidjson/pointer.h:930-1100 | every list of names is read back from its string form, and from its fragment form where there is one |
| PointerText.AnyCase | depend/rapidjson/pointer.h:1119-1141 | the case of hexadecimal digits, in any mix, makes no difference to what a fragment is parsed to, error and position included |
| PointerText.AnyCaseBack | depend/rapidjson/pointer.h:930-1141 | so every list of names is read back from its fragment form with digits of either case |
| PointerText.NameIsRfc | depend/rapidjson/pointer.h:996-1022 | in the string form, a name is what section 4 of RFC 6901 makes of the part between slashes, and wrong exactly if a tilde starts no escape |
| PointerText.PlainIsRfc | depend/rapidjson/pointer.h:930-1060 | so for every text: which are refused, with which error and where, and which names the others give |
| PointerText.FragmentMeetsRfcIff | depend/rapidjson/pointer.h:961-1022 | a fragment gives the names that section 6 of RFC 6901 gives it if and only if no slash is percent-encoded in it |
| PointerText.FragmentWrong | depend/rapidjson/pointer.h:930-1060 | a fragment that is refused is wrong where the offset says, in the way that the error says |
| PointerText.HiddenSlash | depend/rapidjson/pointer.h:966-990 | `#/a%2Fb` gives one name and should give two |
| PointerText.NeedPercentEncodeIff | depend/rapidjson/pointer.h:918-920 | exactly the unreserved characters of RFC 3986 are printed in a fragment as they are |
| PointerText.ValidIff | depend/rapidjson/encodings.h:178-220 | a sequence is valid if and only if it is the UTF-8 of a code point that is no surrogate |
| PointerResolve.Get | depend/rapidjson/pointer.h:607-635 | resolves the pointer, or gives the first token that leads nowhere |
| PointerEffects.ResolvesIff | depend/rapidjson/pointer.h:607-635 | a pointer resolves to a path exactly if each token leads to its next step: to the first member with the name, or to the element with the index |
| PointerEffects.UnresolvedIs | depend/rapidjson/pointer.h:625-634 | the position reported is that of the first token that leads nowhere |
| PointerResolve.Tree.Make | depend/rapidjson/pointer.h:469-504 | one turn of the loop: the value is made a container if it must be, and the child is there; `PointerEffects.CreateMakes` tells which |
| PointerResolve.Tree.CreateAt | depend/rapidjson/pointer.h:464-511 | the tree in place, the value returned and `alreadyExist` are those of the recursive definition, which `PointerEffects` determines |
| PointerEffects.CreateMakes | depend/rapidjson/pointer.h:464-511 | the whole tree afterwards: which values on the way become arrays and which objects; an object keeps its members and gains the missing one at its end; an array keeps its elements and is filled with nulls up to the index; the value at the end is the one that was there or null |
| PointerEffects.OthersStay | depend/rapidjson/pointer.h:464-511 | what any other tokens led to they lead to afterwards, if and only if no array on their way met a name and became an object; the value there is the same unless it is one on the way of `Create` |
| PointerResolve.CreateKnows | depend/rapidjson/pointer.h:464-511 | `alreadyExist` if and only if `Get` resolved before; then the tree is unchanged and the value the same |
| PointerResolve.CreateThenGet | depend/rapidjson/pointer.h:464-511 | afterwards `Get` resolves to the very value that `Create` returned, if and only if no `-` was used up on an array |
| PointerResolve.NoDashMeets | depend/rapidjson/pointer.h:469-473 | which is always so without a `-` token |
| PointerResolve.CreatedIsNull | depend/rapidjson/pointer.h:462-511 | a value that did not exist is null |
| PointerResolve.CreateTwice | depend/rapidjson/pointer.h:464-511 | creating again changes nothing and finds the value |
| PointerResolve.ParsedTokensOk | depend/rapidjson/pointer.h:1028-1045 | a parsed token has an index only if its name is a number without a leading zero; so that for `-` has none, as is required of tokens below |
| PoolAllocator.MemoryPool.constructor | depend/rapidjson/allocators.h:168-213 | one empty chunk and no blocks |
| PoolAllocator.MemoryPool.AddChunk | depend/rapidjson/allocators.h:389-401 | a new head chunk, or none when the base allocator has none, for every capacity; every block stays where it is; the pool is in order if the size with the header does not wrap |
| PoolAllocator.MemoryPool.Malloc | depend/rapidjson/allocators.h:320-333 | for every size: the caller gets memory that is in a chunk and in no other block if and only if the request fits; then it is aligned and where it should be, and there is none exactly when the size is 0 or no memory is left |
| PoolAllocator.MemoryPool.Realloc | depend/rapidjson/allocators.h:336-368 | for every size: right if and only if the request fits; then the old contents are in the block returned, grown in place or moved, it overlaps no other block and no other byte changes, and there is none exactly when the new size is 0 or nothing can be grown or had |
| PoolAllocator.MemoryPool.TryGrow | depend/rapidjson/allocators.h:352-358 | grows in place exactly when the block is the last one and the room test passes, which is right if and only if the sum does not wrap |
| PoolAllocator.MemoryPool.Move | depend/rapidjson/allocators.h:361-367 | a new block with the old contents if and only if the request fits, and none exactly when no memory is left |
| PoolAllocator.MemoryPool.Clear | depend/rapidjson/allocators.h:276-287 | the first chunk, empty, and no blocks |
| PoolAllocator.AddChunkKeeps | depend/rapidjson/allocators.h:389-401 | a chunk more keeps all blocks apart and inside |
| PoolAllocator.CutKeeps | depend/rapidjson/allocators.h:330-331 | so does a block cut from the free part |
| PoolAllocator.GrowKeeps | depend/rapidjson/allocators.h:352-356 | so does growing the last block |
| PoolAllocator.LastBlockIsLast | depend/rapidjson/allocators.h:352 | a block that seems to end at the free part is in the head chunk and does end there, even if the caller thinks it smaller |
| PoolAllocator.FreePartIsFree | depend/rapidjson/allocators.h:330 | no block reaches into the free part of the head chunk |
| PoolAllocator.ServedRightIff | depend/rapidjson/allocators.h:320-333 | for every pool in order, every size and every answer of the base allocator: what the caller gets is right if and only if the size is 0, or its rounding does not wrap, nor its sum with the used part, nor, if a chunk is made, that chunk with its header |
| PoolAllocator.AlwaysRightIff | depend/rapidjson/allocators.h:320-333 | for every pool and size: it is right whatever the base allocator may answer if and only if that holds, where a chunk may also fill the address space exactly, since a request for no bytes gets none |
| PoolAllocator.ServedWrong | depend/rapidjson/allocators.h:320-333 | an input for each of the three ways in which it is not right |
| PoolAllocator.ServedKeeps | depend/rapidjson/allocators.h:320-333 | a request that fits keeps all blocks apart and inside, with the new one |
| PoolAllocator.ServedPlaced | depend/rapidjson/allocators.h:320-333 | where the bytes come from: the next free ones of the head chunk if they are enough, else the first of a new chunk in front, of the chunk capacity or the size, whichever is larger |
| PoolAllocator.HeadWrong | depend/rapidjson/allocators.h:326-331 | a size whose rounding or whose sum wraps gets bytes that are in no chunk |
| PoolAllocator.WrappedSumPasses | depend/rapidjson/allocators.h:326 | a sum that wraps passes the room test, though there is no room |
| PoolAllocator.StaysIff | depend/rapidjson/allocators.h:347-349 | leaving a block as it is is right if and only if the new size's rounding does not wrap |
| PoolAllocator.GrownIff | depend/rapidjson/allocators.h:352-357 | growing in place is right if and only if the sum with the increment does not wrap |
| PoolAllocator.MovedIff | depend/rapidjson/allocators.h:361-367 | moving is right exactly when the new size would be served right, though it is rounded twice |
| PoolAllocator.AlignHuge | depend/rapidjson/rapidjson.h:297-308 | the seven largest sizes are rounded to nothing |

## Left out

- The queue: weak memory orders and fences (steps are sequentially consistent), exceptions, `enqueue_bulk`, the
  implicit producers' hash, token rotation, moving and swapping queues, statistics.
- DequeueProtocol: `dequeue` is `dequeue_bulk` with a maximum of one; the four counters are unbounded there. When the
  tests on wrapped registers agree with them is `ImplicitProducer` and `WordTests`: as long as no consumer sleeps
  through half an index range of other tickets between a load and its test.
- CircularIndex.ClaimKeepsInv: claims of published elements only, by the guard of the step; `ImplicitProducer.MovesFit`
  proves it of the consumers.
- CircularIndex.LeewayHolds: for runs of such steps; `ImplicitProducer.LeewayHolds` is the same without the guard.
- BlockIndex.ExplicitProducer.Enqueue: the producer's private updates within one of its steps are seen by nobody and are
  not split further, nor is the making of a larger index, which is complete before its pointer is stored; element
  constructors that throw, and what they roll back, are not modelled. The index arrays are sequences that the producer
  holds, the two fields of an entry are stored at once, and indices are unbounded; `BlockIndex.SlotOnWords` has the one
  computation on them in its wrapped form. Taking several elements at once, over several blocks, is not modelled.
- ExplicitQueue.ExplicitQueue.Run: calls of `dequeue`, not of `dequeue_bulk`; the counters are unbounded, as in
  `DequeueProtocol`.
- HopscotchHash.HopscotchMap.InsertValue: memory for the overflow list is always there, so that only a table that cannot
  grow makes a rehash fail; the iterators that insertions return are not modelled.
- HopscotchHash.HopscotchMap.RollBack: when the list has grown, the original goes on to insert into a table that is out
  of order; the model stops there.
- HopscotchHash.HopscotchMap.RehashImpl: the variant that copies (depend/hopscotch_map/hopscotch_hash.h:1320-1347) is
  not modelled.
- The hash table's float load factors are integer thresholds; stored hashes, transparent lookup, iteration, range
  insertion, copying and moving tables, the modulo and prime policies, and the map and set classes on top are not
  modelled.
- RadixSort.Sort: integers in arrays; other containers and traits of one's own are not modelled.
- IntegerText.ToText: `bool` is not among the types.
- Base64.DecodeBlock: `char` is signed. The decoder's table is given by its ranges.
- JsonWriter.Writer.Number: integers come out as their canonical decimal text, without the writer's own digit loops;
  doubles are opaque tokens.
- JsonWriter.Writer.WriteString: encodings other than UTF-8, validation, raw values and vectorised scanning are not
  modelled. The plain and the pretty writer are one class with a style.
- JsonReader: a reference for the grammar; the repository's own reader is not part of this model.
- JsonDocument: how strings are stored, capacities, allocators and the option of a members map.
- JsonPointer: `Erase`, `Set`, appending tokens, and the resolution of URIs in documents.
- PointerResolve.Tree.CreateAt: a reference into the tree is a path from its root, so that aliasing is not captured;
  hand-made tokens whose index does not go with their name are excluded, and so are capacities.
- PoolAllocator.MemoryPool.Malloc: sharing by reference counts, the alignment of a user's buffer and the base allocator
  itself, whose answer is a parameter, are not modelled; nor is what becomes of a pool after it went wrong.
- The rest of the repository: the application's own sources, of which only forward declarations are there; floating
  point printing, hashing, SIMD wrappers, file and stream wrappers, the test reporters.
