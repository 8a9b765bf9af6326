/** The explicit producer's storage: a circular list of blocks that are filled one after another and
    reused when empty, and a circular index through which consumers find the block of an element.
    One producer calls `Enqueue`; consumers claim an index, look its block up in several separate
    reads, take the element and mark its place empty, with any calls of others in between. */
module BlockIndex {
  import opened Arith
  import opened Bits
  import opened Options

  const WORD_BITS: nat := 64
  const EMPTY_FLAGS_THRESHOLD: nat := 32

  /** A place for one element: raw storage, or an element that was constructed and not destroyed. */
  datatype Cell<T> = Raw | Holding(value: T)

  // ----- Indices -----

  /** The index of offset `o` in the block that was started as the `k`-th. */
  function At(size: nat, k: nat, o: nat): nat {
    k * size + o
  }

  lemma AtParts(size: nat, k: nat, o: nat)
    requires o < size
    ensures At(size, k, o) / size == k && At(size, k, o) % size == o
  {
    DivModUnique(At(size, k, o), k, o, size);
  }

  lemma AtWhole(size: nat, i: nat)
    requires size > 0
    ensures 0 <= i % size < size && i / size >= 0 && At(size, i / size, i % size) == i
  {
  }

  lemma {:induction false} AtOrder(size: nat, j: nat, k: nat)
    requires j <= k
    ensures At(size, j, 0) <= At(size, k, 0)
    decreases k - j
  {
    if j < k {
      AtOrder(size, j, k - 1);
      AtNext(size, k - 1, 0);
    }
  }

  lemma AtNext(size: nat, k: nat, o: nat)
    ensures At(size, k, size) == At(size, k + 1, 0)
    ensures At(size, k, o) == At(size, k, 0) + o
  {
  }

  /** An index below the start of block `k` belongs to an earlier block, and conversely. */
  lemma AtBelow(size: nat, i: nat, k: nat)
    requires size > 0
    ensures i < At(size, k, 0) <==> i / size < k
  {
    AtWhole(size, i);
    var q, r := i / size, i % size;
    AtNext(size, q, r);
    AtNext(size, q, size);
    if q < k {
      AtOrder(size, q + 1, k);
    } else {
      AtOrder(size, k, q);
    }
  }

  /** `x & (size - 1)` on the wrapped machine word. */
  function Masked(x: int, size: nat): nat
    requires size > 0
  {
    And(x % Pow2(WORD_BITS), size - 1)
  }

  /** For a power of two that is the remainder. */
  lemma MaskIsMod(x: int, size: nat, log: nat)
    requires size == Pow2(log) && log <= WORD_BITS
    ensures Masked(x, size) == x % size
  {
    var k := Pow2Divides(log, WORD_BITS);
    AndOnes(x % Pow2(WORD_BITS), log);
    ModMod(x, k, size);
  }

  // ----- Blocks -----

  class Block<T> {
    const size: nat
    var next: Block?<T>
    var emptyFlags: seq<bool>
    var elementsCompletelyDequeued: nat
    var elements: seq<Cell<T>>

    /** The offsets whose elements were completely dequeued since the last reset. */
    ghost var done: set<nat>

    predicate UsesFlags() {
      size <= EMPTY_FLAGS_THRESHOLD
    }

    ghost predicate Valid()
      reads this`emptyFlags, this`elementsCompletelyDequeued, this`elements, this`done
    {
      && |elements| == |emptyFlags| == size
      && (forall o :: o in done ==> o < size)
      && (UsesFlags() ==> forall o: nat {:trigger o in done} :: o < size ==> (emptyFlags[size - 1 - o] <==> o in done))
      && (!UsesFlags() ==> elementsCompletelyDequeued == |done|)
    }

    /** A block with raw storage; its emptiness state is whatever was left in it. */
    constructor (size: nat)
      ensures this.size == size && Valid() && elements == seq(size, _ => Raw)
    {
      this.size := size;
      this.emptyFlags := seq(size, _ => false);
      this.elements := seq(size, _ => Raw);
      this.elementsCompletelyDequeued := 0;
      this.next := null;
      this.done := {};
    }

    /** `is_empty`: all flags, or the counter at the block size. */
    method IsEmpty() returns (empty: bool)
      requires Valid()
      ensures empty <==> forall o: nat :: o < size ==> o in done
    {
      if UsesFlags() {
        var i := 0;
        while i < size
          invariant 0 <= i <= size
          invariant forall j :: 0 <= j < i ==> emptyFlags[j]
        {
          if !emptyFlags[i] {
            assert size - 1 - i !in done;
            return false;
          }
          i := i + 1;
        }
        forall o: nat | o < size ensures o in done {
          assert emptyFlags[size - 1 - o];
        }
        return true;
      }
      AllWhenFull(done, size);
      return elementsCompletelyDequeued == size;
    }

    /** One read of `is_empty`'s loop over the flags. */
    method ReadFlag(i: nat) returns (set_: bool)
      requires Valid() && UsesFlags() && i < size
      ensures set_ <==> size - 1 - i in done
    {
      set_ := emptyFlags[i];
    }

    /** `set_empty` */
    method SetEmpty(o: nat)
      requires Valid() && o < size && o !in done
      modifies this`emptyFlags, this`elementsCompletelyDequeued, this`done
      ensures Valid() && done == old(done) + {o}
    {
      if UsesFlags() {
        emptyFlags := emptyFlags[size - 1 - o := true];
      } else {
        elementsCompletelyDequeued := elementsCompletelyDequeued + 1;
      }
      done := done + {o};
    }

    /** `reset_empty` */
    method ResetEmpty()
      requires Valid()
      modifies this`emptyFlags, this`elementsCompletelyDequeued, this`done
      ensures Valid() && done == {}
    {
      if UsesFlags() {
        var i := 0;
        while i < size
          invariant 0 <= i <= size == |emptyFlags|
          invariant forall j :: 0 <= j < i ==> !emptyFlags[j]
        {
          emptyFlags := emptyFlags[i := false];
          i := i + 1;
        }
      } else {
        elementsCompletelyDequeued := 0;
      }
      done := {};
    }
  }

  /** A set of offsets below `n` has `n` members exactly when it has all of them. */
  lemma {:induction false} AllWhenFull(s: set<nat>, n: nat)
    requires forall o :: o in s ==> o < n
    ensures |s| <= n && (|s| == n <==> forall o: nat :: o < n ==> o in s)
    decreases n
  {
    if n == 0 {
      assert s == {};
    } else {
      var r := s - {n - 1};
      AllWhenFull(r, n - 1);
      assert n - 1 !in s ==> r == s;
      assert forall o: nat :: o < n - 1 ==> (o in r <==> o in s);
      if |s| == n {
        assert forall o: nat :: o < n ==> o == n - 1 || o in r;
      }
    }
  }

  // ----- The block index -----

  datatype Entry<T> = NoEntry | Entry(base: nat, block: Block<T>)

  datatype Header<T> = Header(size: nat, entries: seq<Entry<T>>, front: nat)

  /** How a header is used: its size is a power of two, and the slot of the `k`-th started block is
      `k + shift`, around the ring. */
  datatype View = View(log: nat, shift: int)

  ghost predicate Sized<T>(h: Header<T>, v: View) {
    |h.entries| == h.size == Pow2(v.log) && v.log <= WORD_BITS
  }

  function Slot(size: nat, v: View, k: nat): (s: nat)
    requires size > 0
    ensures s < size
  {
    (k + v.shift) % size
  }

  /** The index tells that the `k`-th started block is `b`. */
  ghost predicate Lists<T>(h: Header<T>, v: View, size: nat, k: nat, b: Block<T>)
    requires Sized(h, v)
  {
    h.entries[Slot(h.size, v, k)] == Entry(At(size, k, 0), b)
  }

  /** `h` lists those of the last `n` started blocks that are before the `k`-th. */
  ghost predicate Covers<T>(h: Header<T>, v: View, size: nat, owner: seq<Block<T>>, n: nat, k: nat) {
    && Sized(h, v) && n <= |owner|
    && forall j: nat {:trigger owner[j]} :: |owner| - n <= j < k && j < |owner| ==> Lists(h, v, size, j, owner[j])
  }

  /** Blocks started less than a whole turn apart have different slots. */
  lemma SlotsDiffer(size: nat, v: View, j: nat, k: nat)
    requires j < k < j + size
    ensures Slot(size, v, j) != Slot(size, v, k)
  {
    if Slot(size, v, j) == Slot(size, v, k) {
      ModSub(k + v.shift, j + v.shift, size);
      DivModSmall(0, size);
      DivModSmall(k - j, size);
    }
  }

  /** Moving the slot of one block by the distance to another gives the other's slot. */
  lemma SlotMoves(size: nat, v: View, j: nat, k: nat)
    requires size > 0
    ensures (Slot(size, v, j) + (k - j)) % size == Slot(size, v, k)
  {
    ModAdd(j + v.shift, k - j, size);
  }

  /** Header `h` with a loaded front slot `f` leads to the block of index `i`: `f` is the slot of a
      block `kf` started no earlier than the one of `i` and less than a turn after it, and both are
      listed. */
  ghost predicate SeesVia<T>(size: nat, owner: seq<Block<T>>, h: Header<T>, v: View, f: nat, i: nat, kf: nat)
    requires size > 0
  {
    var k := Quotient(i, size);
    && Sized(h, v)
    && k <= kf < |owner| && kf - k < h.size
    && f == Slot(h.size, v, kf)
    && Lists(h, v, size, kf, owner[kf])
    && Lists(h, v, size, k, owner[k])
  }

  /** Header `c` with a loaded front slot `f`, that of block `kf`, leads to the block of index `i`. */
  ghost predicate Seen<T>(size: nat, owner: seq<Block<T>>, hs: seq<Header<T>>, vs: seq<View>, c: nat, f: nat, i: nat,
      kf: nat) {
    size > 0 && c < |hs| == |vs| && SeesVia(size, owner, hs[c], vs[c], f, i, kf)
  }

  /** Header `c` leads to the block of `i` with the front slot it has now. */
  ghost predicate SeenNow<T>(size: nat, owner: seq<Block<T>>, hs: seq<Header<T>>, vs: seq<View>, c: nat, i: nat) {
    c < |hs| && exists kf: nat :: Seen(size, owner, hs, vs, c, hs[c].front, i, kf)
  }

  /** For an index that is not completed, whatever header and front slot a consumer has loaded keeps
      leading to its block, and so does the front slot of a header when it is loaded later. */
  ghost predicate StillSeen<T>(size: nat, owner: seq<Block<T>>, hs: seq<Header<T>>, vs: seq<View>,
                               owner': seq<Block<T>>, hs': seq<Header<T>>, vs': seq<View>, completed: set<nat>)
  {
    && (forall c: nat, f: nat, i: nat, kf: nat {:trigger Seen(size, owner', hs', vs', c, f, i, kf)} ::
          i !in completed && Seen(size, owner, hs, vs, c, f, i, kf) ==> Seen(size, owner', hs', vs', c, f, i, kf))
    && (forall c: nat, i: nat {:trigger SeenNow(size, owner', hs', vs', c, i)} ::
          i !in completed && SeenNow(size, owner, hs, vs, c, i) ==> SeenNow(size, owner', hs', vs', c, i))
  }

  /** All headers are well formed, and the last is the current one: it lists those of the last `n` starts
      that are before the `k`-th, `front` is the slot of the block before the `k`-th, and the producer's
      next slot is that of the `k`-th. */
  ghost predicate Indexed<T>(hs: seq<Header<T>>, vs: seq<View>, indexSize: nat, indexFront: nat, size: nat,
                             owner: seq<Block<T>>, n: nat, k: nat)
  {
    && |hs| == |vs| && (forall c {:trigger hs[c]} :: 0 <= c < |hs| ==> Sized(hs[c], vs[c]))
    && (hs == [] ==> owner == [] && n == 0 && k == 0 && exists log: nat :: log <= WORD_BITS && indexSize == Pow2(log))
    && (hs != [] ==>
          var h, v := hs[|hs| - 1], vs[|hs| - 1];
          && h.size == indexSize && n <= indexSize && indexFront == Slot(indexSize, v, k)
          && (k > 0 ==> h.front == Slot(indexSize, v, k - 1))
          && Covers(h, v, size, owner, n, k))
  }

  // ----- The ring of blocks -----

  /** The last `n` started blocks are all different. */
  ghost predicate Distinct<T>(owner: seq<Block<T>>, n: nat) {
    && n <= |owner| && (|owner| > 0 ==> n > 0)
    && (forall j: nat, k: nat {:trigger owner[j], owner[k]} :: |owner| - n <= j < k < |owner| ==> owner[j] != owner[k])
  }

  /** They are linked in a circle, the oldest after the newest. */
  ghost predicate Linked<T>(owner: seq<Block<T>>, n: nat)
    reads owner`next
  {
    && n <= |owner|
    && (forall k: nat {:trigger owner[k].next} :: |owner| - n <= k < |owner| - 1 ==> owner[k].next == owner[k + 1])
    && (n > 0 ==> owner[|owner| - 1].next == owner[|owner| - n])
  }

  /** What the place of index `i` holds: the `i`-th element, from its construction until it is taken. */
  function CellOf<T>(enqueued: seq<T>, taken: set<nat>, i: nat): Cell<T> {
    if i < |enqueued| && i !in taken then Holding(enqueued[i]) else Raw
  }

  ghost predicate Cells<T>(elements: seq<Cell<T>>, k: nat, enqueued: seq<T>, taken: set<nat>) {
    forall o: nat {:trigger At(|elements|, k, o)} :: o < |elements| ==>
        elements[o] == CellOf(enqueued, taken, At(|elements|, k, o))
  }

  ghost predicate Marks(done: set<nat>, size: nat, k: nat, completed: set<nat>) {
    forall o: nat {:trigger At(size, k, o)} :: o < size ==> (o in done <==> At(size, k, o) in completed)
  }

  /** Block `b`, started as the `k`-th, holds its elements and knows which are completely dequeued. */
  ghost predicate Holds<T>(b: Block<T>, k: nat, enqueued: seq<T>, taken: set<nat>, completed: set<nat>)
    reads b`emptyFlags, b`elementsCompletelyDequeued, b`elements, b`done
  {
    b.Valid() && Cells(b.elements, k, enqueued, taken) && Marks(b.done, b.size, k, completed)
  }

  /** Every block in the ring holds the elements of its last start. */
  ghost predicate Stored<T>(size: nat, owner: seq<Block<T>>, n: nat, enqueued: seq<T>, taken: set<nat>,
      completed: set<nat>)
    reads owner`emptyFlags, owner`elementsCompletelyDequeued, owner`elements, owner`done
  {
    n <= |owner| && forall k: nat {:trigger owner[k]} :: |owner| - n <= k < |owner| ==>
      owner[k].size == size && Holds(owner[k], k, enqueued, taken, completed)
  }

  /** All elements of the blocks started before the `k`-th are completely dequeued. */
  ghost predicate Gone(size: nat, completed: set<nat>, k: nat) {
    forall i: nat {:trigger i in completed} :: i < At(size, k, 0) ==> i in completed
  }

  // ----- The producer -----

  /** Where the producer is between its accesses to what consumers see or write: outside a block start, or looking
      whether the oldest block is empty with some flags read, or with that decided, or with the block taken, its entry
      written, or the front moved to it and no element published. */
  datatype Phase = Outside | Looking(read: nat) | Looked(empty: bool) | Started | Entered | Fronted

  class ExplicitProducer<T> {
    const blockSize: nat
    const limit: Option<nat>
    ghost const blockLog: nat

    var tailIndex: nat
    var headIndex: nat
    var tailBlock: Block?<T>
    var slotsUsed: nat
    var indexSize: nat
    var indexFront: nat

    /** Every index ever published, each linked to the one before; `blockIndex` points to the last. */
    var headers: seq<Header<T>>

    /** The block of every start so far, the elements enqueued so far, and the indices whose elements were
        taken out and whose places were marked empty. */
    ghost var owner: seq<Block<T>>
    ghost var enqueued: seq<T>
    ghost var taken: set<nat>
    ghost var completed: set<nat>
    ghost var views: seq<View>

    ghost predicate Counts()
      reads this`owner, this`enqueued, this`tailIndex, this`headIndex, this`taken, this`completed
    {
      && blockSize == Pow2(blockLog) > 1
      && (limit.Some? ==> limit.value == 0 || limit.value >= blockSize)
      && |enqueued| == tailIndex
      && headIndex <= tailIndex <= At(blockSize, |owner|, 0)
      && (|owner| > 0 ==> At(blockSize, |owner| - 1, 0) <= tailIndex)
      && (forall i {:trigger i in taken} :: i in taken ==> i < headIndex)
      && (forall i {:trigger i in completed} :: i in completed ==> i in taken)
    }

    /** The blocks: a ring of `slotsUsed`, each with the elements of its last start; nothing is left in
        the blocks that were reused. */
    ghost predicate Blocks()
      reads this`owner, this`enqueued, this`tailIndex, this`headIndex, this`taken, this`completed, this`tailBlock
      reads this`slotsUsed, owner
    {
      && Counts()
      && Distinct(owner, slotsUsed) && Linked(owner, slotsUsed)
      && tailBlock == (if |owner| > 0 then owner[|owner| - 1] else null)
      && Stored(blockSize, owner, slotsUsed, enqueued, taken, completed)
      && Gone(blockSize, completed, |owner| - slotsUsed)
    }

    ghost predicate Index(k: nat)
      reads this`headers, this`views, this`indexSize, this`indexFront, this`owner, this`slotsUsed
    {
      Indexed(headers, views, indexSize, indexFront, blockSize, owner, slotsUsed, k)
    }

    /** How far the index has followed the producer. */
    ghost predicate Covered(phase: Phase)
      reads this`headers, this`views, this`indexSize, this`indexFront, this`owner, this`slotsUsed, this`tailIndex
    {
      match phase
      case Outside => Settled()
      case Looking(n) => Settled() && AtEnd() && |owner| > 0 && n < blockSize
      case Looked(_) => Settled() && AtEnd()
      case Started => Lagging()
      case Entered => Lagging() && ListsLast(headers, views, blockSize, owner)
      case Fronted => |owner| > 0 && Index(|owner|) && tailIndex == At(blockSize, |owner| - 1, 0)
    }

    /** No block was taken without an element in it, and the index covers them all. */
    ghost predicate Settled()
      reads this`headers, this`views, this`indexSize, this`indexFront, this`owner, this`slotsUsed, this`tailIndex
    {
      Index(|owner|) && (|owner| > 0 ==> At(blockSize, |owner| - 1, 0) < tailIndex)
    }

    /** The blocks are full. */
    ghost predicate AtEnd()
      reads this`owner, this`tailIndex
    {
      tailIndex == At(blockSize, |owner|, 0)
    }

    /** The first `n` flags of the oldest block, which are those of its last places, are up. */
    ghost predicate Read(n: nat)
      reads this`owner, this`slotsUsed, this`completed
    {
      slotsUsed <= |owner| && forall o: nat {:trigger At(blockSize, |owner| - slotsUsed, o)} ::
        blockSize - n <= o < blockSize ==> At(blockSize, |owner| - slotsUsed, o) in completed
    }

    /** What the producer has found out about the oldest block. */
    ghost predicate Known(phase: Phase)
      reads this`owner, this`slotsUsed, this`completed
    {
      match phase
      case Looking(n) => Read(n)
      case Looked(empty) => empty ==> OldestCompleted()
      case _ => true
    }

    /** A block was taken that the index does not tell of yet. */
    ghost predicate Lagging()
      reads this`headers, this`views, this`indexSize, this`indexFront, this`owner, this`slotsUsed, this`tailIndex
    {
      |owner| > 0 && headers != [] && Index(|owner| - 1) && tailIndex == At(blockSize, |owner| - 1, 0)
    }

    /** The producer's storage is in order, in whatever phase it is. */
    ghost predicate InOrder(phase: Phase)
      reads this, owner
    {
      Blocks() && Covered(phase) && Known(phase)
    }

    ghost predicate Valid()
      reads this, owner
    {
      InOrder(Outside)
    }

    /** What every call keeps for the others: histories only grow, and every way a consumer may be on to
        the block of an index stays open until the index is completed. */
    twostate predicate Steady()
      reads this
    {
      && old(owner) <= owner && old(enqueued) <= enqueued
      && old(taken) <= taken && old(completed) <= completed && old(headIndex) <= headIndex
      && StillSeen(blockSize, old(owner), old(headers), old(views), owner, headers, views, completed)
    }

    /** A block from the free list: raw, of the right size, and not one of this producer's. */
    ghost predicate Usable(b: Block<T>)
      reads this`owner, b`emptyFlags, b`elementsCompletelyDequeued, b`elements, b`done
    {
      b.Valid() && b.size == blockSize && b !in owner && forall o {:trigger b.elements[o]} :: 0 <= o < b.size ==>
          b.elements[o] == Raw
    }

    /** All elements of the oldest block in the ring are completely dequeued. */
    ghost predicate OldestCompleted()
      reads this`owner, this`slotsUsed, this`completed
    {
      0 < slotsUsed <= |owner| && forall o: nat {:trigger At(blockSize, |owner| - slotsUsed, o)} ::
        o < blockSize ==> At(blockSize, |owner| - slotsUsed, o) in completed
    }

    ghost predicate AtLimit()
      reads this
    {
      headIndex >= tailIndex + blockSize
      || (limit.Some? && (limit.value == 0 || limit.value - blockSize < tailIndex - headIndex))
    }

    // ----- Enqueue -----

    ghost function Oldest(): Block<T>
      requires 0 < slotsUsed <= |owner|
      reads this
    {
      owner[|owner| - slotsUsed]
    }

    lemma OldestIsFree()
      requires Blocks() && OldestCompleted()
      ensures tailBlock != null && tailBlock.next == Oldest() && Oldest().Valid() && Oldest().size == blockSize
      ensures forall o {:trigger Oldest().elements[o]} :: 0 <= o < blockSize ==> Oldest().elements[o] == Raw
      ensures forall j: nat {:trigger owner[j]} :: |owner| - slotsUsed < j < |owner| ==> owner[j] != Oldest()
      ensures Gone(blockSize, completed, |owner| + 1 - slotsUsed)
    {
      var k := |owner| - slotsUsed;
      var b := owner[k];
      assert b.size == blockSize && Holds(b, k, enqueued, taken, completed);
      assert tailBlock == owner[|owner| - 1];
      CompletedIsRaw(b, k, enqueued, taken, completed);
      GoneNext(blockSize, completed, k);
    }

    lemma CountsNext()
      requires Counts() && tailIndex == At(blockSize, |owner|, 0)
      ensures tailIndex <= At(blockSize, |owner| + 1, 0)
      ensures forall i {:trigger i in completed} :: i in completed ==> i < |enqueued|
    {
      AtOrder(blockSize, |owner|, |owner| + 1);
    }

    /** Resets block `b` to be started next: it and the `n - 1` blocks before it hold what they should. */
    method ResetNext(b: Block<T>, ghost n: nat)
      requires Counts() && tailIndex == At(blockSize, |owner|, 0) && 0 < n <= |owner| + 1
      requires b.Valid() && b.size == blockSize && forall o {:trigger b.elements[o]} :: 0 <= o < b.size ==>
        b.elements[o] == Raw
      requires forall k: nat {:trigger owner[k]} :: |owner| + 1 - n <= k < |owner| ==>
        owner[k] != b && owner[k].size == blockSize && Holds(owner[k], k, enqueued, taken, completed)
      modifies b`emptyFlags, b`elementsCompletelyDequeued, b`done
      ensures Stored(blockSize, owner + [b], n, enqueued, taken, completed)
    {
      hide Holds, At, CellOf;
      CountsNext();
      b.ResetEmpty();
      NewHolds(b, |owner|, enqueued, taken, completed);
      StoredNext(blockSize, owner, b, n, enqueued, taken, completed);
    }

    /** Takes the empty block after the tail block as the new tail block. */
    method Reuse()
      requires Blocks() && OldestCompleted() && tailIndex == At(blockSize, |owner|, 0)
      modifies this`tailBlock, this`owner
      modifies Oldest()`emptyFlags, Oldest()`elementsCompletelyDequeued, Oldest()`done
      ensures Blocks() && owner == old(owner + [Oldest()])
    {
      hide Gone, Holds, Linked, Distinct, At, CellOf;
      OldestIsFree();
      CountsNext();
      ghost var b := Oldest();
      RingReuse(owner, slotsUsed);
      ResetNext(tailBlock.next, slotsUsed);
      hide Stored;
      tailBlock := tailBlock.next;
      owner := owner + [b];
    }

    /** Links a new block between the tail block and the oldest. */
    method Splice(newBlock: Block<T>)
      requires Distinct(owner, slotsUsed) && Linked(owner, slotsUsed) && newBlock !in owner
      requires tailBlock == (if |owner| > 0 then owner[|owner| - 1] else null)
      modifies this`tailBlock, newBlock`next, (if tailBlock == null then {} else {tailBlock})`next
      ensures Distinct(owner + [newBlock], slotsUsed + 1) && Linked(owner + [newBlock], slotsUsed + 1)
      ensures tailBlock == newBlock
    {
      if tailBlock == null {
        newBlock.next := newBlock;
      } else {
        newBlock.next := tailBlock.next;
        tailBlock.next := newBlock;
      }
      tailBlock := newBlock;
      RingGrows(owner, newBlock, slotsUsed);
    }

    lemma OthersHold(b: Block<T>)
      requires Blocks() && Usable(b)
      ensures b.Valid() && b.size == blockSize && forall o {:trigger b.elements[o]} :: 0 <= o < b.size ==>
        b.elements[o] == Raw
      ensures forall k: nat {:trigger owner[k]} :: |owner| - slotsUsed <= k < |owner| ==>
        owner[k] != b && owner[k].size == blockSize && Holds(owner[k], k, enqueued, taken, completed)
      ensures slotsUsed <= |owner| && b !in owner
    {
    }

    /** Resets a new block and links it in. */
    method Attach(newBlock: Block<T>)
      requires Blocks() && Usable(newBlock) && tailIndex == At(blockSize, |owner|, 0)
      modifies this`tailBlock, newBlock`emptyFlags, newBlock`elementsCompletelyDequeued, newBlock`done, newBlock`next
      modifies (if tailBlock == null then {} else {tailBlock})`next
      ensures Distinct(owner + [newBlock], slotsUsed + 1) && Linked(owner + [newBlock], slotsUsed + 1)
      ensures Stored(blockSize, owner + [newBlock], slotsUsed + 1, enqueued, taken, completed)
      ensures tailBlock == newBlock
    {
      hide Gone, Holds, Distinct, Linked, At, CellOf, Stored, Block.Valid, Usable, Pow2;
      OthersHold(newBlock);
      ResetNext(newBlock, slotsUsed + 1);
      Splice(newBlock);
    }

    /** Adds a new block, reset, to the ring as the new tail block. */
    method Link(newBlock: Block<T>)
      requires Blocks() && Usable(newBlock) && tailIndex == At(blockSize, |owner|, 0)
      modifies this`tailBlock, this`owner, this`slotsUsed, newBlock`emptyFlags, newBlock`elementsCompletelyDequeued
      modifies newBlock`done, newBlock`next, (if tailBlock == null then {} else {tailBlock})`next
      ensures Blocks() && owner == old(owner) + [newBlock] && slotsUsed == old(slotsUsed) + 1
    {
      hide Gone, Holds, Distinct, Linked, At, CellOf, Stored, Block.Valid, Usable, Pow2;
      CountsNext();
      Attach(newBlock);
      owner := owner + [newBlock];
      slotsUsed := slotsUsed + 1;
    }

    /** The loop of `new_block_index` that copies the used slots, oldest first, to the front of the new
        array. It ends when the old cursor has come round to the next free slot. */
    method CopyEntries(into: seq<Entry<T>>) returns (entries: seq<Entry<T>>)
      requires headers != [] && slotsUsed > 0 && Index(|owner|) && |into| > slotsUsed
      ensures |entries| == |into| && Copied(entries, blockSize, owner, slotsUsed, slotsUsed)
    {
      hide At, Pow2, Masked;
      var from := headers[|headers| - 1];
      ghost var k, n, v := |owner|, slotsUsed, views[|headers| - 1];
      SlotMoves(indexSize, v, k, k - n);
      MaskIsMod(indexFront - slotsUsed, indexSize, v.log);
      entries := into;
      var j := 0;
      var i := Masked(indexFront - slotsUsed, indexSize);
      var more := true;
      while more
        invariant |entries| == |into| && j <= n && Copied(entries, blockSize, owner, n, j)
        invariant more <==> j < n
        invariant i == Slot(indexSize, v, k - n + j)
        decreases n - j
      {
        assert Lists(from, v, blockSize, k - n + j, owner[k - n + j]);
        entries := entries[j := from.entries[i]];
        j := j + 1;
        SlotMoves(indexSize, v, k - n + j - 1, k - n + j);
        MaskIsMod(i + 1, indexSize, v.log);
        i := Masked(i + 1, indexSize);
        if j < n {
          SlotsDiffer(indexSize, v, k - n + j, k);
        }
        more := i != indexFront;
      }
    }

    /** `new_block_index`: an index of twice the size, with the used slots at its front. */
    method NewBlockIndex(alloc: bool) returns (ok: bool)
      requires Index(|owner|) && (|owner| > 0 ==> slotsUsed > 0) && (headers != [] ==> slotsUsed == indexSize)
      requires alloc ==> indexSize < Pow2(WORD_BITS - 1)
      modifies this`headers, this`indexSize, this`indexFront, this`views
      ensures Index(|owner|) && ok == alloc && old(headers) <= headers && old(views) <= views
      ensures ok ==> headers != [] && slotsUsed < indexSize
      ensures !ok ==> headers == old(headers) && indexSize == old(indexSize)
    {
      hide At, Covers, Copied, Pow2;
      IndexedRoom(headers, views, indexSize, indexFront, blockSize, owner, slotsUsed, |owner|);
      if !alloc {
        return false;
      }
      ghost var log := IndexLog();
      LogBelow(log, WORD_BITS - 1);
      Pow2Next(log);
      var entries: seq<Entry<T>> := seq(2 * indexSize, _ => NoEntry);
      var j := 0;
      if slotsUsed != 0 {
        entries := CopyEntries(entries);
        j := slotsUsed;
      }
      indexSize := 2 * indexSize;
      var header := Header(indexSize, entries, if j == 0 then Pow2(WORD_BITS) - 1 else j - 1);
      ghost var v := View(log + 1, slotsUsed - |owner|);
      DoubledCovers(header, v, blockSize, owner, slotsUsed);
      indexFront := j;
      headers := headers + [header];
      views := views + [v];
      ok := true;
    }

    lemma IndexLog() returns (log: nat)
      requires Index(|owner|)
      ensures indexSize == Pow2(log) && log <= WORD_BITS
    {
      if headers == [] {
        log :| log <= WORD_BITS && indexSize == Pow2(log);
      } else {
        assert Sized(headers[|headers| - 1], views[|headers| - 1]);
        log := views[|headers| - 1].log;
      }
    }

    /** Writes the entry of the tail block, in the next slot. */
    method StoreEntry()
      requires InOrder(Started)
      modifies this`headers
      ensures InOrder(Entered)
      ensures StillSeen(blockSize, owner, old(headers), views, owner, headers, views, completed)
    {
      hide At, Pow2, Indexed, StillSeen, Stored, Distinct, Linked, Gone, ListsLast;
      SomeSlots();
      TailIsLast();
      LiveAreRecent();
      EntryIndexed(headers, views, indexSize, indexFront, blockSize, owner, slotsUsed);
      EntryKeeps(headers, views, indexSize, indexFront, blockSize, owner, slotsUsed, completed);
      var c := |headers| - 1;
      headers := headers[c := headers[c].(entries := headers[c].entries[indexFront := Entry(tailIndex, tailBlock)])];
    }

    /** Moves the front to the entry, and the producer's next slot on. */
    method StoreFront()
      requires InOrder(Entered)
      modifies this`headers, this`indexFront
      ensures InOrder(Fronted)
      ensures StillSeen(blockSize, owner, old(headers), views, owner, headers, views, completed)
    {
      hide At, Pow2, Indexed, StillSeen, Stored, Distinct, Linked, Gone, ListsLast;
      SomeSlots();
      LiveAreRecent();
      FrontIndexed(headers, views, indexSize, indexFront, blockSize, owner, slotsUsed);
      FrontKeeps(headers, views, indexSize, indexFront, blockSize, owner, slotsUsed, completed);
      PublishMask(headers, views, indexSize, indexFront, blockSize, owner, slotsUsed);
      var c := |headers| - 1;
      headers := headers[c := headers[c].(front := indexFront)];
      indexFront := Masked(indexFront + 1, indexSize);
    }

    // ----- Enqueue -----

    /** Where the first part of `enqueue` takes its block from: the oldest if that was found empty, else the one the
        free list gave, if there is one, the limit allows it and the index has or gets room. */
    ghost function NextBlock(empty: bool, alloc: bool, newBlock: Block?<T>): (b: Block?<T>)
      requires empty ==> OldestCompleted()
      reads this
      ensures b == null || b == newBlock || b in owner
    {
      if empty then Oldest()
      else if AtLimit() || ((headers == [] || slotsUsed == indexSize) && !alloc) then null
      else newBlock
    }

    lemma OldestIsNext()
      requires Blocks() && tailBlock != null
      ensures 0 < slotsUsed <= |owner| && tailBlock.next == Oldest() && Oldest().Valid()
      ensures OldestCompleted() <==> forall o: nat :: o < Oldest().size ==> o in Oldest().done
    {
      var k := |owner| - slotsUsed;
      assert Holds(owner[k], k, enqueued, taken, completed) && owner[k].size == blockSize;
      forall o: nat | o < blockSize ensures o in owner[k].done <==> At(blockSize, k, o) in completed {
      }
    }

    lemma NoOldest()
      requires Blocks() && tailBlock == null
      ensures !OldestCompleted()
    {
    }

    /** The numbers for which there is a block to go on with, when memory is there: always without a limit; and with
        one, if the oldest block is in use, when the elements there are and a whole block more are within it. */
    lemma AcceptsIff(newBlock: Block<T>)
      requires Counts()
      ensures limit == None ==> NextBlock(OldestCompleted(), true, newBlock) != null
      ensures limit == None ==> NextBlock(false, true, newBlock) != null
      ensures limit.Some? ==>
        (NextBlock(false, true, newBlock) != null
         <==> limit.value >= blockSize && tailIndex - headIndex + blockSize <= limit.value)
    {
    }

    lemma OldestIsSome(alloc: bool, newBlock: Block?<T>)
      ensures OldestCompleted() ==> NextBlock(true, alloc, newBlock) != null
    {
    }

    lemma OldestIsThere()
      requires OldestCompleted()
      ensures 0 < slotsUsed <= |owner|
    {
    }

    lemma SomeSlots()
      requires Blocks()
      ensures blockSize > 0 && slotsUsed <= |owner| && (|owner| > 0 ==> slotsUsed > 0)
    {
    }

    /** Sees to a free slot in the index for a new block. */
    method MakeRoom(alloc: bool) returns (ok: bool)
      requires Index(|owner|) && (|owner| > 0 ==> slotsUsed > 0)
      requires alloc ==> indexSize < Pow2(WORD_BITS - 1)
      modifies this`headers, this`indexSize, this`indexFront, this`views
      ensures Index(|owner|) && old(headers) <= headers && old(views) <= views
      ensures ok <==> old(headers != [] && slotsUsed < indexSize) || alloc
      ensures ok ==> headers != [] && slotsUsed < indexSize
    {
      hide Covers, Pow2, Sized, Slot;
      IndexedRoom(headers, views, indexSize, indexFront, blockSize, owner, slotsUsed, |owner|);
      ok := true;
      if headers == [] || slotsUsed == indexSize {
        ok := NewBlockIndex(alloc);
      }
    }

    lemma InCountsOf()
      requires Blocks()
      ensures Counts()
    {
    }

    /** The branch of `enqueue` that adds a new block. */
    method AddBlock(alloc: bool, newBlock: Block?<T>) returns (ok: bool)
      requires Blocks() && Index(|owner|) && tailIndex == At(blockSize, |owner|, 0)
      requires newBlock != null ==> Usable(newBlock)
      requires alloc ==> indexSize < Pow2(WORD_BITS - 1)
      modifies this`tailBlock, this`owner, this`slotsUsed, this`headers, this`indexSize, this`indexFront, this`views
      modifies newBlock, (if tailBlock == null then {} else {tailBlock})`next
      ensures Blocks() && old(headers) <= headers && old(views) <= views
      ensures ok <==> !old(AtLimit()) && (old(headers != [] && slotsUsed < indexSize) || alloc) && newBlock != null
      ensures limit == None && alloc && newBlock != null ==> ok
      ensures limit.Some? && alloc && newBlock != null ==>
        (ok <==> limit.value >= blockSize && old(tailIndex - headIndex) + blockSize <= limit.value)
      ensures ok ==> owner == old(owner) + [newBlock] && Index(|owner| - 1) && headers != []
      ensures !ok ==> owner == old(owner) && Index(|owner|)
    {
      hide Blocks, Indexed, Pow2, At, Usable;
      SomeSlots();
      InCountsOf();
      if headIndex >= tailIndex + blockSize
         || (limit.Some? && (limit.value == 0 || limit.value - blockSize < tailIndex - headIndex)) {
        return false;
      }
      var room := MakeRoom(alloc);
      if !room || newBlock == null {
        return false;
      }
      IndexedLags(headers, views, indexSize, indexFront, blockSize, owner, slotsUsed, newBlock, slotsUsed + 1);
      Link(newBlock);
      ok := true;
    }

    /** Starts to look at the oldest block, if there is one. */
    method StartLook() returns (phase: Phase)
      requires Valid() && And(tailIndex, blockSize - 1) == 0
      ensures InOrder(phase) && (phase == Looking(0) || (phase == Looked(false) && !OldestCompleted()))
    {
      hide Pow2, At, Blocks, Indexed, OldestCompleted;
      AtBoundary();
      SomeSlots();
      TailIsLast();
      if tailBlock == null {
        NoOldest();
        return Looked(false);
      }
      phase := Looking(0);
    }

    /** One read of the oldest block's flags, or of its counter. Flags only rise, so that those read before are still
        up, and the answer that ends the loop is right at that moment whatever consumers did meanwhile. */
    method Look(n: nat) returns (phase: Phase)
      requires InOrder(Looking(n))
      ensures InOrder(phase) && (phase == Looking(n + 1) || phase == Looked(OldestCompleted()))
    {
      hide Pow2, At, Blocks, Indexed;
      SomeSlots();
      TailIsLast();
      OldestIsNext();
      FlagsMean();
      if !tailBlock.next.UsesFlags() {
        var empty := tailBlock.next.IsEmpty();
        return Looked(empty);
      }
      var up := tailBlock.next.ReadFlag(n);
      phase := if !up then Looked(false) else if n + 1 == blockSize then Looked(true) else Looking(n + 1);
    }

    lemma FlagsMean()
      requires Blocks() && 0 < slotsUsed <= |owner|
      ensures Oldest().size == blockSize
      ensures forall o: nat {:trigger o in Oldest().done} {:trigger At(blockSize, |owner| - slotsUsed, o)} ::
        o < blockSize ==> (o in Oldest().done <==> At(blockSize, |owner| - slotsUsed, o) in completed)
    {
      var k := |owner| - slotsUsed;
      assert Holds(owner[k], k, enqueued, taken, completed) && owner[k].size == blockSize;
    }

    /** Finds the block to fill next. `alloc` says whether a new index can be allocated, `newBlock` is what
        the free list or the allocator would give. */
    method TakeBlock(empty: bool, alloc: bool, newBlock: Block?<T>) returns (ok: bool)
      requires Blocks() && Index(|owner|) && tailIndex == At(blockSize, |owner|, 0)
      requires empty ==> OldestCompleted()
      requires newBlock != null ==> Usable(newBlock)
      requires alloc ==> indexSize < Pow2(WORD_BITS - 1)
      modifies this`tailBlock, this`owner, this`slotsUsed, this`headers, this`indexSize, this`indexFront, this`views
      modifies owner, newBlock
      ensures Blocks() && old(headers) <= headers && old(views) <= views
      ensures ok <==> old(NextBlock(empty, alloc, newBlock)) != null
      ensures owner == if ok then old(owner) + [old(NextBlock(empty, alloc, newBlock))] else old(owner)
      ensures if ok then Index(|owner| - 1) && headers != [] else Index(|owner|)
      ensures StillSeen(blockSize, old(owner), old(headers), old(views), owner, headers, views, completed)
    {
      hide Pow2, At, Blocks, OldestCompleted, Indexed, StillSeen;
      SomeSlots();
      IndexedRoom(headers, views, indexSize, indexFront, blockSize, owner, slotsUsed, |owner|);
      if empty {
        OldestIsThere();
        IndexedLags(headers, views, indexSize, indexFront, blockSize, owner, slotsUsed, Oldest(), slotsUsed);
        Reuse();
        IndexedLengths(headers, views, indexSize, indexFront, blockSize, owner, slotsUsed, |owner| - 1);
        StartKeeps(blockSize, old(owner), owner, headers, views, headers, views, completed);
        return true;
      }
      TailIsLast();
      ok := AddBlock(alloc, newBlock);
      IndexedLengths(headers, views, indexSize, indexFront, blockSize, owner, slotsUsed,
          if ok then |owner| - 1 else |owner|);
      StartKeeps(blockSize, old(owner), owner, old(headers), old(views), headers, views, completed);
    }

    /** The part of `enqueue` at a block boundary, up to the new tail block. */
    method BeginBlock(empty: bool, alloc: bool, newBlock: Block?<T>) returns (ok: bool)
      requires InOrder(Looked(empty))
      requires newBlock != null ==> Usable(newBlock)
      requires alloc ==> indexSize < Pow2(WORD_BITS - 1)
      modifies this`tailBlock, this`owner, this`slotsUsed, this`headers, this`indexSize, this`indexFront, this`views
      modifies owner, newBlock
      ensures InOrder(if ok then Started else Outside) && Steady()
      ensures ok <==> old(NextBlock(empty, alloc, newBlock)) != null
      ensures empty || (limit == None && alloc && newBlock != null) ==> ok
      ensures !empty && limit.Some? && alloc && newBlock != null ==>
        (ok <==> limit.value >= blockSize && tailIndex - headIndex + blockSize <= limit.value)
      ensures owner == if ok then old(owner) + [old(NextBlock(empty, alloc, newBlock))] else old(owner)
    {
      hide Pow2, At, Blocks, NextBlock, Indexed, StillSeen, Usable, OldestCompleted;
      InCounts(Looked(empty));
      if newBlock != null {
        AcceptsIff(newBlock);
      }
      OldestIsSome(alloc, newBlock);
      ok := TakeBlock(empty, alloc, newBlock);
    }

    lemma LookEnds(n: nat)
      requires InOrder(Looking(n))
      ensures n < blockSize
    {
    }

    /** The look at the oldest block when no consumer does anything meanwhile. */
    method LookThrough() returns (empty: bool)
      requires Valid() && And(tailIndex, blockSize - 1) == 0
      ensures InOrder(Looked(empty)) && empty == OldestCompleted()
    {
      hide InOrder, OldestCompleted;
      var look := StartLook();
      while look.Looking?
        invariant InOrder(look) && (look.Looking? || look == Looked(OldestCompleted()))
        decreases if look.Looking? then blockSize + 1 - look.read else 0
      {
        LookEnds(look.read);
        look := Look(look.read);
      }
      empty := look.empty;
    }

    /** All of it: the look at the oldest block, the block, the entry, and then the front. */
    method StartBlock(alloc: bool, newBlock: Block?<T>) returns (ok: bool)
      requires Valid() && And(tailIndex, blockSize - 1) == 0
      requires newBlock != null ==> Usable(newBlock)
      requires alloc ==> indexSize < Pow2(WORD_BITS - 1)
      modifies this`tailBlock, this`owner, this`slotsUsed, this`headers, this`indexSize, this`indexFront, this`views
      modifies owner, newBlock
      ensures InOrder(if ok then Fronted else Outside) && Steady()
      ensures ok <==> old(NextBlock(OldestCompleted(), alloc, newBlock)) != null
      ensures owner == if ok then old(owner) + [old(NextBlock(OldestCompleted(), alloc, newBlock))] else old(owner)
    {
      hide Pow2, At, Blocks, NextBlock, Covered, StillSeen, Usable, OldestCompleted;
      var empty := LookThrough();
      ok := BeginBlock(empty, alloc, newBlock);
      if ok {
        ghost var h1, v1 := headers, views;
        StoreEntry();
        SeenThen(blockSize, old(owner), old(headers), old(views), owner, h1, v1, owner, headers, v1, completed,
            completed);
        ghost var h2 := headers;
        StoreFront();
        SeenThen(blockSize, old(owner), old(headers), old(views), owner, h2, v1, owner, headers, v1, completed,
            completed);
      }
    }

    /** An index that is not completed belongs to a block in the ring. */
    lemma LiveAreRecent()
      requires Blocks()
      ensures blockSize > 0 && slotsUsed <= |owner| && Recent(blockSize, completed, |owner| - slotsUsed)
    {
      forall i: nat | i !in completed ensures i / blockSize >= |owner| - slotsUsed {
        AtBelow(blockSize, i, |owner| - slotsUsed);
      }
    }

    lemma TailIsLast()
      requires Blocks()
      ensures tailBlock == if |owner| > 0 then owner[|owner| - 1] else null
    {
    }

    /** Where the next element goes. */
    lemma TailPlace() returns (o: nat)
      requires Blocks() && |owner| > 0 && tailIndex < At(blockSize, |owner|, 0)
      ensures tailBlock == owner[|owner| - 1] && tailBlock.size == blockSize && o < blockSize
      ensures tailBlock.Valid() && Cells(tailBlock.elements, |owner| - 1, enqueued, taken)
      ensures At(blockSize, |owner| - 1, o) == tailIndex && And(tailIndex, blockSize - 1) == o
      ensures Marks(tailBlock.done, blockSize, |owner| - 1, completed) && tailIndex !in taken && |enqueued| == tailIndex
    {
      var k := |owner| - 1;
      assert owner[k].size == blockSize;
      o := tailIndex - At(blockSize, k, 0);
      AtNext(blockSize, k, o);
      AtNext(blockSize, k, blockSize);
      AtParts(blockSize, k, o);
      AndOnes(tailIndex, blockLog);
    }

    /** The blocks before the tail block do not change by another element. */
    lemma FullBlocks(x: T)
      requires Blocks() && |owner| > 0
      ensures forall k: nat {:trigger owner[k]} :: |owner| - slotsUsed <= k < |owner| - 1 ==>
        owner[k] != owner[|owner| - 1] && owner[k].size == blockSize &&
            Holds(owner[k], k, enqueued + [x], taken, completed)
    {
      forall k: nat | |owner| - slotsUsed <= k < |owner| - 1
        ensures Cells(owner[k].elements, k, enqueued + [x], taken)
      {
        assert owner[k].size == blockSize && |owner[k].elements| == blockSize;
        AtNext(blockSize, k, 0);
        AtOrder(blockSize, k + 1, |owner| - 1);
        CellsMore(owner[k].elements, k, enqueued, x, taken);
      }
    }

    method PutInPlace(x: T)
      requires Blocks() && |owner| > 0 && tailIndex < At(blockSize, |owner|, 0)
      modifies this`tailIndex, this`enqueued, tailBlock`elements
      ensures Blocks() && enqueued == old(enqueued) + [x] && tailIndex == old(tailIndex) + 1
    {
      hide Pow2, At, Gone, Distinct, Linked, Cells, Marks, Stored;
      SomeSlots();
      ghost var o := TailPlace();
      FullBlocks(x);
      CellsPut(tailBlock.elements, |owner| - 1, enqueued, x, taken, o);
      tailBlock.elements := tailBlock.elements[And(tailIndex, blockSize - 1) := Holding(x)];
      enqueued := enqueued + [x];
      tailIndex := tailIndex + 1;
      StoredAt(|owner| - 1);
    }

    /** The last part of `enqueue`: constructs the element in the tail block and publishes it. */
    method Construct(x: T, ghost phase: Phase)
      requires InOrder(phase) && (phase.Fronted? || (phase.Outside? && And(tailIndex, blockSize - 1) != 0))
      modifies this`tailIndex, this`enqueued, tailBlock`elements
      ensures Valid() && enqueued == old(enqueued) + [x]
    {
      hide Blocks, At, Indexed;
      HasRoom(phase);
      PutInPlace(x);
    }

    lemma HasRoom(phase: Phase)
      requires InOrder(phase) && (phase.Fronted? || (phase.Outside? && And(tailIndex, blockSize - 1) != 0))
      ensures Index(|owner|) && |owner| > 0 && At(blockSize, |owner| - 1, 0) <= tailIndex < At(blockSize, |owner|, 0)
    {
      Sizes();
      if phase.Outside? {
        AtBoundary();
      }
    }

    lemma InCounts(phase: Phase)
      requires InOrder(phase)
      ensures Counts() && blockSize > 0
    {
    }

    lemma HasTail(phase: Phase)
      requires InOrder(phase) && (phase.Fronted? || (phase.Outside? && And(tailIndex, blockSize - 1) != 0))
      ensures |owner| > 0 && tailBlock == owner[|owner| - 1]
    {
      HasRoom(phase);
    }

    /** The tail index is at a block boundary exactly when the blocks started so far are full. */
    lemma AtBoundary()
      requires Valid()
      ensures (And(tailIndex, blockSize - 1) == 0) == (tailIndex == At(blockSize, |owner|, 0))
      ensures tailIndex != At(blockSize, |owner|, 0) ==> |owner| > 0 && tailIndex < At(blockSize, |owner|, 0)
    {
      AndOnes(tailIndex, blockLog);
      if tailIndex == At(blockSize, |owner|, 0) {
        AtParts(blockSize, |owner|, 0);
      } else if |owner| > 0 {
        var k := |owner| - 1;
        var o := tailIndex - At(blockSize, k, 0);
        AtNext(blockSize, k, o);
        AtNext(blockSize, k, blockSize);
        AtParts(blockSize, k, o);
      }
    }

    /** `enqueue` of one element. */
    method Enqueue(x: T, alloc: bool, newBlock: Block?<T>) returns (ok: bool)
      requires Valid()
      requires newBlock != null ==> Usable(newBlock)
      requires alloc ==> indexSize < Pow2(WORD_BITS - 1)
      modifies this`tailBlock, this`owner, this`slotsUsed, this`headers, this`indexSize, this`indexFront, this`views
      modifies this`tailIndex, this`enqueued, owner, newBlock
      ensures Valid() && Steady()
      ensures enqueued == if ok then old(enqueued) + [x] else old(enqueued)
      ensures ok <==> old(And(tailIndex, blockSize - 1) != 0 || NextBlock(OldestCompleted(), alloc, newBlock) != null)
      ensures old(And(tailIndex, blockSize - 1) != 0 || OldestCompleted()) ==> ok
      ensures limit == None && alloc && newBlock != null ==> ok
      ensures
        limit.Some? && alloc && newBlock != null && old(And(tailIndex, blockSize - 1) == 0 && !OldestCompleted()) ==>
        (ok <==> limit.value >= blockSize && old(tailIndex - headIndex) + blockSize <= limit.value)
      ensures owner ==
        if ok && old(And(tailIndex, blockSize - 1) == 0)
        then old(owner) + [old(NextBlock(OldestCompleted(), alloc, newBlock))]
        else old(owner)
    {
      hide Blocks, At, Covered, NextBlock, StillSeen, Pow2, Usable, OldestCompleted;
      ghost var phase := Outside;
      SomeSlots();
      InCounts(phase);
      if newBlock != null {
        AcceptsIff(newBlock);
      }
      OldestIsSome(alloc, newBlock);
      if And(tailIndex, blockSize - 1) == 0 {
        ok := StartBlock(alloc, newBlock);
        if !ok {
          return;
        }
        phase := Fronted;
      } else {
        NothingChanges();
      }
      HasTail(phase);
      Construct(x, phase);
      ok := true;
    }

    lemma NothingChanges()
      ensures StillSeen(blockSize, owner, headers, views, owner, headers, views, completed)
    {
    }

    lemma Sizes()
      requires Blocks() && Index(|owner|)
      ensures |headers| == |views| && blockSize > 0 && |enqueued| == tailIndex
      ensures |owner| > 0 ==> tailBlock == owner[|owner| - 1]
      ensures |owner| > 0 ==> At(blockSize, |owner| - 1, 0) < At(blockSize, |owner|, 0)
    {
      if |owner| > 0 {
        AtNext(blockSize, |owner| - 1, blockSize);
        AtNext(blockSize, |owner| - 1, 0);
      }
    }

    // ----- Dequeue -----

    /** The claim: `headIndex` counts up. The dequeue protocol guarantees that the index was published. */
    method Claim(ghost phase: Phase) returns (i: nat)
      requires InOrder(phase) && headIndex < tailIndex
      modifies this`headIndex
      ensures InOrder(phase) && Steady()
      ensures i == old(headIndex) && headIndex == i + 1 && i < tailIndex && i !in taken
    {
      hide Stored, Distinct, Linked, Gone, Covered, At, StillSeen;
      NothingChanges();
      i := headIndex;
      headIndex := headIndex + 1;
    }

    /** Loads the pointer to the current index, after an element was published and before it is completed. */
    method LoadIndex(ghost i: nat, ghost phase: Phase) returns (c: nat)
      requires InOrder(phase) && i < tailIndex && i !in completed
      ensures SeenNow(blockSize, owner, headers, views, c, i)
    {
      hide At, Pow2, Indexed, Stored, Distinct, Linked, Gone, Seen;
      LiveAreRecent();
      ghost var k := if phase.Started? || phase.Entered? then |owner| - 1 else |owner|;
      AtBelow(blockSize, i, k);
      FrontSees(headers, views, indexSize, indexFront, blockSize, owner, slotsUsed, k, i);
      c := |headers| - 1;
    }

    /** Loads the front slot of an index. */
    method LoadFront(c: nat, ghost i: nat) returns (f: nat, ghost kf: nat)
      requires SeenNow(blockSize, owner, headers, views, c, i)
      ensures Seen(blockSize, owner, headers, views, c, f, i, kf)
    {
      f := headers[c].front;
      kf :| Seen(blockSize, owner, headers, views, c, headers[c].front, i, kf);
    }

    /** Reads the base of the front slot loaded before: it is still that of the same block. */
    method ReadBase(c: nat, f: nat, ghost i: nat, ghost kf: nat) returns (base: nat)
      requires Seen(blockSize, owner, headers, views, c, f, i, kf)
      ensures base == At(blockSize, kf, 0)
    {
      base := headers[c].entries[f].base;
    }

    /** Computes the slot of the block of `i` from the front slot and its base, and reads the block: it is
        the very block that index `i` was enqueued into. */
    method ReadBlock(c: nat, f: nat, base: nat, i: nat, ghost kf: nat) returns (b: Block<T>)
      requires Counts() && Seen(blockSize, owner, headers, views, c, f, i, kf) && base == At(blockSize, kf, 0)
      ensures IsBlockOf(b, i)
    {
      hide At, Pow2, Slot;
      ghost var v := views[c];
      var size := headers[c].size;
      AndOnes(i, blockLog);
      SlotFound(size, v, blockSize, f, i, kf);
      var blockBase := i - And(i, blockSize - 1);
      var offset := (blockBase - base) / blockSize;
      var slot := Masked(f + offset, size);
      b := headers[c].entries[slot].block;
    }

    /** `b` is the very block that index `i` was enqueued into. */
    ghost predicate IsBlockOf(b: Block<T>, i: nat)
      reads this`owner
    {
      blockSize > 0 && i / blockSize < |owner| && b == owner[i / blockSize]
    }

    /** Where index `i`, claimed and not completed, has its place. */
    lemma ElementPlace(i: nat) returns (k: nat, o: nat)
      requires Blocks() && i < headIndex && i !in completed
      ensures k == i / blockSize && o == And(i, blockSize - 1) < blockSize && At(blockSize, k, o) == i
      ensures |owner| - slotsUsed <= k < |owner| && owner[k].size == blockSize && owner[k].Valid()
      ensures Cells(owner[k].elements, k, enqueued, taken) && Marks(owner[k].done, blockSize, k, completed)
    {
      LiveAreRecent();
      AtBelow(blockSize, i, |owner|);
      AndOnes(i, blockLog);
      AtWhole(blockSize, i);
      k, o := i / blockSize, i % blockSize;
      assert owner[k].size == blockSize;
    }

    /** The other blocks do not notice what happens to index `i`. */
    lemma OtherBlocks(i: nat, taken': set<nat>, completed': set<nat>)
      requires Blocks() && |owner| - slotsUsed <= i / blockSize < |owner|
      requires taken' - {i} == taken - {i} && completed' - {i} == completed - {i}
      ensures forall k: nat {:trigger owner[k]} :: |owner| - slotsUsed <= k < |owner| && k != i / blockSize ==>
        owner[k] != owner[i / blockSize] && owner[k].size == blockSize &&
            Holds(owner[k], k, enqueued, taken', completed')
    {
      forall k: nat | |owner| - slotsUsed <= k < |owner| && k != i / blockSize
        ensures Cells(owner[k].elements, k, enqueued, taken') && Marks(owner[k].done, blockSize, k, completed')
      {
        assert owner[k].size == blockSize && owner[i / blockSize].size == blockSize && |owner[k].elements| == blockSize;
        CellsOther(owner[k].elements, k, enqueued, taken, taken', i);
        MarksOther(owner[k].done, blockSize, k, completed, completed', i);
      }
    }

    /** Moves the element of a claimed index out of its block and destroys it there. */
    method Take(b: Block<T>, i: nat, ghost phase: Phase) returns (x: T)
      requires InOrder(phase) && i < headIndex && i !in taken
      requires IsBlockOf(b, i)
      modifies b`elements, this`taken
      ensures InOrder(phase) && Steady() && x == enqueued[i] && taken == old(taken) + {i}
    {
      hide At, Gone, Distinct, Linked, Covered, Cells, Marks, StillSeen;
      NothingChanges();
      NotCompleted(i);
      ghost var k, o := ElementPlace(i);
      OtherBlocks(i, taken + {i}, completed);
      CellsTake(b.elements, k, enqueued, taken, o);
      var at := And(i, blockSize - 1);
      x := b.elements[at].value;
      b.elements := b.elements[at := Raw];
      taken := taken + {i};
      StoredAt(i / blockSize);
    }

    lemma NotCompleted(i: nat)
      requires Counts() && i !in taken
      ensures i !in completed
    {
    }

    lemma StoredAt(n: nat)
      requires slotsUsed <= |owner| && |owner| - slotsUsed <= n < |owner|
      requires owner[n].size == blockSize && Holds(owner[n], n, enqueued, taken, completed)
      requires forall k: nat {:trigger owner[k]} :: |owner| - slotsUsed <= k < |owner| && k != n ==>
        owner[k].size == blockSize && Holds(owner[k], k, enqueued, taken, completed)
      ensures Stored(blockSize, owner, slotsUsed, enqueued, taken, completed)
    {
    }

    method MarkPlace(b: Block<T>, i: nat)
      requires Blocks() && i in taken && i !in completed && IsBlockOf(b, i)
      modifies b`emptyFlags, b`elementsCompletelyDequeued, b`done, this`completed
      ensures Blocks() && completed == old(completed) + {i}
    {
      hide At, Gone, Distinct, Linked, Cells, Marks, Stored, Block.Valid, Block.UsesFlags;
      SomeSlots();
      ghost var k, o := ElementPlace(i);
      OtherBlocks(i, taken, completed + {i});
      MarksAdd(b.done, blockSize, k, completed, o);
      GoneMore(blockSize, completed, i, |owner| - slotsUsed);
      b.SetEmpty(And(i, blockSize - 1));
      completed := completed + {i};
      StoredAt(i / blockSize);
    }

    /** Marks the place of a taken element empty, the last thing a consumer does with it. */
    method Finish(b: Block<T>, i: nat, ghost phase: Phase)
      requires InOrder(phase) && i in taken && i !in completed
      requires IsBlockOf(b, i)
      modifies b`emptyFlags, b`elementsCompletelyDequeued, b`done, this`completed
      ensures InOrder(phase) && Steady() && completed == old(completed) + {i}
    {
      hide Blocks, Covered, StillSeen;
      MarkPlace(b, i);
      NothingChanges();
    }

    /** A block is started again only after all elements of its earlier start were completely dequeued. */
    lemma ReusedWereCompleted(j: nat, k: nat, i: nat)
      requires Valid() && j < k < |owner| && owner[j] == owner[k] && i / blockSize == j
      ensures i in completed
    {
      var from := |owner| - slotsUsed;
      AtBelow(blockSize, i, from);
    }

    /** An empty producer; the first index may or may not have been allocated. */
    constructor (blockSize: nat, ghost blockLog: nat, limit: Option<nat>, initialIndexSize: nat, ghost indexLog: nat,
        alloc: bool)
      requires blockSize == Pow2(blockLog) > 1 && (limit.Some? ==> limit.value == 0 || limit.value >= blockSize)
      requires initialIndexSize == Pow2(indexLog) && indexLog < WORD_BITS - 1
      ensures Valid() && this.blockSize == blockSize && this.limit == limit && enqueued == [] && headIndex == 0
      ensures owner == [] && taken == completed == {}
    {
      this.blockSize, this.blockLog, this.limit := blockSize, blockLog, limit;
      tailIndex, headIndex, tailBlock, slotsUsed, indexSize, indexFront := 0, 0, null, 0, initialIndexSize, 0;
      headers, views, owner, enqueued, taken, completed := [], [], [], [], {}, {};
      new;
      hide Pow2;
      AtNext(blockSize, 0, 0);
      Pow2Increasing(indexLog, WORD_BITS - 1);
      var made := NewBlockIndex(alloc);
    }
  }

  lemma IndexedRoom<T>(hs: seq<Header<T>>, vs: seq<View>, indexSize: nat, indexFront: nat, size: nat,
                       owner: seq<Block<T>>, n: nat, k: nat)
    requires Indexed(hs, vs, indexSize, indexFront, size, owner, n, k)
    ensures n <= |owner| && (hs != [] ==> n <= indexSize) && (hs == [] ==> owner == [] && n == 0)
  {
  }

  /** After a block was started, the index still covers the starts before it. */
  lemma IndexedLags<T>(hs: seq<Header<T>>, vs: seq<View>, indexSize: nat, indexFront: nat, size: nat,
                       owner: seq<Block<T>>, n: nat, b: Block<T>, n': nat)
    requires hs != [] && Indexed(hs, vs, indexSize, indexFront, size, owner, n, |owner|)
    requires n' <= n + 1 && n' <= indexSize
    ensures Indexed(hs, vs, indexSize, indexFront, size, owner + [b], n', |owner|)
  {
    hide Slot, Sized, Lists, At;
    var h, v := hs[|hs| - 1], vs[|hs| - 1];
    var next := owner + [b];
    assert Sized(h, v);
    forall j: nat | |next| - n' <= j < |owner| ensures Lists(h, v, size, j, next[j]) {
      assert next[j] == owner[j];
    }
  }

  /** The current header tells of the last started block. */
  ghost predicate ListsLast<T>(hs: seq<Header<T>>, vs: seq<View>, size: nat, owner: seq<Block<T>>) {
    && 0 < |hs| == |vs| && |owner| > 0 && Sized(hs[|hs| - 1], vs[|hs| - 1])
    && Lists(hs[|hs| - 1], vs[|hs| - 1], size, |owner| - 1, owner[|owner| - 1])
  }

  /** The last header with entry `e` put at slot `f`. */
  function PutEntry<T>(hs: seq<Header<T>>, f: nat, e: Entry<T>): (r: seq<Header<T>>)
    requires hs != [] && f < |hs[|hs| - 1].entries|
    ensures |r| == |hs|
  {
    hs[|hs| - 1 := hs[|hs| - 1].(entries := hs[|hs| - 1].entries[f := e])]
  }

  /** The last header with front `f`. */
  function PutFront<T>(hs: seq<Header<T>>, f: nat): (r: seq<Header<T>>)
    requires hs != []
    ensures |r| == |hs|
  {
    hs[|hs| - 1 := hs[|hs| - 1].(front := f)]
  }

  lemma PublishMask<T>(hs: seq<Header<T>>, vs: seq<View>, indexSize: nat, indexFront: nat, size: nat,
                       owner: seq<Block<T>>, n: nat)
    requires |owner| > 0 && hs != [] && Indexed(hs, vs, indexSize, indexFront, size, owner, n, |owner| - 1)
    ensures indexSize > 0 && indexFront < indexSize == |hs[|hs| - 1].entries|
    ensures Masked(indexFront + 1, indexSize) == Slot(indexSize, vs[|hs| - 1], |owner|)
  {
    hide Pow2, Slot, Masked;
    var v := vs[|hs| - 1];
    assert Sized(hs[|hs| - 1], v);
    MaskIsMod(indexFront + 1, indexSize, v.log);
    SlotMoves(indexSize, v, |owner| - 1, |owner|);
  }

  /** The index with the new entry still tells of the blocks before it, and of the new one. */
  lemma EntryIndexed<T>(hs: seq<Header<T>>, vs: seq<View>, indexSize: nat, indexFront: nat, size: nat,
                        owner: seq<Block<T>>, n: nat)
    requires 0 < n <= |owner| && hs != [] && Indexed(hs, vs, indexSize, indexFront, size, owner, n, |owner| - 1)
    ensures indexFront < |hs[|hs| - 1].entries|
    ensures
      var hs' := PutEntry(hs, indexFront, Entry(At(size, |owner| - 1, 0), owner[|owner| - 1]));
      ListsLast(hs', vs, size, owner) && Indexed(hs', vs, indexSize, indexFront, size, owner, n, |owner| - 1)
  {
    hide Pow2, Slot, At;
    var k := |owner| - 1;
    var h, v := hs[|hs| - 1], vs[|hs| - 1];
    assert Sized(h, v);
    var hs' := PutEntry(hs, indexFront, Entry(At(size, k, 0), owner[k]));
    var h' := hs'[|hs| - 1];
    forall j: nat | |owner| - n <= j < k ensures Lists(h', v, size, j, owner[j]) {
      SlotsDiffer(indexSize, v, j, k);
      assert Lists(h, v, size, j, owner[j]);
    }
  }

  /** Moving the front to it makes it the newest of the index. */
  lemma FrontIndexed<T>(hs: seq<Header<T>>, vs: seq<View>, indexSize: nat, indexFront: nat, size: nat,
                        owner: seq<Block<T>>, n: nat)
    requires 0 < n <= |owner| && hs != [] && Indexed(hs, vs, indexSize, indexFront, size, owner, n, |owner| - 1)
    requires ListsLast(hs, vs, size, owner)
    ensures indexSize > 0
    ensures Indexed(PutFront(hs, indexFront), vs, indexSize, Slot(indexSize, vs[|hs| - 1], |owner|), size, owner, n,
      |owner|)
  {
    hide Pow2, Slot, At;
    var h, v := hs[|hs| - 1], vs[|hs| - 1];
    var hs' := PutFront(hs, indexFront);
    var h' := hs'[|hs| - 1];
    assert Sized(h, v) && Sized(h', v);
    forall j: nat | |owner| - n <= j < |owner| ensures Lists(h', v, size, j, owner[j]) {
      if j < |owner| - 1 {
        assert Lists(h, v, size, j, owner[j]);
      }
    }
  }

  /** Entering the last started block leaves every way to a block of the ring as it was. */
  lemma EntrySees<T>(hs: seq<Header<T>>, vs: seq<View>, indexSize: nat, indexFront: nat, size: nat,
                     owner: seq<Block<T>>, n: nat, c: nat, f: nat, i: nat, kf: nat)
    requires 0 < n <= |owner| && hs != [] && Indexed(hs, vs, indexSize, indexFront, size, owner, n, |owner| - 1)
    requires c < |hs| && size > 0 && i / size >= |owner| - n && SeesVia(size, owner, hs[c], vs[c], f, i, kf)
    ensures indexFront < |hs[|hs| - 1].entries|
    ensures SeesVia(size, owner, PutEntry(hs, indexFront, Entry(At(size, |owner| - 1, 0), owner[|owner| - 1]))[c],
      vs[c], f, i, kf)
  {
    hide Pow2, Slot, At;
    var k := |owner| - 1;
    var h, v := hs[c], vs[c];
    assert Sized(h, v) && Sized(hs[|hs| - 1], vs[|hs| - 1]);
    if c == |hs| - 1 {
      if i / size < k {
        SlotsDiffer(indexSize, v, i / size, k);
      }
      if kf < k {
        SlotsDiffer(indexSize, v, kf, k);
      }
    }
  }

  ghost predicate Recent(size: nat, completed: set<nat>, from: nat)
    requires size > 0
  {
    forall i: nat {:trigger i in completed} :: i !in completed ==> i / size >= from
  }

  lemma EntryKeeps<T>(hs: seq<Header<T>>, vs: seq<View>, indexSize: nat, indexFront: nat, size: nat,
                      owner: seq<Block<T>>, n: nat, completed: set<nat>)
    requires 0 < n <= |owner| && hs != [] && Indexed(hs, vs, indexSize, indexFront, size, owner, n, |owner| - 1)
    requires size > 0 && Recent(size, completed, |owner| - n)
    ensures indexFront < |hs[|hs| - 1].entries|
    ensures StillSeen(size, owner, hs, vs, owner,
                      PutEntry(hs, indexFront, Entry(At(size, |owner| - 1, 0), owner[|owner| - 1])), vs, completed)
  {
    hide At, Pow2, SeesVia, Indexed, Slot;
    PublishMask(hs, vs, indexSize, indexFront, size, owner, n);
    var hs' := PutEntry(hs, indexFront, Entry(At(size, |owner| - 1, 0), owner[|owner| - 1]));
    IndexedLengths(hs, vs, indexSize, indexFront, size, owner, n, |owner| - 1);
    forall c: nat, f: nat, i: nat, kf: nat | i !in completed && Seen(size, owner, hs, vs, c, f, i, kf)
      ensures Seen(size, owner, hs', vs, c, f, i, kf)
    {
      EntrySees(hs, vs, indexSize, indexFront, size, owner, n, c, f, i, kf);
    }
    forall c: nat, i: nat | i !in completed && SeenNow(size, owner, hs, vs, c, i)
      ensures SeenNow(size, owner, hs', vs, c, i)
    {
      var kf: nat :| Seen(size, owner, hs, vs, c, hs[c].front, i, kf);
      assert Seen(size, owner, hs', vs, c, hs'[c].front, i, kf);
    }
  }

  /** The ways do not depend on the front, and the new front is on the way to every block of the ring. */
  lemma FrontKeeps<T>(hs: seq<Header<T>>, vs: seq<View>, indexSize: nat, indexFront: nat, size: nat,
                      owner: seq<Block<T>>, n: nat, completed: set<nat>)
    requires 0 < n <= |owner| && hs != [] && Indexed(hs, vs, indexSize, indexFront, size, owner, n, |owner| - 1)
    requires ListsLast(hs, vs, size, owner) && size > 0 && Recent(size, completed, |owner| - n)
    ensures StillSeen(size, owner, hs, vs, owner, PutFront(hs, indexFront), vs, completed)
  {
    hide At, Pow2, Slot, Covers, Sized;
    var hs' := PutFront(hs, indexFront);
    forall c: nat, f: nat, i: nat, kf: nat | i !in completed && Seen(size, owner, hs, vs, c, f, i, kf)
      ensures Seen(size, owner, hs', vs, c, f, i, kf)
    {
      SizedFront(hs[c], hs'[c], vs[c]);
    }
    forall c: nat, i: nat | i !in completed && SeenNow(size, owner, hs, vs, c, i)
      ensures SeenNow(size, owner, hs', vs, c, i)
    {
      var kf: nat :| Seen(size, owner, hs, vs, c, hs[c].front, i, kf);
      SizedFront(hs[c], hs'[c], vs[c]);
      assert Seen(size, owner, hs', vs, c, hs'[c].front, i, if c == |hs| - 1 then |owner| - 1 else kf);
    }
  }

  lemma SizedFront<T>(h: Header<T>, h': Header<T>, v: View)
    requires h' == h.(front := h'.front)
    ensures Sized(h', v) <==> Sized(h, v)
  {
  }

  /** A block more, and headers more, leave the ways as they were. */
  lemma StartKeeps<T>(size: nat, owner: seq<Block<T>>, owner': seq<Block<T>>, hs0: seq<Header<T>>, vs0: seq<View>,
                      hs: seq<Header<T>>, vs: seq<View>, completed: set<nat>)
    requires owner <= owner' && hs0 <= hs && vs0 <= vs && |hs| == |vs|
    ensures StillSeen(size, owner, hs0, vs0, owner', hs, vs, completed)
  {
    hide SeesVia;
    forall c: nat, f: nat, i: nat, kf: nat | i !in completed && Seen(size, owner, hs0, vs0, c, f, i, kf)
      ensures Seen(size, owner', hs, vs, c, f, i, kf)
    {
      SeesMore(size, owner, owner', hs0[c], vs0[c], f, i, kf);
    }
    forall c: nat, i: nat | i !in completed && SeenNow(size, owner, hs0, vs0, c, i)
      ensures SeenNow(size, owner', hs, vs, c, i)
    {
      var kf: nat :| Seen(size, owner, hs0, vs0, c, hs0[c].front, i, kf);
      assert Seen(size, owner', hs, vs, c, hs[c].front, i, kf);
    }
  }

  lemma SeesMore<T>(size: nat, owner: seq<Block<T>>, owner': seq<Block<T>>, h: Header<T>, v: View, f: nat, i: nat,
      kf: nat)
    requires size > 0 && owner <= owner' && SeesVia(size, owner, h, v, f, i, kf)
    ensures SeesVia(size, owner', h, v, f, i, kf)
  {
  }

  /** Ways that stay open over one part of a run and over the next stay open over both. */
  lemma SeenThen<T>(size: nat, o0: seq<Block<T>>, h0: seq<Header<T>>, v0: seq<View>,
                    o1: seq<Block<T>>, h1: seq<Header<T>>, v1: seq<View>, o2: seq<Block<T>>, h2: seq<Header<T>>,
                    v2: seq<View>, done1: set<nat>, done2: set<nat>)
    requires StillSeen(size, o0, h0, v0, o1, h1, v1, done1) && StillSeen(size, o1, h1, v1, o2, h2, v2, done2)
    requires done1 <= done2
    ensures StillSeen(size, o0, h0, v0, o2, h2, v2, done2)
  {
    hide Seen, SeenNow;
  }

  /** With the front of the current header every index of the blocks it covers is found. */
  lemma FrontSees<T>(hs: seq<Header<T>>, vs: seq<View>, indexSize: nat, indexFront: nat, size: nat,
                     owner: seq<Block<T>>, n: nat, k: nat, i: nat)
    requires Indexed(hs, vs, indexSize, indexFront, size, owner, n, k) && n <= |owner| && k <= |owner| && size > 0
    requires |owner| - n <= i / size < k
    ensures hs != [] && SeenNow(size, owner, hs, vs, |hs| - 1, i)
  {
    hide At, Pow2, Slot;
    var c := |hs| - 1;
    assert Sized(hs[c], vs[c]);
    CoversAt(hs[c], vs[c], size, owner, n, k, i / size);
    CoversAt(hs[c], vs[c], size, owner, n, k, k - 1);
    assert Seen(size, owner, hs, vs, c, hs[c].front, i, k - 1);
  }

  lemma IndexedLengths<T>(hs: seq<Header<T>>, vs: seq<View>, indexSize: nat, indexFront: nat, size: nat,
                          owner: seq<Block<T>>, n: nat, k: nat)
    requires Indexed(hs, vs, indexSize, indexFront, size, owner, n, k)
    ensures |hs| == |vs|
  {
  }

  lemma CellsMore<T>(elements: seq<Cell<T>>, k: nat, enqueued: seq<T>, x: T, taken: set<nat>)
    requires Cells(elements, k, enqueued, taken) && At(|elements|, k + 1, 0) <= |enqueued|
    ensures Cells(elements, k, enqueued + [x], taken)
  {
    forall o: nat | o < |elements|
      ensures elements[o] == CellOf(enqueued + [x], taken, At(|elements|, k, o))
    {
      AtNext(|elements|, k, o);
      AtNext(|elements|, k, |elements|);
    }
  }

  /** Constructing the next element in its place. */
  lemma CellsPut<T>(elements: seq<Cell<T>>, k: nat, enqueued: seq<T>, x: T, taken: set<nat>, o: nat)
    requires Cells(elements, k, enqueued, taken) && o < |elements|
    requires At(|elements|, k, o) == |enqueued| && |enqueued| !in taken
    ensures Cells(elements[o := Holding(x)], k, enqueued + [x], taken)
  {
    var next := elements[o := Holding(x)];
    forall p: nat | p < |next| ensures next[p] == CellOf(enqueued + [x], taken, At(|next|, k, p)) {
      AtNext(|elements|, k, o);
      AtNext(|elements|, k, p);
      assert p != o ==> next[p] == CellOf(enqueued, taken, At(|elements|, k, p));
    }
  }

  /** How many blocks the block of `i` is after the one with this base. */
  function BlocksApart(i: nat, base: nat, size: nat): int
    requires size > 0
  {
    (i - i % size - base) / size
  }

  lemma SlotFound(size: nat, v: View, blockSize: nat, f: nat, i: nat, kf: nat)
    requires blockSize > 0 && size == Pow2(v.log) && v.log <= WORD_BITS && f == Slot(size, v, kf)
    ensures Masked(f + BlocksApart(i, At(blockSize, kf, 0), blockSize), size) == Slot(size, v, Quotient(i, blockSize))
  {
    hide At, Pow2, Slot, Masked, BlocksApart;
    OffsetIs(blockSize, i, kf);
    SlotMoves(size, v, kf, Quotient(i, blockSize));
    MaskIsMod(f + (Quotient(i, blockSize) - kf), size, v.log);
  }

  lemma CoversAt<T>(h: Header<T>, v: View, size: nat, owner: seq<Block<T>>, n: nat, k: nat, j: nat)
    requires Covers(h, v, size, owner, n, k) && |owner| - n <= j < k <= |owner|
    ensures Sized(h, v) && Lists(h, v, size, j, owner[j])
  {
  }

  /** A number that fits a signed machine word. */
  predicate FitsSigned(d: int) {
    0 - Pow2(WORD_BITS - 1) <= d < Pow2(WORD_BITS - 1)
  }

  /** The distance from the base of block `kf` to that of the block of `i`. */
  function Distance(i: nat, kf: nat, size: nat): int
    requires size > 0
  {
    (Quotient(i, size) - kf) * size
  }

  /** A machine word as a signed number. */
  function Signed(x: int): int {
    if x < Pow2(WORD_BITS - 1) then x else x - Pow2(WORD_BITS)
  }

  /** Division that rounds toward zero. */
  function Truncated(x: int, d: nat): int
    requires d > 0
  {
    if x >= 0 then x / d else -(-x / d)
  }

  /** How many blocks the block of `i` is after the one whose base is in the front slot, from the wrapped indices. */
  function BlocksAfter(i: nat, base: nat, blockSize: nat): int
    requires blockSize > 0
  {
    var word := i % Pow2(WORD_BITS);
    Truncated(Signed((word - And(word, blockSize - 1) - base % Pow2(WORD_BITS)) % Pow2(WORD_BITS)), blockSize)
  }

  lemma BlocksAfterIs(i: nat, kf: nat, blockSize: nat, log: nat)
    requires blockSize == Pow2(log) && log <= WORD_BITS && FitsSigned(Distance(i, kf, blockSize))
    ensures BlocksAfter(i, At(blockSize, kf, 0), blockSize) == Quotient(i, blockSize) - kf
  {
    hide Pow2, At, Signed, Truncated, FitsSigned;
    BlockDistance(blockSize, log, i, kf);
    SignedIs(Distance(i, kf, blockSize));
    TruncatedIs(Quotient(i, blockSize) - kf, blockSize);
  }

  /** The slot computed from wrapped indices, with the signed distance of their blocks, is the right one while that
      distance fits a signed word. */
  lemma SlotOnWords(size: nat, v: View, blockSize: nat, log: nat, f: nat, i: nat, kf: nat)
    requires size == Pow2(v.log) && v.log <= WORD_BITS && f == Slot(size, v, kf)
    requires blockSize == Pow2(log) && log <= WORD_BITS && FitsSigned(Distance(i, kf, blockSize))
    ensures Masked(f + BlocksAfter(i, At(blockSize, kf, 0), blockSize), size) == Slot(size, v, Quotient(i, blockSize))
  {
    hide Slot, Pow2, BlocksAfter, Masked, Distance, FitsSigned;
    BlocksAfterIs(i, kf, blockSize, log);
    SlotMoves(size, v, kf, Quotient(i, blockSize));
    MaskIsMod(f + (Quotient(i, blockSize) - kf), size, v.log);
  }

  lemma BlockDistance(blockSize: nat, log: nat, i: nat, kf: nat)
    requires blockSize == Pow2(log) && log <= WORD_BITS
    ensures
      var word, base := i % Pow2(WORD_BITS), At(blockSize, kf, 0) % Pow2(WORD_BITS);
      (word - And(word, blockSize - 1) - base) % Pow2(WORD_BITS) == Distance(i, kf, blockSize) % Pow2(WORD_BITS)
  {
    hide Pow2;
    var w := Pow2(WORD_BITS);
    var word, r := i % w, i % blockSize;
    var k := Pow2Divides(log, WORD_BITS);
    AndOnes(word, log);
    ModMod(i, k, blockSize);
    ModAdd(i, -r, w);
    ModSub(word - r, At(blockSize, kf, 0), w);
    ModSub(i - r, At(blockSize, kf, 0), w);
    WordParts(word - r, At(blockSize, kf, 0), i - r, w);
    AtWhole(blockSize, i);
    assert (i / blockSize - kf) * blockSize == (i / blockSize) * blockSize - kf * blockSize;
  }

  lemma WordParts(x: int, b: int, y: int, w: nat)
    requires w > 0 && x % w == y % w
    ensures (x - b % w) % w == (y - b) % w
  {
    ModAdd(x, -(b % w), w);
    ModAdd(y, -(b % w), w);
    ModSub(y, b, w);
    ModSub(y, b % w, w);
    DivModSmall(b % w, w);
  }

  lemma SignedIs(d: int)
    requires FitsSigned(d)
    ensures Signed(d % Pow2(WORD_BITS)) == d
  {
    Pow2Next(WORD_BITS - 1);
    if d >= 0 {
      DivModSmall(d, Pow2(WORD_BITS));
    } else {
      DivModUnique(d, -1, d + Pow2(WORD_BITS), Pow2(WORD_BITS));
    }
  }

  lemma TruncatedIs(q: int, d: nat)
    requires d > 0
    ensures Truncated(q * d, d) == q
  {
    if q >= 0 {
      DivModUnique(q * d, q, 0, d);
    } else {
      MulBelow(q, d);
      DivModUnique(-q * d, -q, 0, d);
      assert -(q * d) == -q * d;
    }
  }

  /** The division of the distance between two block bases is exact. */
  lemma OffsetIs(size: nat, i: nat, kf: nat)
    requires size > 0
    ensures BlocksApart(i, At(size, kf, 0), size) == Quotient(i, size) - kf
  {
    var q := i / size;
    AtWhole(size, i);
    assert (q - kf) * size == q * size - kf * size;
    DivModUnique((i - i % size) - At(size, kf, 0), q - kf, 0, size);
  }

  lemma CellsOther<T>(elements: seq<Cell<T>>, k: nat, enqueued: seq<T>, taken: set<nat>, taken': set<nat>, i: nat)
    requires Cells(elements, k, enqueued, taken) && |elements| > 0 && i / |elements| != k && taken' - {i} == taken - {i}
    ensures Cells(elements, k, enqueued, taken')
  {
    forall o: nat | o < |elements| ensures elements[o] == CellOf(enqueued, taken', At(|elements|, k, o)) {
      AtParts(|elements|, k, o);
      var p := At(|elements|, k, o);
      assert p in taken' - {i} <==> p in taken - {i};
    }
  }

  lemma MarksOther(done: set<nat>, size: nat, k: nat, completed: set<nat>, completed': set<nat>, i: nat)
    requires Marks(done, size, k, completed) && size > 0 && i / size != k && completed' - {i} == completed - {i}
    ensures Marks(done, size, k, completed')
  {
    forall o: nat | o < size ensures o in done <==> At(size, k, o) in completed' {
      AtParts(size, k, o);
      var p := At(size, k, o);
      assert p in completed' - {i} <==> p in completed - {i};
    }
  }

  /** Taking the element at offset `o` out of its place. */
  lemma CellsTake<T>(elements: seq<Cell<T>>, k: nat, enqueued: seq<T>, taken: set<nat>, o: nat)
    requires Cells(elements, k, enqueued, taken) && o < |elements|
    requires At(|elements|, k, o) < |enqueued| && At(|elements|, k, o) !in taken
    ensures elements[o] == Holding(enqueued[At(|elements|, k, o)])
    ensures Cells(elements[o := Raw], k, enqueued, taken + {At(|elements|, k, o)})
  {
    var i := At(|elements|, k, o);
    var next := elements[o := Raw];
    forall p: nat | p < |next| ensures next[p] == CellOf(enqueued, taken + {i}, At(|next|, k, p)) {
      AtNext(|elements|, k, o);
      AtNext(|elements|, k, p);
      assert p != o ==> next[p] == CellOf(enqueued, taken, At(|elements|, k, p));
    }
  }

  lemma MarksAdd(done: set<nat>, size: nat, k: nat, completed: set<nat>, o: nat)
    requires Marks(done, size, k, completed) && o < size
    ensures o in done <==> At(size, k, o) in completed
    ensures Marks(done + {o}, size, k, completed + {At(size, k, o)})
  {
    forall p: nat | p < size ensures p in done + {o} <==> At(size, k, p) in completed + {At(size, k, o)} {
      AtNext(size, k, o);
      AtNext(size, k, p);
    }
  }

  lemma GoneMore(size: nat, completed: set<nat>, i: nat, k: nat)
    requires Gone(size, completed, k)
    ensures Gone(size, completed + {i}, k)
  {
  }

  lemma Pow2Next(n: nat)
    ensures Pow2(n + 1) == 2 * Pow2(n)
  {
  }

  /** Slot `t` of the new array lists the `t`-th of the last `n` starts, for the first `j` of them. */
  ghost predicate Copied<T>(entries: seq<Entry<T>>, size: nat, owner: seq<Block<T>>, n: nat, j: nat) {
    && j <= n <= |owner| && n <= |entries|
    && forall t: nat {:trigger entries[t]} :: t < j ==>
        entries[t] == Entry(At(size, |owner| - n + t, 0), owner[|owner| - n + t])
  }

  lemma DoubledCovers<T>(h: Header<T>, v: View, size: nat, owner: seq<Block<T>>, n: nat)
    requires Sized(h, v) && n < h.size && n <= |owner| && v.shift == n - |owner|
    requires n > 0 ==> Copied(h.entries, size, owner, n, n)
    ensures Covers(h, v, size, owner, n, |owner|)
    ensures Slot(h.size, v, |owner|) == n && (n > 0 ==> Slot(h.size, v, |owner| - 1) == n - 1)
  {
    hide At;
    DivModSmall(n, h.size);
    if n > 0 {
      DivModSmall(n - 1, h.size);
    }
    forall j: nat | |owner| - n <= j < |owner| ensures Lists(h, v, size, j, owner[j]) {
      var t := j - (|owner| - n);
      DivModSmall(t, h.size);
      assert h.entries[t] == Entry(At(size, j, 0), owner[j]);
    }
  }

  lemma LogBelow(a: nat, b: nat)
    requires Pow2(a) < Pow2(b)
    ensures a < b
  {
    if a >= b {
      var k := Pow2Divides(b, a);
      MulAtLeast(k, Pow2(b));
    }
  }

  lemma CompletedIsRaw<T>(b: Block<T>, k: nat, enqueued: seq<T>, taken: set<nat>, completed: set<nat>)
    requires Holds(b, k, enqueued, taken, completed) && completed <= taken
    requires forall o: nat {:trigger At(b.size, k, o)} :: o < b.size ==> At(b.size, k, o) in completed
    ensures forall o {:trigger b.elements[o]} :: 0 <= o < b.size ==> b.elements[o] == Raw
  {
    forall o | 0 <= o < b.size ensures b.elements[o] == Raw {
      assert At(b.size, k, o) in completed;
    }
  }

  /** A raw, reset block holds what a block holds that is started at the tail. */
  lemma NewHolds<T>(b: Block<T>, k: nat, enqueued: seq<T>, taken: set<nat>, completed: set<nat>)
    requires b.Valid() && b.done == {} && |enqueued| <= At(b.size, k, 0)
    requires forall o {:trigger b.elements[o]} :: 0 <= o < b.size ==> b.elements[o] == Raw
    requires forall i {:trigger i in completed} :: i in completed ==> i < |enqueued|
    ensures Holds(b, k, enqueued, taken, completed)
  {
    forall o: nat | o < b.size
      ensures b.elements[o] == CellOf(enqueued, taken, At(b.size, k, o)) && At(b.size, k, o) !in completed
    {
      AtNext(b.size, k, o);
    }
  }

  lemma RingReuse<T>(owner: seq<Block<T>>, n: nat)
    requires Distinct(owner, n) && Linked(owner, n) && n > 0
    ensures Distinct(owner + [owner[|owner| - n]], n) && Linked(owner + [owner[|owner| - n]], n)
  {
    var k := |owner|;
    var b := owner[k - n];
    var next := owner + [b];
    assert next[k] == b && forall j: nat {:trigger next[j]} :: j < k ==> next[j] == owner[j];
    forall j: nat | k + 1 - n <= j < k ensures next[j].next == next[j + 1] {
      assert owner[j].next == if j < k - 1 then owner[j + 1] else b;
    }
    assert n > 1 ==> b.next == owner[k - n + 1];
    assert n == 1 ==> b.next == b;
  }

  lemma RingGrows<T>(owner: seq<Block<T>>, b: Block<T>, n: nat)
    requires Distinct(owner, n) && b !in owner
    requires forall k: nat {:trigger owner[k].next} :: |owner| - n <= k < |owner| - 1 ==> owner[k].next == owner[k + 1]
    requires b.next == if n == 0 then b else owner[|owner| - n]
    requires n > 0 ==> owner[|owner| - 1].next == b
    ensures Distinct(owner + [b], n + 1) && Linked(owner + [b], n + 1)
  {
    var k := |owner|;
    var next := owner + [b];
    assert next[k] == b && forall j: nat {:trigger next[j]} :: j < k ==> next[j] == owner[j];
    forall j: nat | k - n <= j < k ensures next[j].next == next[j + 1] {
      assert owner[j].next == if j < k - 1 then owner[j + 1] else b;
    }
  }

  lemma StoredNext<T>(size: nat, owner: seq<Block<T>>, b: Block<T>, n: nat, enqueued: seq<T>, taken: set<nat>,
                      completed: set<nat>)
    requires n <= |owner| + 1 && b.size == size && Holds(b, |owner|, enqueued, taken, completed)
    requires forall k: nat {:trigger owner[k]} :: |owner| + 1 - n <= k < |owner| ==>
      owner[k].size == size && Holds(owner[k], k, enqueued, taken, completed)
    ensures Stored(size, owner + [b], n, enqueued, taken, completed)
  {
  }

  lemma GoneNext(size: nat, completed: set<nat>, k: nat)
    requires size > 0 && Gone(size, completed, k)
    requires forall o: nat {:trigger At(size, k, o)} :: o < size ==> At(size, k, o) in completed
    ensures Gone(size, completed, k + 1)
  {
    forall i: nat | i < At(size, k + 1, 0) ensures i in completed {
      if i >= At(size, k, 0) {
        var o := i - At(size, k, 0);
        AtNext(size, k, o);
        AtNext(size, k, size);
      }
    }
  }
}
