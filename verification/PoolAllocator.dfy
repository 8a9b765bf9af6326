/** The memory pool: blocks are cut off the front chunk one after another, a block that was cut last grows
    in place, and nothing is given back before `Clear`. Addresses and sizes are 64-bit words. */
module PoolAllocator {
  import opened Options

  const WORD: int := 0x1_0000_0000_0000_0000
  const HEADER: nat := 24

  type Byte = bv8

  /** A chunk: its header takes the `HEADER` bytes before the buffer. */
  datatype Chunk = Chunk(buffer: nat, capacity: nat, size: nat)

  /** A block handed out: its address and its aligned size. */
  datatype Block = Block(at: nat, size: nat)

  // ----- Words -----

  function Wrap(x: int): (w: nat)
    ensures w < WORD
  {
    x % WORD
  }

  lemma WrapSmall(x: nat)
    ensures x < WORD ==> Wrap(x) == x
  {
  }

  /** `RAPIDJSON_ALIGN` */
  function Align(x: nat): (a: nat)
    ensures a % 8 == 0 && a < WORD
  {
    var y := Wrap(x + 7);
    y - y % 8
  }

  lemma AlignIs(x: nat)
    requires x + 7 < WORD
    ensures x <= Align(x) < x + 8 && (x % 8 == 0 ==> Align(x) == x)
  {
  }

  /** The largest numbers are rounded to nothing. */
  lemma AlignHuge(x: nat)
    requires WORD - 8 < x < WORD
    ensures Align(x) == 0
  {
  }

  // ----- What a pool in order is -----

  predicate Apart(a: int, m: nat, b: int, n: nat) {
    a + m <= b || b + n <= a
  }

  predicate Within(b: Block, c: Chunk) {
    c.buffer <= b.at && b.at + b.size <= c.buffer + c.size
  }

  predicate ChunkOk(c: Chunk) {
    c.buffer >= HEADER && c.size <= c.capacity && c.buffer + c.capacity < WORD && c.buffer % 8 == 0 && c.size % 8 == 0
  }

  /** The chunks lie apart, headers and all. */
  ghost predicate ChunksOk(chunks: seq<Chunk>) {
    && chunks != []
    && (forall i {:trigger chunks[i]} :: 0 <= i < |chunks| ==> ChunkOk(chunks[i]))
    && (forall i, j {:trigger chunks[i], chunks[j]} :: 0 <= i < j < |chunks| ==>
          Apart(chunks[i].buffer - HEADER, HEADER + chunks[i].capacity, chunks[j].buffer - HEADER,
              HEADER + chunks[j].capacity))
  }

  predicate BlockOk(b: Block) {
    b.size > 0 && b.size % 8 == 0 && b.at % 8 == 0
  }

  /** Every block is aligned and inside the used part of one chunk. */
  ghost predicate Held(chunks: seq<Chunk>, live: set<Block>) {
    forall b {:trigger b in live} :: b in live ==> BlockOk(b) && exists i :: 0 <= i < |chunks| && Within(b, chunks[i])
  }

  /** No two blocks overlap. */
  ghost predicate Disjoint(live: set<Block>) {
    forall a, b {:trigger a in live, b in live} :: a in live && b in live && a != b ==>
        Apart(a.at, a.size, b.at, b.size)
  }

  ghost predicate PoolOk(chunks: seq<Chunk>, live: set<Block>) {
    ChunksOk(chunks) && Held(chunks, live) && Disjoint(live)
  }

  // ----- Cutting a block off -----

  /** Room for a chunk of the given capacity, as the base allocator gives it: apart from all chunks. */
  ghost predicate Roomy(chunks: seq<Chunk>, at: nat, capacity: nat) {
    && at + HEADER + capacity < WORD && at % 8 == 0
    && forall i {:trigger chunks[i]} :: 0 <= i < |chunks| ==>
        Apart(at, HEADER + capacity, chunks[i].buffer - HEADER, HEADER + chunks[i].capacity)
  }

  function ChunkFor(chunkCapacity: nat, size: nat): nat {
    if chunkCapacity > size then chunkCapacity else size
  }

  /** `AddChunk`, when the base allocator gives memory at `at`. */
  function WithChunk(chunks: seq<Chunk>, at: nat, capacity: nat): seq<Chunk> {
    [Chunk(at + HEADER, capacity, 0)] + chunks
  }

  lemma AddChunkKeeps(chunks: seq<Chunk>, live: set<Block>, at: nat, capacity: nat)
    requires PoolOk(chunks, live) && Roomy(chunks, at, capacity)
    ensures PoolOk(WithChunk(chunks, at, capacity), live)
  {
    var next := WithChunk(chunks, at, capacity);
    assert forall i {:trigger next[i]} :: 0 < i < |next| ==> next[i] == chunks[i - 1];
    forall b | b in live ensures exists i :: 0 <= i < |next| && Within(b, next[i]) {
      var i :| 0 <= i < |chunks| && Within(b, chunks[i]);
      assert Within(b, next[i + 1]);
    }
  }

  /** The head chunk after its first `size` free bytes were handed out. */
  function Cut(chunks: seq<Chunk>, size: nat): seq<Chunk>
    requires chunks != []
  {
    chunks[0 := chunks[0].(size := chunks[0].size + size)]
  }

  function FreeAt(chunks: seq<Chunk>): nat
    requires chunks != []
  {
    chunks[0].buffer + chunks[0].size
  }

  /** Blocks stay within their chunks when the head chunk's used part grows. */
  lemma HeldAfterCut(chunks: seq<Chunk>, live: set<Block>, size: nat)
    requires chunks != [] && Held(chunks, live)
    ensures Held(Cut(chunks, size), live)
  {
    var next := Cut(chunks, size);
    forall b | b in live ensures exists i :: 0 <= i < |next| && Within(b, next[i]) {
      var i :| 0 <= i < |chunks| && Within(b, chunks[i]);
      assert Within(b, next[i]);
    }
  }

  /** No block reaches into the free part of the head chunk. */
  lemma FreePartIsFree(chunks: seq<Chunk>, b: Block, live: set<Block>, size: nat)
    requires PoolOk(chunks, live) && b in live && chunks[0].size + size <= chunks[0].capacity
    ensures Apart(b.at, b.size, FreeAt(chunks), size)
  {
    var i :| 0 <= i < |chunks| && Within(b, chunks[i]);
    assert ChunkOk(chunks[0]) && ChunkOk(chunks[i]);
  }

  lemma ChunksAfterCut(chunks: seq<Chunk>, size: nat)
    requires ChunksOk(chunks) && size % 8 == 0 && chunks[0].size + size <= chunks[0].capacity
    ensures ChunksOk(Cut(chunks, size))
  {
    assert ChunkOk(chunks[0]);
  }

  lemma DisjointAfterCut(chunks: seq<Chunk>, live: set<Block>, size: nat)
    requires PoolOk(chunks, live) && chunks[0].size + size <= chunks[0].capacity
    ensures Disjoint(live + {Block(FreeAt(chunks), size)})
  {
    var b := Block(FreeAt(chunks), size);
    forall a | a in live ensures Apart(a.at, a.size, b.at, b.size) {
      FreePartIsFree(chunks, a, live, size);
    }
  }

  lemma HeldWithNew(chunks: seq<Chunk>, live: set<Block>, size: nat)
    requires chunks != [] && ChunkOk(chunks[0]) && Held(chunks, live) && size > 0 && size % 8 == 0
    ensures Held(Cut(chunks, size), live + {Block(FreeAt(chunks), size)})
  {
    var next, b := Cut(chunks, size), Block(FreeAt(chunks), size);
    HeldAfterCut(chunks, live, size);
    assert Within(b, next[0]) && BlockOk(b);
  }

  /** The block at the start of the free part joins the others. */
  lemma CutKeeps(chunks: seq<Chunk>, live: set<Block>, size: nat)
    requires PoolOk(chunks, live) && size > 0 && size % 8 == 0 && chunks[0].size + size <= chunks[0].capacity
    ensures PoolOk(Cut(chunks, size), live + {Block(FreeAt(chunks), size)})
  {
    DisjointAfterCut(chunks, live, size);
    ChunksAfterCut(chunks, size);
    assert ChunkOk(chunks[0]);
    HeldWithNew(chunks, live, size);
  }

  /** A block that ends where the free part of the head chunk starts is in that chunk, and goes to its end:
      even if the caller thinks it smaller, and whatever lies before the chunk in memory. */
  lemma LastBlockIsLast(chunks: seq<Chunk>, live: set<Block>, b: Block, size: nat)
    requires PoolOk(chunks, live) && b in live && size <= b.size && b.at + size == FreeAt(chunks)
    ensures size == b.size && Within(b, chunks[0])
  {
    var i :| 0 <= i < |chunks| && Within(b, chunks[i]);
    assert ChunkOk(chunks[0]) && ChunkOk(chunks[i]);
  }

  lemma HeldAfterGrow(chunks: seq<Chunk>, live: set<Block>, b: Block, increment: nat)
    requires chunks != [] && Held(chunks, live) && b in live && Within(b, chunks[0]) && increment % 8 == 0
    requires b.at + b.size == FreeAt(chunks)
    ensures Held(Cut(chunks, increment), live - {b} + {Block(b.at, b.size + increment)})
  {
    var next, grown := Cut(chunks, increment), Block(b.at, b.size + increment);
    HeldAfterCut(chunks, live, increment);
    assert Within(grown, next[0]) && BlockOk(grown);
  }

  lemma DisjointAfterGrow(chunks: seq<Chunk>, live: set<Block>, b: Block, increment: nat)
    requires PoolOk(chunks, live) && b in live && b.at + b.size == FreeAt(chunks)
    requires chunks[0].size + increment <= chunks[0].capacity
    ensures Disjoint(live - {b} + {Block(b.at, b.size + increment)})
  {
    var grown := Block(b.at, b.size + increment);
    forall a | a in live && a != b ensures Apart(a.at, a.size, grown.at, grown.size) {
      assert Apart(a.at, a.size, b.at, b.size);
      FreePartIsFree(chunks, a, live, increment);
      assert BlockOk(a);
    }
  }

  /** The last block grows in place. */
  lemma GrowKeeps(chunks: seq<Chunk>, live: set<Block>, b: Block, increment: nat)
    requires PoolOk(chunks, live) && b in live && Within(b, chunks[0]) && b.at + b.size == FreeAt(chunks)
    requires increment % 8 == 0 && chunks[0].size + increment <= chunks[0].capacity
    ensures PoolOk(Cut(chunks, increment), live - {b} + {Block(b.at, b.size + increment)})
  {
    DisjointAfterGrow(chunks, live, b, increment);
    hide Disjoint;
    ChunksAfterCut(chunks, increment);
    HeldAfterGrow(chunks, live, b, increment);
  }

  lemma HeadOk(chunks: seq<Chunk>, live: set<Block>)
    requires PoolOk(chunks, live)
    ensures chunks != [] && ChunkOk(chunks[0])
  {
  }

  /** The next block is not one handed out already. */
  lemma NextIsNew(chunks: seq<Chunk>, live: set<Block>, size: nat)
    requires PoolOk(chunks, live) && size > 0 && chunks[0].size + size <= chunks[0].capacity
    ensures Block(FreeAt(chunks), size) !in live
  {
    var b := Block(FreeAt(chunks), size);
    if b in live {
      FreePartIsFree(chunks, b, live, size);
    }
  }

  // ----- Machine arithmetic: for which requests the allocator is right -----

  /** The room test of `Malloc`. */
  predicate NoRoom(head: Chunk, size: nat) {
    Wrap(head.size + size) > head.capacity
  }

  /** How many bytes `AddChunk` asks the base allocator for. */
  function Request(capacity: nat): (n: nat)
    ensures n < WORD
  {
    Wrap(HEADER + capacity)
  }

  /** What the base allocator may answer to a request for `n` bytes: none, which it must for no bytes, or aligned
      memory apart from all chunks. */
  ghost predicate Gives(chunks: seq<Chunk>, base: Option<nat>, n: nat) {
    base.Some? ==>
      && n > 0 && base.value + n < WORD && base.value % 8 == 0
      && forall i {:trigger chunks[i]} :: 0 <= i < |chunks| ==>
           Apart(base.value, n, chunks[i].buffer - HEADER, HEADER + chunks[i].capacity)
  }

  /** The head chunk's used part after a block was cut off, whether there is room or not. */
  function Bump(chunks: seq<Chunk>, size: nat): seq<Chunk>
    requires chunks != []
  {
    chunks[0 := chunks[0].(size := Wrap(chunks[0].size + size))]
  }

  datatype Served = Served(p: Option<nat>, chunks: seq<Chunk>)

  /** `Malloc`, for any request, on machine words. */
  function Serve(chunks: seq<Chunk>, chunkCapacity: nat, size: nat, base: Option<nat>): Served
    requires chunks != []
  {
    if size == 0 then Served(None, chunks)
    else
      var aligned := Align(size);
      if !NoRoom(chunks[0], aligned) then Served(Some(Wrap(FreeAt(chunks))), Bump(chunks, aligned))
      else if base.None? then Served(None, chunks)
      else
        var next := WithChunk(chunks, base.value, ChunkFor(chunkCapacity, aligned));
        Served(Some(Wrap(FreeAt(next))), Bump(next, aligned))
  }

  /** The `size` bytes at `at` are in a chunk. */
  ghost predicate InSome(chunks: seq<Chunk>, at: nat, size: nat) {
    exists i :: 0 <= i < |chunks| && chunks[i].buffer <= at && at + size <= chunks[i].buffer + chunks[i].capacity
  }

  /** What a caller may expect: a chunk that was added lies in the `n` bytes given for it, and the bytes handed
      out lie in a chunk and in no other block. */
  ghost predicate Right(was: seq<Chunk>, now: seq<Chunk>, others: set<Block>, n: nat, p: Option<nat>, size: nat) {
    && (|now| > |was| ==> HEADER + now[0].capacity <= n)
    && (p.None? ==> now == was)
    && (p.Some? ==> size > 0 && InSome(now, p.value, size))
    && (p.Some? ==> forall b {:trigger b in others} :: b in others ==> Apart(b.at, b.size, p.value, size))
  }

  /** The requests that are served right: the size is not rounded to nothing, the room test does not wrap, and
      if a chunk is to be added, its size with the header does not either. */
  predicate Fits(head: Chunk, chunkCapacity: nat, size: nat, base: Option<nat>) {
    || size == 0
    || (&& size <= WORD - 8 && head.size + Align(size) < WORD
        && (|| head.size + Align(size) <= head.capacity
            || base.None?
            || HEADER + ChunkFor(chunkCapacity, Align(size)) < WORD))
  }

  /** A sum that wraps passes the room test, though there is no room. */
  lemma WrappedSumPasses(head: Chunk, size: nat)
    requires head.size <= head.capacity < WORD && size < WORD
    ensures NoRoom(head, size) <==> head.size + size > head.capacity && head.size + size < WORD
  {
  }

  /** Bytes that reach over the end of the address space are in no chunk. */
  lemma PastTheEnd(chunks: seq<Chunk>, live: set<Block>, at: nat, size: nat)
    requires PoolOk(chunks, live) && at + size >= WORD
    ensures !InSome(chunks, at, size)
  {
    assert forall i {:trigger chunks[i]} :: 0 <= i < |chunks| ==> ChunkOk(chunks[i]);
  }

  lemma BumpInSome(chunks: seq<Chunk>, aligned: nat, at: nat, size: nat)
    requires chunks != []
    ensures InSome(Bump(chunks, aligned), at, size) <==> InSome(chunks, at, size)
  {
    var next := Bump(chunks, aligned);
    assert forall i {:trigger next[i]} {:trigger chunks[i]} :: 0 <= i < |chunks| ==>
      next[i].buffer == chunks[i].buffer && next[i].capacity == chunks[i].capacity;
    if InSome(next, at, size) {
      var i :| 0 <= i < |next| && next[i].buffer <= at && at + size <= next[i].buffer + next[i].capacity;
      assert chunks[i].buffer <= at;
    }
    if InSome(chunks, at, size) {
      var i :| 0 <= i < |chunks| && chunks[i].buffer <= at && at + size <= chunks[i].buffer + chunks[i].capacity;
      assert next[i].buffer <= at;
    }
  }

  /** A request that does not fit a word gets bytes of the head chunk that are not there. */
  lemma HeadWrong(chunks: seq<Chunk>, live: set<Block>, chunkCapacity: nat, size: nat, base: Option<nat>)
    requires PoolOk(chunks, live) && 0 < size < WORD
    requires size > WORD - 8 || chunks[0].size + Align(size) >= WORD
    ensures
      var s := Serve(chunks, chunkCapacity, size, base);
      s.p.Some? && |s.chunks| == |chunks| && !InSome(s.chunks, s.p.value, size)
  {
    hide Align;
    HeadOk(chunks, live);
    if size > WORD - 8 {
      AlignHuge(size);
    } else {
      AlignIs(size);
    }
    WrappedSumPasses(chunks[0], Align(size));
    PastTheEnd(chunks, live, FreeAt(chunks), size);
    BumpInSome(chunks, Align(size), FreeAt(chunks), size);
  }

  /** The same from the free part of the head chunk, if there is room. */
  lemma HeadRight(chunks: seq<Chunk>, live: set<Block>, chunkCapacity: nat, size: nat, base: Option<nat>)
    requires PoolOk(chunks, live) && 0 < size <= WORD - 8 && chunks[0].size + Align(size) <= chunks[0].capacity
    ensures
      var s := Serve(chunks, chunkCapacity, size, base);
      && Align(size) >= size && s == Served(Some(FreeAt(chunks)), Cut(chunks, Align(size)))
      && PoolOk(s.chunks, live + {Block(FreeAt(chunks), Align(size))}) && Block(FreeAt(chunks), Align(size)) !in live
      && InSome(s.chunks, FreeAt(chunks), size)
      && forall b {:trigger b in live} :: b in live ==> Apart(b.at, b.size, FreeAt(chunks), size)
  {
    hide Align, PoolOk;
    HeadOk(chunks, live);
    AlignIs(size);
    CutKeeps(chunks, live, Align(size));
    NextIsNew(chunks, live, Align(size));
    BumpInSome(chunks, Align(size), FreeAt(chunks), size);
    assert chunks[0].buffer <= FreeAt(chunks);
    forall b | b in live ensures Apart(b.at, b.size, FreeAt(chunks), size) {
      FreePartIsFree(chunks, b, live, Align(size));
    }
  }

  /** A chunk that was asked for without wrap-around is a chunk in order, with room for the request. */
  lemma ChunkGiven(chunks: seq<Chunk>, live: set<Block>, at: nat, capacity: nat)
    requires PoolOk(chunks, live) && HEADER + capacity < WORD && Gives(chunks, Some(at), Request(capacity))
    ensures Request(capacity) == HEADER + capacity && PoolOk(WithChunk(chunks, at, capacity), live)
  {
    AddChunkKeeps(chunks, live, at, capacity);
  }

  /** From a chunk that was added. */
  lemma ChunkRight(chunks: seq<Chunk>, live: set<Block>, chunkCapacity: nat, size: nat, at: nat)
    requires PoolOk(chunks, live) && 0 < size <= WORD - 8 && chunks[0].capacity < chunks[0].size + Align(size) < WORD
    requires HEADER + ChunkFor(chunkCapacity, Align(size)) < WORD
    requires Gives(chunks, Some(at), Request(ChunkFor(chunkCapacity, Align(size))))
    ensures
      var next := WithChunk(chunks, at, ChunkFor(chunkCapacity, Align(size)));
      && PoolOk(next, live)
      && Serve(chunks, chunkCapacity, size, Some(at)) == Serve(next, chunkCapacity, size, Some(at))
      && next[0].size + Align(size) <= next[0].capacity
      && Request(ChunkFor(chunkCapacity, Align(size))) == HEADER + next[0].capacity
  {
    hide Align, PoolOk, Gives;
    HeadOk(chunks, live);
    ChunkGiven(chunks, live, at, ChunkFor(chunkCapacity, Align(size)));
    WrappedSumPasses(chunks[0], Align(size));
    WrappedSumPasses(Chunk(at + HEADER, ChunkFor(chunkCapacity, Align(size)), 0), Align(size));
  }

  /** For every pool in order, every request and every answer of the base allocator: what the caller gets is
      right if and only if the request fits. */
  lemma ServedRightIff(chunks: seq<Chunk>, live: set<Block>, chunkCapacity: nat, size: nat, base: Option<nat>)
    requires PoolOk(chunks, live) && chunkCapacity < WORD && size < WORD
    requires Gives(chunks, base, Request(ChunkFor(chunkCapacity, Align(size))))
    ensures
      var s := Serve(chunks, chunkCapacity, size, base);
      Right(chunks, s.chunks, live, Request(ChunkFor(chunkCapacity, Align(size))), s.p, size)
      <==> Fits(chunks[0], chunkCapacity, size, base)
  {
    hide Align, PoolOk, Gives, InSome;
    HeadOk(chunks, live);
    if size == 0 {
    } else if size > WORD - 8 || chunks[0].size + Align(size) >= WORD {
      HeadWrong(chunks, live, chunkCapacity, size, base);
    } else if chunks[0].size + Align(size) <= chunks[0].capacity {
      HeadRight(chunks, live, chunkCapacity, size, base);
    } else if base.Some? {
      WrappedSumPasses(chunks[0], Align(size));
      if HEADER + ChunkFor(chunkCapacity, Align(size)) < WORD {
        ChunkRight(chunks, live, chunkCapacity, size, base.value);
        HeadRight(WithChunk(chunks, base.value, ChunkFor(chunkCapacity, Align(size))), live, chunkCapacity, size, base);
      }
    }
  }

  /** Where the bytes come from: the next free ones of the head chunk if these are enough, and else the first ones of a
      chunk in front of the others, as large as chunks are made or as the bytes need. */
  ghost predicate Placed(was: seq<Chunk>, now: seq<Chunk>, chunkCapacity: nat, aligned: nat, base: Option<nat>, p: nat)
    requires was != []
  {
    var (buffer, capacity, size) := (was[0].buffer, was[0].capacity, was[0].size);
    if size + aligned <= capacity
    then p == buffer + size && now == [Chunk(buffer, capacity, size + aligned)] + was[1..]
    else
      && base.Some? && p == base.value + 24 && |now| == |was| + 1 && now[1..] == was
      && now[0].buffer == p && now[0].size == aligned
      && now[0].capacity == (if aligned < chunkCapacity then chunkCapacity else aligned)
  }

  lemma ServedPlaced(chunks: seq<Chunk>, live: set<Block>, chunkCapacity: nat, size: nat, base: Option<nat>)
    requires PoolOk(chunks, live) && chunkCapacity < WORD && size < WORD && Fits(chunks[0], chunkCapacity, size, base)
    requires Gives(chunks, base, Request(ChunkFor(chunkCapacity, Align(size))))
    ensures
      var s := Serve(chunks, chunkCapacity, size, base);
      s.p.Some? ==> Placed(chunks, s.chunks, chunkCapacity, Align(size), base, s.p.value)
  {
    hide Align, PoolOk, Gives, InSome;
    HeadOk(chunks, live);
    if size > 0 {
      if chunks[0].size + Align(size) <= chunks[0].capacity {
        HeadRight(chunks, live, chunkCapacity, size, base);
      } else {
        WrappedSumPasses(chunks[0], Align(size));
        if base.Some? {
          ChunkRight(chunks, live, chunkCapacity, size, base.value);
          HeadRight(WithChunk(chunks, base.value, ChunkFor(chunkCapacity, Align(size))), live, chunkCapacity, size,
              base);
        }
      }
    }
  }

  /** A request that fits leaves the pool in order, with the new block. */
  lemma ServedKeeps(chunks: seq<Chunk>, live: set<Block>, chunkCapacity: nat, size: nat, base: Option<nat>)
    requires PoolOk(chunks, live) && chunkCapacity < WORD && size < WORD && Fits(chunks[0], chunkCapacity, size, base)
    requires Gives(chunks, base, Request(ChunkFor(chunkCapacity, Align(size))))
    ensures
      var s := Serve(chunks, chunkCapacity, size, base);
      && (s.p.None? <==> size == 0 || (chunks[0].size + Align(size) > chunks[0].capacity && base.None?))
      && (s.p.None? ==> s.chunks == chunks)
      && (s.p.Some? ==>
            && PoolOk(s.chunks, live + {Block(s.p.value, Align(size))})
            && Block(s.p.value, Align(size)) !in live && Align(size) >= size)
  {
    hide Align, PoolOk, Gives, InSome;
    HeadOk(chunks, live);
    if size > 0 {
      if chunks[0].size + Align(size) <= chunks[0].capacity {
        HeadRight(chunks, live, chunkCapacity, size, base);
      } else {
        WrappedSumPasses(chunks[0], Align(size));
        if base.Some? {
          ChunkRight(chunks, live, chunkCapacity, size, base.value);
          HeadRight(WithChunk(chunks, base.value, ChunkFor(chunkCapacity, Align(size))), live, chunkCapacity, size,
              base);
        }
      }
    }
  }

  lemma GivesLess(chunks: seq<Chunk>, free: nat, n: nat)
    requires Gives(chunks, Some(free), HEADER) && 0 < n <= HEADER
    ensures Gives(chunks, Some(free), n)
  {
  }

  /** The same for whatever the base allocator may answer, where it has at least a little memory. */
  lemma AlwaysRightIff(chunks: seq<Chunk>, live: set<Block>, chunkCapacity: nat, size: nat, free: nat)
    requires PoolOk(chunks, live) && chunkCapacity < WORD && size < WORD && Gives(chunks, Some(free), HEADER)
    ensures
      var n := Request(ChunkFor(chunkCapacity, Align(size)));
      (forall base {:trigger Gives(chunks, base, n)} :: Gives(chunks, base, n) ==>
         var s := Serve(chunks, chunkCapacity, size, base); Right(chunks, s.chunks, live, n, s.p, size))
      <==>
      || size == 0
      || (&& size <= WORD - 8 && chunks[0].size + Align(size) < WORD
          && (|| chunks[0].size + Align(size) <= chunks[0].capacity
              || HEADER + ChunkFor(chunkCapacity, Align(size)) <= WORD))
  {
    hide Align, PoolOk, Right, Serve;
    var n := Request(ChunkFor(chunkCapacity, Align(size)));
    HeadOk(chunks, live);
    forall base | Gives(chunks, base, n)
      ensures (var s := Serve(chunks, chunkCapacity, size, base); Right(chunks, s.chunks, live, n, s.p, size))
        <==> Fits(chunks[0], chunkCapacity, size, base)
    {
      ServedRightIff(chunks, live, chunkCapacity, size, base);
    }
    assert Gives(chunks, None, n);
    if HEADER + ChunkFor(chunkCapacity, Align(size)) > WORD {
      GivesLess(chunks, free, n);
    }
  }

  /** Three requests that are not served right by a new pool with chunks of 64 KiB, when the base allocator gives
      the memory at 4096: a size that is rounded to nothing; one whose chunk asks for eight bytes only; and one
      after eight bytes were handed out, whose sum with these wraps. */
  lemma ServedWrong()
    ensures
      var made := [Chunk(1024, 0, 0)];
      var used := [Chunk(4096, 65536, 8)];
      && PoolOk(made, {}) && PoolOk(used, {Block(4096, 8)})
      && Serve(made, 65536, WORD - 1, None) == Served(Some(1024), made)
      && !InSome(made, 1024, WORD - 1)
      && Request(ChunkFor(65536, Align(WORD - 16))) == 8 && Gives(made, Some(4096), 8)
      && Serve(made, 65536, WORD - 16, Some(4096)).p == Some(4096 + HEADER)
      && Serve(used, 65536, WORD - 8, None) == Served(Some(4104), [Chunk(4096, 65536, 0)])
      && !InSome(used, 4104, WORD - 8)
  {
    var made, used := [Chunk(1024, 0, 0)], [Chunk(4096, 65536, 8)];
    assert Align(WORD - 1) == 0 && Align(WORD - 16) == WORD - 16 && Align(WORD - 8) == WORD - 8;
    assert ChunkOk(made[0]) && ChunkOk(used[0]) && Within(Block(4096, 8), used[0]);
  }

  /** The `n` bytes from `at` on are those that were from `from` on. */
  ghost predicate SameBytes(memory: nat -> Byte, at: nat, was: nat -> Byte, from: nat, n: nat) {
    forall a: nat {:trigger memory(a)} :: at <= a < at + n ==> memory(a) == was(a - at + from)
  }

  ghost predicate SameOutside(memory: nat -> Byte, was: nat -> Byte, b: Block) {
    forall a: nat {:trigger memory(a)} :: !(b.at <= a < b.at + b.size) ==> memory(a) == was(a)
  }

  // ----- Reallocation -----

  /** `Realloc` has nothing to move: the block has the size already, or it is the last one and there is room. */
  predicate InPlace(chunks: seq<Chunk>, at: nat, originalSize: nat, newSize: nat)
    requires chunks != []
  {
    || Align(originalSize) >= Align(newSize)
    || (&& at + Align(originalSize) == FreeAt(chunks)
        && chunks[0].size + (Align(newSize) - Align(originalSize)) <= chunks[0].capacity)
  }

  /** The requests to `Realloc` that are served right. */
  predicate ReallocFits(chunks: seq<Chunk>, chunkCapacity: nat, ptr: Option<nat>, originalSize: nat, newSize: nat,
      base: Option<nat>)
    requires chunks != []
  {
    || newSize == 0
    || (newSize <= WORD - 8 && ptr.Some? && InPlace(chunks, ptr.value, originalSize, newSize))
    || Fits(chunks[0], chunkCapacity, newSize, base)
  }

  /** A block lies in a chunk, before the end of the address space. */
  lemma BlockFits(chunks: seq<Chunk>, live: set<Block>, b: Block, size: nat)
    requires PoolOk(chunks, live) && b in live && size <= b.size
    ensures InSome(chunks, b.at, size) && HEADER <= b.at && b.at + b.size < WORD && b.size % 8 == 0 < b.size
    ensures forall a {:trigger a in live} :: a in live - {b} ==> Apart(a.at, a.size, b.at, size)
  {
    var i :| 0 <= i < |chunks| && Within(b, chunks[i]);
    assert ChunkOk(chunks[i]);
    forall a | a in live - {b} ensures Apart(a.at, a.size, b.at, size) {
      assert a in live;
    }
  }

  lemma FewerBlocks(chunks: seq<Chunk>, live: set<Block>, b: Block)
    requires PoolOk(chunks, live)
    ensures PoolOk(chunks, live - {b})
  {
    assert forall a :: a in live - {b} ==> a in live;
  }

  lemma NoneIsRight(chunks: seq<Chunk>, others: set<Block>, n: nat, size: nat)
    ensures Right(chunks, chunks, others, n, None, size)
  {
  }

  /** Leaving the block as it is. */
  lemma StaysIff(chunks: seq<Chunk>, live: set<Block>, b: Block, original: nat, newSize: nat, n: nat)
    requires PoolOk(chunks, live) && b in live && Align(newSize) <= original <= b.size && 0 < newSize < WORD
    ensures Right(chunks, chunks, live - {b}, n, Some(b.at), newSize) <==> newSize <= WORD - 8
  {
    hide PoolOk, InSome, Align;
    if newSize <= WORD - 8 {
      AlignIs(newSize);
      BlockFits(chunks, live, b, newSize);
    } else {
      BlockFits(chunks, live, b, 0);
      HeadOk(chunks, live);
      PastTheEnd(chunks, live, b.at, newSize);
    }
  }

  /** Growing the last block in place when the room test passes. */
  lemma GrownIff(chunks: seq<Chunk>, live: set<Block>, b: Block, original: nat, newSize: nat, n: nat)
    requires PoolOk(chunks, live) && b in live && original <= b.size && b.at + original == FreeAt(chunks)
    requires newSize < WORD && original < Align(newSize) && !NoRoom(chunks[0], Align(newSize) - original)
    ensures Right(chunks, Bump(chunks, Align(newSize) - original), live - {b}, n, Some(b.at), newSize)
      <==> chunks[0].size + (Align(newSize) - original) < WORD
  {
    hide PoolOk, InSome, Align;
    HeadOk(chunks, live);
    AlignPositive(newSize);
    LastBlockIsLast(chunks, live, b, original);
    var increment := Align(newSize) - original;
    BumpInSome(chunks, increment, b.at, newSize);
    if chunks[0].size + increment < WORD {
      assert InSome(chunks, b.at, newSize) by { HeadHas(chunks, b.at, newSize); }
      forall a | a in live - {b} ensures Apart(a.at, a.size, b.at, newSize) {
        BlockFits(chunks, live, b, b.size);
        FreePartIsFree(chunks, a, live, increment);
        BlockFits(chunks, live, a, a.size);
      }
    } else {
      PastTheEnd(chunks, live, b.at, newSize);
    }
  }

  lemma HeadHas(chunks: seq<Chunk>, at: nat, size: nat)
    requires chunks != [] && chunks[0].buffer <= at && at + size <= chunks[0].buffer + chunks[0].capacity
    ensures InSome(chunks, at, size)
  {
  }

  /** Moving the block: the rounded size is served like the size itself. */
  lemma MovedIff(chunks: seq<Chunk>, live: set<Block>, b: Block, chunkCapacity: nat, newSize: nat, base: Option<nat>)
    requires PoolOk(chunks, live) && chunkCapacity < WORD && newSize < WORD && Align(newSize) > 0
    requires Gives(chunks, base, Request(ChunkFor(chunkCapacity, Align(newSize))))
    ensures
      var s := Serve(chunks, chunkCapacity, Align(newSize), base);
      && (Right(chunks, s.chunks, live - {b}, Request(ChunkFor(chunkCapacity, Align(newSize))), s.p, newSize)
          <==> Fits(chunks[0], chunkCapacity, newSize, base))
      && (Fits(chunks[0], chunkCapacity, newSize, base) <==> Fits(chunks[0], chunkCapacity, Align(newSize), base))
  {
    hide PoolOk, InSome, Align, Right, Gives;
    AlignPositive(newSize);
    FewerBlocks(chunks, live, b);
    ServedRightIff(chunks, live - {b}, chunkCapacity, newSize, base);
  }

  lemma AlignPositive(x: nat)
    requires x < WORD && Align(x) > 0
    ensures 0 < x <= WORD - 8 && x <= Align(x) < x + 8 && Align(Align(x)) == Align(x) <= WORD - 8
  {
  }

  /** A caller's size that is not too large stays so when it is rounded. */
  lemma AlignWithin(size: nat, limit: nat)
    requires size <= limit && limit % 8 == 0 && limit + 7 < WORD
    ensures size <= Align(size) <= limit
  {
  }

  lemma SameMemory(memory: nat -> Byte)
    ensures forall at, n :: SameBytes(memory, at, memory, at, n)
    ensures forall b :: SameOutside(memory, memory, b)
  {
  }

  lemma FewerBytes(memory: nat -> Byte, at: nat, was: nat -> Byte, from: nat, m: nat, n: nat)
    requires SameBytes(memory, at, was, from, n) && m <= n
    ensures SameBytes(memory, at, was, from, m)
  {
  }

  // ----- The allocator -----

  class MemoryPool {
    const chunkCapacity: nat
    var chunks: seq<Chunk>
    var memory: nat -> Byte

    /** The blocks handed out since the last `Clear`. */
    ghost var live: set<Block>

    ghost predicate Valid()
      reads this
    {
      PoolOk(chunks, live) && chunkCapacity < WORD
    }

    /** A pool with one chunk, which the allocator makes or the user supplies. */
    constructor (chunkCapacity: nat, first: Chunk)
      requires chunkCapacity < WORD && ChunkOk(first) && first.size == 0
      ensures Valid() && live == {} && chunks == [first] && this.chunkCapacity == chunkCapacity
    {
      this.chunkCapacity := chunkCapacity;
      chunks := [first];
      memory := _ => 0;
      live := {};
    }

    /** `AddChunk`; `base` is what the base allocator returns for the bytes asked for. */
    method AddChunk(capacity: nat, base: Option<nat>) returns (ok: bool)
      requires Valid() && capacity < WORD && Gives(chunks, base, Request(capacity))
      modifies this`chunks
      ensures ok == base.Some?
      ensures chunks == if ok then WithChunk(old(chunks), base.value, capacity) else old(chunks)
      ensures Valid() <== (ok ==> HEADER + capacity < WORD)
    {
      if base.Some? {
        if HEADER + capacity < WORD {
          ChunkGiven(chunks, live, base.value, capacity);
        }
        chunks := [Chunk(base.value + HEADER, capacity, 0)] + chunks;
      }
      ok := base.Some?;
    }

    /** `Malloc`, for every size and every pool. What it does is right if and only if the request fits; then the
        block is aligned and its own, and there is none only for no bytes or when no memory is left. */
    method Malloc(size: nat, base: Option<nat>) returns (p: Option<nat>)
      requires Valid() && size < WORD && Gives(chunks, base, Request(ChunkFor(chunkCapacity, Align(size))))
      modifies this`chunks, this`live
      ensures Served(p, chunks) == Serve(old(chunks), chunkCapacity, size, base)
      ensures old(chunks) != []
      ensures Right(old(chunks), chunks, old(live), Request(ChunkFor(chunkCapacity, Align(size))), p, size)
        <==> Fits(old(chunks)[0], chunkCapacity, size, base)
      ensures Fits(old(chunks)[0], chunkCapacity, size, base) ==>
        && Valid()
        && (p.None? <==> size == 0 || (old(chunks)[0].size + Align(size) > old(chunks)[0].capacity && base.None?))
        && (p.None? ==> live == old(live) && chunks == old(chunks))
        && (p.Some? ==> live == old(live) + {Block(p.value, Align(size))} && Align(size) >= size > 0)
        && (p.Some? ==> Block(p.value, Align(size)) !in old(live))
        && (p.Some? ==> Placed(old(chunks), chunks, chunkCapacity, Align(size), base, p.value))
    {
      hide PoolOk, Align, Gives, Right, InSome, Placed;
      HeadOk(chunks, live);
      ServedRightIff(chunks, live, chunkCapacity, size, base);
      ghost var fits := Fits(chunks[0], chunkCapacity, size, base);
      if fits {
        ServedKeeps(chunks, live, chunkCapacity, size, base);
        ServedPlaced(chunks, live, chunkCapacity, size, base);
      }
      if size == 0 {
        return None;
      }
      var aligned := Align(size);
      if NoRoom(chunks[0], aligned) {
        var ok := AddChunk(ChunkFor(chunkCapacity, aligned), base);
        if !ok {
          return None;
        }
      }
      p := Some(Wrap(FreeAt(chunks)));
      chunks := chunks[0 := chunks[0].(size := Wrap(chunks[0].size + aligned))];
      live := if fits then live + {Block(p.value, aligned)} else live;
    }

    method CopyBytes(to: nat, from: nat, n: nat)
      modifies this`memory
      ensures forall a: nat {:trigger memory(a)} ::
        memory(a) == if to <= a < to + n then old(memory)(a - to + from) else old(memory)(a)
    {
      var m := memory;
      memory := (a: nat) => if to <= a < to + n then m(a - to + from) else m(a);
    }

    /** `Realloc` of a block `b`, which the caller may think smaller than it is. What it does is right if and only
        if the request fits; then the old contents are there, in place or moved, and every other block is as it
        was, and there is none only for no bytes or when the block had to move and no memory is left. */
    method Realloc(ptr: Option<nat>, originalSize: nat, newSize: nat, base: Option<nat>, ghost b: Block)
      returns (p: Option<nat>, ghost block: Block)
      requires Valid() && newSize < WORD && Gives(chunks, base, Request(ChunkFor(chunkCapacity, Align(newSize))))
      requires ptr.Some? ==> b in live && b.at == ptr.value && originalSize <= b.size
      modifies this
      ensures old(chunks) != []
      ensures Right(old(chunks), chunks, if ptr.Some? then old(live) - {b} else old(live),
                    Request(ChunkFor(chunkCapacity, Align(newSize))), p, newSize)
        <==> ReallocFits(old(chunks), chunkCapacity, ptr, originalSize, newSize, base)
      ensures ReallocFits(old(chunks), chunkCapacity, ptr, originalSize, newSize, base) ==>
        && Valid()
        && (p.None? <==>
              || newSize == 0
              || (&& !(ptr.Some? && InPlace(old(chunks), ptr.value, originalSize, newSize))
                  && old(chunks)[0].size + Align(newSize) > old(chunks)[0].capacity && base.None?))
        && (p.None? ==> live == old(live) && memory == old(memory))
        && (p.Some? ==> block in live && block.at == p.value && newSize <= block.size)
        && (p.Some? ==> SameOutside(memory, old(memory), block))
        && (p.Some? && ptr.Some? ==>
              SameBytes(memory, p.value, old(memory), ptr.value,
                  if originalSize < newSize then originalSize else newSize))
        && (p.Some? ==> live == if ptr.Some? && InPlace(old(chunks), ptr.value, originalSize, newSize)
                                then old(live) - {b} + {block} else old(live) + {block})
        && (p.Some? && ptr.Some? && InPlace(old(chunks), ptr.value, originalSize, newSize) ==> p == ptr)
    {
      hide PoolOk, Align, Gives, Right, InSome, SameBytes, SameOutside, Request, Wrap, Serve, NoRoom, Placed;
      HeadOk(chunks, live);
      SameMemory(memory);
      block := b;
      if ptr.None? {
        p := Malloc(newSize, base);
        block := Block(if p.Some? then p.value else 0, Align(newSize));
        return;
      }
      if newSize == 0 {
        assert Right(chunks, chunks, live - {b}, Request(ChunkFor(chunkCapacity, Align(newSize))), None, newSize) by {
          NoneIsRight(chunks, live - {b}, Request(ChunkFor(chunkCapacity, Align(newSize))), newSize);
        }
        return None, b;
      }
      BlockFits(chunks, live, b, originalSize);
      AlignWithin(originalSize, b.size);
      var original, wanted := Align(originalSize), Align(newSize);
      if original >= wanted {
        if newSize <= WORD - 8 {
          AlignIs(newSize);
        }
        StaysIff(chunks, live, b, original, newSize, Request(ChunkFor(chunkCapacity, wanted)));
        return ptr, b;
      }
      AlignPositive(newSize);
      WrappedSumPasses(chunks[0], wanted - original);
      ghost var was, wasLive := chunks, live;
      var grown;
      grown, block := TryGrow(ptr.value, original, wanted - original, b);
      if grown {
        GrownIff(was, wasLive, b, original, newSize, Request(ChunkFor(chunkCapacity, wanted)));
        return ptr, block;
      }
      p, block := Move(ptr.value, original, wanted, base, b);
      MovedIff(was, wasLive, b, chunkCapacity, newSize, base);
      if p.Some? && Fits(was[0], chunkCapacity, wanted, base) {
        FewerBytes(memory, p.value, old(memory), ptr.value, if originalSize < newSize then originalSize else newSize,
            original);
      }
    }

    /** The last block grows in place, exactly if the room test says that its chunk has room. */
    method TryGrow(from: nat, original: nat, increment: nat, ghost b: Block) returns (grown: bool, ghost block: Block)
      requires Valid() && b in live && b.at == from && original <= b.size && increment % 8 == 0 && increment < WORD
      modifies this`chunks, this`live
      ensures old(chunks) != []
      ensures grown <==> from + original == FreeAt(old(chunks)) && !NoRoom(old(chunks)[0], increment)
      ensures chunks == if grown then Bump(old(chunks), increment) else old(chunks)
      ensures !grown ==> Valid() && live == old(live)
      ensures grown && old(chunks)[0].size + increment < WORD ==>
        && Valid() && original == b.size && block == Block(from, original + increment)
        && live == old(live) - {b} + {block}
    {
      hide PoolOk, Wrap;
      HeadOk(chunks, live);
      WrapSmall(chunks[0].size + increment);
      grown, block := false, b;
      if from == FreeAt(chunks) - original {
        LastBlockIsLast(chunks, live, b, original);
        if Wrap(chunks[0].size + increment) <= chunks[0].capacity {
          if chunks[0].size + increment < WORD {
            GrowKeeps(chunks, live, b, increment);
            block := Block(b.at, b.size + increment);
            live := live - {b} + {block};
          }
          chunks := chunks[0 := chunks[0].(size := Wrap(chunks[0].size + increment))];
          grown := true;
        }
      }
    }

    /** The end of `Realloc`: a new block, and the old contents copied; none exactly if `Malloc` gives none. */
    method Move(from: nat, original: nat, wanted: nat, base: Option<nat>, ghost b: Block)
        returns (p: Option<nat>, ghost block: Block)
      requires Valid() && original < wanted < WORD && wanted % 8 == 0
      requires Gives(chunks, base, Request(ChunkFor(chunkCapacity, wanted)))
      requires b in live && b.at == from && original <= b.size
      modifies this
      ensures Served(p, chunks) == Serve(old(chunks), chunkCapacity, wanted, base)
      ensures old(chunks) != []
      ensures Right(old(chunks), chunks, old(live), Request(ChunkFor(chunkCapacity, wanted)), p, wanted)
        <==> Fits(old(chunks)[0], chunkCapacity, wanted, base)
      ensures Fits(old(chunks)[0], chunkCapacity, wanted, base) ==>
        && Valid()
        && (p.None? <==> old(chunks)[0].size + wanted > old(chunks)[0].capacity && base.None?)
        && (p.None? ==> live == old(live) && memory == old(memory))
        && (p.Some? ==> block == Block(p.value, wanted) && live == old(live) + {block})
        && (p.Some? ==> SameBytes(memory, p.value, old(memory), from, original))
        && (p.Some? ==> SameOutside(memory, old(memory), block))
    {
      hide PoolOk, Align, Gives, Right, InSome, Serve, Placed;
      HeadOk(chunks, live);
      AlignIs(wanted);
      p := Malloc(wanted, base);
      block := Block(if p.Some? then p.value else 0, wanted);
      if p.Some? {
        CopyBytes(p.value, from, original);
      }
    }

    /** `Clear`: back to the first chunk, empty. */
    method Clear()
      requires Valid()
      modifies this`chunks, this`live
      ensures Valid() && live == {}
      ensures chunks == [old(chunks)[|old(chunks)| - 1].(size := 0)]
    {
      ghost var last := chunks[|chunks| - 1];
      while |chunks| > 1
        invariant ChunksOk(chunks) && chunks[|chunks| - 1] == last
        decreases |chunks|
      {
        chunks := chunks[1..];
      }
      chunks := chunks[0 := chunks[0].(size := 0)];
      live := {};
    }
  }
}
