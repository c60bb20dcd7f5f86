/** Enumerating the modified blocks of a range (src/libpgmoneta/brt.c), chunk by chunk. */
module BrtListing {
  import opened BrtChunk
  import opened BrtEntry

  // ----- the order in which blocks are listed -----

  /** The set bits of `lo..hi`, in increasing order, as block numbers. */
  function BitList(data: seq<Word>, base: nat, lo: nat, hi: nat): seq<nat>
    requires |data| == MAX_ENTRIES_PER_CHUNK && hi <= BLOCKS_PER_CHUNK
  {
    if hi <= lo then []
    else BitList(data, base, lo, hi - 1) + (if BitAt(data, hi - 1) then [base + hi - 1] else [])
  }

  /** The offsets in `lo..hi`, in the order of their insertion, as block numbers. */
  function ArrayList(offsets: seq<Word>, base: nat, lo: nat, hi: nat): seq<nat>
  {
    if offsets == [] then []
    else
      var o := offsets[|offsets| - 1];
      ArrayList(offsets[..|offsets| - 1], base, lo, hi) + (if lo <= o < hi then [base + o] else [])
  }

  /** A range in a bitmap ends with the bitmap. */
  function Top(hi: nat): nat
  {
    if hi > BLOCKS_PER_CHUNK then BLOCKS_PER_CHUNK else hi
  }

  function ChunkList(c: Chunk, base: nat, lo: nat, hi: nat): seq<nat>
    requires c.usage <= |c.data|
    requires c.usage == MAX_ENTRIES_PER_CHUNK ==> |c.data| == MAX_ENTRIES_PER_CHUNK
  {
    if c.usage == MAX_ENTRIES_PER_CHUNK then BitList(c.data, base, lo, Top(hi))
    else ArrayList(c.data[..c.usage], base, lo, hi)
  }

  /** One past the last chunk that a range can reach. */
  function StopChunk(nchunks: nat, stop: nat): nat
  {
    var s := stop / BLOCKS_PER_CHUNK + if stop % BLOCKS_PER_CHUNK != 0 then 1 else 0;
    if s > nchunks then nchunks else s
  }

  function Lo(start: nat, c: nat): nat
  {
    if c == start / BLOCKS_PER_CHUNK then start % BLOCKS_PER_CHUNK else 0
  }

  /** The end of the range in chunk `c`, as the code computes it. */
  function Hi(nchunks: nat, stop: nat, c: nat): nat
    requires c < StopChunk(nchunks, stop)
  {
    if c + 1 == StopChunk(nchunks, stop) then stop - c * BLOCKS_PER_CHUNK else BLOCKS_PER_CHUNK
  }

  ghost predicate AllValidChunks(chunks: seq<Chunk>)
  {
    forall c :: 0 <= c < |chunks| ==> ValidChunk(chunks[c])
  }

  /** No loop over a bitmap runs past its last bit: the range ends within the allocated chunks, or starts
      past them, or the last chunk is not a bitmap. */
  predicate WithinBitmaps(chunks: seq<Chunk>, start: nat, stop: nat)
  {
    || stop <= |chunks| * BLOCKS_PER_CHUNK
    || |chunks| <= start / BLOCKS_PER_CHUNK
    || chunks[|chunks| - 1].usage != MAX_ENTRIES_PER_CHUNK
  }

  /** That condition is exactly what keeps every loop bound inside its bitmap. */
  lemma WithinBitmapsExactly(chunks: seq<Chunk>, start: nat, stop: nat)
    ensures WithinBitmaps(chunks, start, stop) <==>
            forall c :: start / BLOCKS_PER_CHUNK <= c < StopChunk(|chunks|, stop) && chunks[c].usage == MAX_ENTRIES_PER_CHUNK
              ==> Hi(|chunks|, stop, c) <= BLOCKS_PER_CHUNK
  {
    var n := |chunks|;
    if stop > n * BLOCKS_PER_CHUNK && n > start / BLOCKS_PER_CHUNK {
      assert StopChunk(n, stop) == n;
      assert Hi(n, stop, n - 1) > BLOCKS_PER_CHUNK;
    }
  }

  /** What is listed from the chunks below `c`. */
  function Listed(chunks: seq<Chunk>, start: nat, stop: nat, c: nat): seq<nat>
    requires AllValidChunks(chunks) && c <= StopChunk(|chunks|, stop)
  {
    if c <= start / BLOCKS_PER_CHUNK then []
    else
      Listed(chunks, start, stop, c - 1)
      + ChunkList(chunks[c - 1], (c - 1) * BLOCKS_PER_CHUNK, Lo(start, c - 1), Hi(|chunks|, stop, c - 1))
  }

  function AllListed(chunks: seq<Chunk>, start: nat, stop: nat): seq<nat>
    requires AllValidChunks(chunks)
  {
    Listed(chunks, start, stop, StopChunk(|chunks|, stop))
  }

  /** A call stays inside the chunks and inside the array: it does if no loop runs past a bitmap and the
      array has a place or needs none; and if a loop would run past a bitmap, it does if the array is
      full before that. */
  predicate StaysInside(chunks: seq<Chunk>, start: nat, stop: nat, nblocks: nat)
    requires AllValidChunks(chunks)
  {
    var found := |AllListed(chunks, start, stop)|;
    if WithinBitmaps(chunks, start, stop) then 0 < nblocks || found == 0 else 0 < nblocks <= found
  }

  // ----- the list is the set -----

  lemma {:induction false} BitListMeaning(data: seq<Word>, base: nat, lo: nat, hi: nat, x: nat)
    requires |data| == MAX_ENTRIES_PER_CHUNK && hi <= BLOCKS_PER_CHUNK
    ensures x in BitList(data, base, lo, hi) <==> base + lo <= x < base + hi && BitAt(data, x - base)
    ensures Distinct(BitList(data, base, lo, hi))
  {
    hide BitAt;
    if lo < hi {
      BitListMeaning(data, base, lo, hi - 1, x);
      BitListMeaning(data, base, lo, hi - 1, base + hi - 1);
    }
  }

  lemma {:induction false} ArrayListMeaning(offsets: seq<Word>, base: nat, lo: nat, hi: nat, x: nat)
    requires Distinct(offsets)
    ensures x in ArrayList(offsets, base, lo, hi) <==> base + lo <= x < base + hi && x - base in offsets
    ensures Distinct(ArrayList(offsets, base, lo, hi))
  {
    if offsets != [] {
      var front, o := offsets[..|offsets| - 1], offsets[|offsets| - 1];
      assert offsets == front + [o];
      ArrayListMeaning(front, base, lo, hi, x);
      ArrayListMeaning(front, base, lo, hi, base + o);
    }
  }

  lemma ChunkListMeaning(c: Chunk, base: nat, lo: nat, hi: nat, x: nat)
    requires ValidChunk(c)
    ensures x in ChunkList(c, base, lo, hi) <==> base + lo <= x < base + hi && Has(c, x - base)
    ensures Distinct(ChunkList(c, base, lo, hi))
  {
    hide BitList, ArrayList, BitAt;
    if c.usage == MAX_ENTRIES_PER_CHUNK {
      BitListMeaning(c.data, base, lo, Top(hi), x);
    } else {
      ArrayListMeaning(c.data[..c.usage], base, lo, hi, x);
    }
  }

  lemma ValidFits(c: Chunk)
    requires ValidChunk(c)
    ensures c.usage <= |c.data| && (c.usage == MAX_ENTRIES_PER_CHUNK ==> |c.data| == MAX_ENTRIES_PER_CHUNK)
  {}

  lemma HasIsSmall(c: Chunk, o: nat)
    requires ValidChunk(c) && Has(c, o)
    ensures o < BLOCKS_PER_CHUNK
  {}

  /** Block `x` is recorded in the chunks. */
  ghost predicate InChunks(chunks: seq<Chunk>, x: nat)
    requires AllValidChunks(chunks)
  {
    x / BLOCKS_PER_CHUNK < |chunks| && Has(chunks[x / BLOCKS_PER_CHUNK], x % BLOCKS_PER_CHUNK)
  }

  /** The blocks listed up to chunk `c` are those recorded in the range and below that chunk. */
  lemma {:induction false} ListedMembers(chunks: seq<Chunk>, start: nat, stop: nat, c: nat, x: nat)
    requires AllValidChunks(chunks) && c <= StopChunk(|chunks|, stop)
    ensures x in Listed(chunks, start, stop, c) <==>
            start <= x < stop && x < c * BLOCKS_PER_CHUNK && InChunks(chunks, x)
  {
    hide ValidChunk, Has, ChunkList;
    if start / BLOCKS_PER_CHUNK < c {
      var d := c - 1;
      var base, lo, hi := d * BLOCKS_PER_CHUNK, Lo(start, d), Hi(|chunks|, stop, d);
      ValidFits(chunks[d]);
      ListedMembers(chunks, start, stop, d, x);
      ChunkListMeaning(chunks[d], base, lo, hi, x);
      if base <= x && Has(chunks[d], x - base) {
        HasIsSmall(chunks[d], x - base);
      }
    }
  }

  lemma {:induction false} ListedOnce(chunks: seq<Chunk>, start: nat, stop: nat, c: nat)
    requires AllValidChunks(chunks) && c <= StopChunk(|chunks|, stop)
    ensures Distinct(Listed(chunks, start, stop, c))
  {
    hide ValidChunk, Has, ChunkList, InChunks;
    if start / BLOCKS_PER_CHUNK < c {
      var d := c - 1;
      var base, lo, hi := d * BLOCKS_PER_CHUNK, Lo(start, d), Hi(|chunks|, stop, d);
      ValidFits(chunks[d]);
      ListedOnce(chunks, start, stop, d);
      ChunkListMeaning(chunks[d], base, lo, hi, 0);
      var below, more := Listed(chunks, start, stop, d), ChunkList(chunks[d], base, lo, hi);
      forall i, j | 0 <= i < |below| && 0 <= j < |more|
        ensures below[i] != more[j]
      {
        ListedMembers(chunks, start, stop, d, below[i]);
        ChunkListMeaning(chunks[d], base, lo, hi, more[j]);
      }
    }
  }

  /** The whole list: every recorded block of the range, exactly once. */
  lemma AllListedMeaning(chunks: seq<Chunk>, start: nat, stop: nat, x: nat)
    requires AllValidChunks(chunks)
    ensures x in AllListed(chunks, start, stop) <==> start <= x < stop && InChunks(chunks, x)
    ensures Distinct(AllListed(chunks, start, stop))
  {
    hide ValidChunk, Has;
    ListedMembers(chunks, start, stop, StopChunk(|chunks|, stop), x);
    ListedOnce(chunks, start, stop, StopChunk(|chunks|, stop));
  }

  /** Sixteen chunks, the last of them a bitmap without a bit, and a stop behind them: the loop would test
      65537 bits of it, and no array fills up before. */
  lemma BitmapIsPassed(zeros: seq<Word>, chunks: seq<Chunk>, nblocks: nat)
    requires |zeros| == MAX_ENTRIES_PER_CHUNK && forall i :: 0 <= i < |zeros| ==> zeros[i] == 0
    requires chunks == seq(15, _ => Chunk(0, 0, [])) + [Chunk(MAX_ENTRIES_PER_CHUNK, MAX_ENTRIES_PER_CHUNK, zeros)]
    ensures AllValidChunks(chunks)
    ensures Hi(|chunks|, 16 * BLOCKS_PER_CHUNK + 1, 15) == BLOCKS_PER_CHUNK + 1
    ensures !StaysInside(chunks, 0, 16 * BLOCKS_PER_CHUNK + 1, nblocks)
  {
    hide Listed, Bit;
    var stop := 16 * BLOCKS_PER_CHUNK + 1;
    var list := AllListed(chunks, 0, stop);
    EmptyBitmap(zeros);
    forall x: nat
      ensures x !in list
    {
      AllListedMeaning(chunks, 0, stop, x);
    }
    AllListedMeaning(chunks, 0, stop, 0);
    DistinctSize(list, {});
  }

  // ----- the loops -----

  lemma {:induction false} BitListPrefix(data: seq<Word>, base: nat, lo: nat, o: nat, hi: nat)
    requires |data| == MAX_ENTRIES_PER_CHUNK && o <= hi <= BLOCKS_PER_CHUNK
    ensures BitList(data, base, lo, o) <= BitList(data, base, lo, hi)
  {
    hide BitAt;
    if o < hi {
      BitListPrefix(data, base, lo, o, hi - 1);
    }
  }

  lemma NextBit(data: seq<Word>, base: nat, lo: nat, o: nat, hi: nat)
    requires |data| == MAX_ENTRIES_PER_CHUNK && lo <= o < hi <= BLOCKS_PER_CHUNK
    ensures BitList(data, base, lo, o + 1) == BitList(data, base, lo, o) + if BitAt(data, o) then [base + o] else []
    ensures BitList(data, base, lo, o + 1) <= BitList(data, base, lo, hi)
  {
    hide BitAt;
    BitListPrefix(data, base, lo, o + 1, hi);
  }

  lemma NoBits(data: seq<Word>, base: nat, lo: nat)
    requires |data| == MAX_ENTRIES_PER_CHUNK
    ensures forall hi: nat :: hi <= BLOCKS_PER_CHUNK && hi <= lo ==> BitList(data, base, lo, hi) == []
  {}

  lemma {:induction false} ArrayListPrefix(offsets: seq<Word>, n: nat, base: nat, lo: nat, hi: nat)
    requires n <= |offsets|
    ensures ArrayList(offsets[..n], base, lo, hi) <= ArrayList(offsets, base, lo, hi)
  {
    if n < |offsets| {
      var front := offsets[..|offsets| - 1];
      assert front[..n] == offsets[..n];
      ArrayListPrefix(front, n, base, lo, hi);
    } else {
      assert offsets[..n] == offsets;
    }
  }

  /** The first `room` results. */
  function Cut(all: seq<nat>, room: nat): seq<nat>
  {
    if |all| < room then all else all[..room]
  }

  lemma FullCut(front: seq<nat>, list: seq<nat>, all: seq<nat>, room: nat)
    requires list <= all && |front| + |list| == room
    ensures Cut(front + all, room) == front + list
  {}

  /** Lists the set bits of `lo..hi` behind the first `n` results; stops when the array is full, which it is
      before the end of the bitmap if the range does not end there. */
  method ListBits(data: seq<Word>, base: nat, lo: nat, hi: nat, blocks: array<BlockNumber>, room: nat, n: nat)
      returns (m: nat)
    requires |data| == MAX_ENTRIES_PER_CHUNK && lo < BLOCKS_PER_CHUNK
    requires HasRoom(|BitList(data, base, lo, Top(hi))|, n, room)
    requires hi <= BLOCKS_PER_CHUNK || 0 < room <= n + |BitList(data, base, lo, Top(hi))|
    requires room <= blocks.Length && base + BLOCKS_PER_CHUNK <= 0x1_0000_0000
    modifies blocks
    ensures m <= blocks.Length && blocks[..m] == Cut(old(blocks[..n]) + BitList(data, base, lo, Top(hi)), room)
  {
    hide BitAt, BitList, Cut;
    NoBits(data, base, lo);
    ghost var front := blocks[..n];
    ghost var list, all := [], BitList(data, base, lo, Top(hi));
    m := n;
    var o := lo;
    while o < hi
      invariant lo <= o <= BLOCKS_PER_CHUNK && (o <= Top(hi) || o == lo) && n <= m && HasRoom(|all|, m, room)
      invariant list == BitList(data, base, lo, o)
      invariant blocks[..m] == front + list
      decreases hi - o
    {
      assert |blocks[..m]| == n + |list|;
      assert o < Top(hi);
      ghost var next := BitList(data, base, lo, o + 1);
      NextBit(data, base, lo, o, Top(hi));
      if BitAt(data, o) {
        blocks[m] := base + o;
        m := m + 1;
        assert blocks[..m] == front + next;
        if m == room {
          FullCut(front, next, all, room);
          return;
        }
      }
      list := next;
      o := o + 1;
    }
    NotFull(front + all, room);
  }

  /** The array has a place left, or there is nothing to list and none is needed. */
  predicate HasRoom(found: nat, n: nat, room: nat)
  {
    n < room || (n == 0 && room == 0 && found == 0)
  }

  lemma NotFull(all: seq<nat>, room: nat)
    requires |all| < room || all == []
    ensures Cut(all, room) == all
  {}

  /** Lists the offsets in `lo..hi` of an array in the same way. */
  method ListArray(offsets: seq<Word>, base: nat, lo: nat, hi: nat, blocks: array<BlockNumber>, room: nat, n: nat)
      returns (m: nat)
    requires HasRoom(|ArrayList(offsets, base, lo, hi)|, n, room)
    requires room <= blocks.Length && base + BLOCKS_PER_CHUNK <= 0x1_0000_0000
    modifies blocks
    ensures m <= blocks.Length && blocks[..m] == Cut(old(blocks[..n]) + ArrayList(offsets, base, lo, hi), room)
  {
    hide Cut;
    ghost var front := blocks[..n];
    ghost var list, all := [], ArrayList(offsets, base, lo, hi);
    m := n;
    assert offsets[..0] == [];
    for i := 0 to |offsets|
      invariant n <= m && HasRoom(|all|, m, room)
      invariant list == ArrayList(offsets[..i], base, lo, hi)
      invariant blocks[..m] == front + list
    {
      ghost var next := ArrayList(offsets[..i + 1], base, lo, hi);
      assert offsets[..i + 1][..i] == offsets[..i];
      ArrayListPrefix(offsets, i + 1, base, lo, hi);
      if offsets[i] >= lo && offsets[i] < hi {
        assert next == list + [base + offsets[i]];
        blocks[m] := base + offsets[i];
        m := m + 1;
        assert blocks[..m] == front + next;
        if m == room {
          FullCut(front, next, all, room);
          return;
        }
      }
      list := next;
    }
    assert offsets[..|offsets|] == offsets;
    NotFull(front + all, room);
  }

  /** Lists one chunk, in either representation. */
  method ListChunk(c: Chunk, base: nat, lo: nat, hi: nat, blocks: array<BlockNumber>, room: nat, n: nat) returns (m: nat)
    requires c.usage <= |c.data| && lo < BLOCKS_PER_CHUNK
    requires c.usage == MAX_ENTRIES_PER_CHUNK ==> |c.data| == MAX_ENTRIES_PER_CHUNK
    requires HasRoom(|ChunkList(c, base, lo, hi)|, n, room)
    requires c.usage == MAX_ENTRIES_PER_CHUNK ==> hi <= BLOCKS_PER_CHUNK || 0 < room <= n + |ChunkList(c, base, lo, hi)|
    requires room <= blocks.Length && base + BLOCKS_PER_CHUNK <= 0x1_0000_0000
    modifies blocks
    ensures m <= blocks.Length && blocks[..m] == Cut(old(blocks[..n]) + ChunkList(c, base, lo, hi), room)
  {
    hide BitList, ArrayList, Cut;
    if c.usage == MAX_ENTRIES_PER_CHUNK {
      m := ListBits(c.data, base, lo, hi, blocks, room, n);
    } else {
      m := ListArray(c.data[..c.usage], base, lo, hi, blocks, room, n);
    }
  }

  lemma {:induction false} ListedPrefix(chunks: seq<Chunk>, start: nat, stop: nat, c: nat, d: nat)
    requires AllValidChunks(chunks) && c <= d <= StopChunk(|chunks|, stop)
    ensures Listed(chunks, start, stop, c) <= Listed(chunks, start, stop, d)
  {
    hide ChunkList, ValidChunk;
    if c < d {
      ListedPrefix(chunks, start, stop, c, d - 1);
    }
  }

  /** One chunk of the range: what it adds to the list, and how its part of the list is cut. */
  lemma ListedStep(chunks: seq<Chunk>, start: nat, stop: nat, c: nat, lo: nat, hi: int, room: nat)
    requires AllValidChunks(chunks) && StaysInside(chunks, start, stop, room)
    requires start / BLOCKS_PER_CHUNK <= c < StopChunk(|chunks|, stop)
    requires lo == Lo(start, c)
    requires hi == if c == StopChunk(|chunks|, stop) - 1 then stop - c * BLOCKS_PER_CHUNK else BLOCKS_PER_CHUNK
    requires |Listed(chunks, start, stop, c)| < room || room == 0
    ensures chunks[c].usage <= |chunks[c].data| && 0 <= hi
    ensures chunks[c].usage == MAX_ENTRIES_PER_CHUNK ==> |chunks[c].data| == MAX_ENTRIES_PER_CHUNK
    ensures var n, more := |Listed(chunks, start, stop, c)|, |ChunkList(chunks[c], c * BLOCKS_PER_CHUNK, lo, hi)|;
            && HasRoom(more, n, room)
            && (chunks[c].usage == MAX_ENTRIES_PER_CHUNK ==> hi <= BLOCKS_PER_CHUNK || 0 < room <= n + more)
    ensures var next := Listed(chunks, start, stop, c) + ChunkList(chunks[c], c * BLOCKS_PER_CHUNK, lo, hi);
            var all := AllListed(chunks, start, stop);
            && next == Listed(chunks, start, stop, c + 1)
            && (if 0 < room == |Cut(next, room)| then |all| >= room && Cut(next, room) == all[..room]
                else Cut(next, room) == next && (|next| < room || room == 0))
  {
    hide ChunkList, ValidChunk;
    WithinBitmapsExactly(chunks, start, stop);
    ValidFits(chunks[c]);
    ListedPrefix(chunks, start, stop, c + 1, StopChunk(|chunks|, stop));
  }

  /** Lists the modified blocks of `start..stop`.  The result is 0 and `count` the number of blocks if
      there is room for more of them; if the array fills up, the result is its size and `count`
      keeps the value it had. */
  method GetBlocks(entry: Entry, start: BlockNumber, stop: BlockNumber, blocks: array<BlockNumber>, nblocks: nat, count0: int)
      returns (r: int, count: int)
    requires entry.Valid() && nblocks <= blocks.Length
    requires StaysInside(entry.Chunks(), start, stop, nblocks)
    modifies blocks
    ensures var all := AllListed(entry.Chunks(), start, stop);
            if |all| < nblocks || nblocks == 0 then r == 0 && count == |all| && blocks[..count] == all
            else r == nblocks && count == count0 && blocks[..nblocks] == all[..nblocks]
  {
    hide Cut, ChunkList, ValidChunk, WithinBitmaps, Listed;
    ghost var chunks := entry.Chunks();
    var startChunk := start / BLOCKS_PER_CHUNK;
    var stopChunk := stop / BLOCKS_PER_CHUNK;
    if stop % BLOCKS_PER_CHUNK != 0 {
      stopChunk := stopChunk + 1;
    }
    if stopChunk > entry.nchunks {
      stopChunk := entry.nchunks;
    }
    assert stopChunk == StopChunk(|chunks|, stop);
    hide StopChunk, StaysInside;
    NothingListed(chunks, start, stop);
    NothingNeeded(chunks, start, stop, nblocks);
    var n: nat, c: nat := 0, startChunk;
    while c < stopChunk
      invariant startChunk <= c && (n < nblocks || nblocks == 0)
      invariant n <= blocks.Length && (c <= stopChunk || c == startChunk)
      invariant blocks[..n] == if c <= stopChunk then Listed(chunks, start, stop, c) else []
    {
      var lo := if c == startChunk then start % BLOCKS_PER_CHUNK else 0;
      var hi := if c == stopChunk - 1 then stop - c * BLOCKS_PER_CHUNK else BLOCKS_PER_CHUNK;
      ListedStep(chunks, start, stop, c, lo, hi, nblocks);
      n := ListChunk(entry.ChunkAt(c), c * BLOCKS_PER_CHUNK, lo, hi, blocks, nblocks, n);
      if 0 < nblocks && n == nblocks {
        return n, count0;
      }
      c := c + 1;
    }
    return 0, n;
  }

  lemma NothingNeeded(chunks: seq<Chunk>, start: nat, stop: nat, nblocks: nat)
    requires AllValidChunks(chunks) && StaysInside(chunks, start, stop, nblocks)
    ensures nblocks == 0 ==> AllListed(chunks, start, stop) == []
  {}

  lemma NothingListed(chunks: seq<Chunk>, start: nat, stop: nat)
    requires AllValidChunks(chunks)
    ensures start / BLOCKS_PER_CHUNK <= StopChunk(|chunks|, stop) ==>
              Listed(chunks, start, stop, start / BLOCKS_PER_CHUNK) == []
    ensures start / BLOCKS_PER_CHUNK >= StopChunk(|chunks|, stop) ==> AllListed(chunks, start, stop) == []
  {}

  lemma {:induction false} DistinctSize(s: seq<nat>, all: set<nat>)
    requires Distinct(s) && forall x :: x in s <==> x in all
    ensures |s| == |all|
  {
    if s == [] {
      assert all == {};
    } else {
      var front, x := s[..|s| - 1], s[|s| - 1];
      assert s == front + [x];
      DistinctSize(front, all - {x});
    }
  }

  /** The list of an entry is its set of modified blocks in the range, each exactly once; so there is
      room exactly when there are fewer such blocks than places. */
  lemma ListIsBlocks(entry: Entry, start: BlockNumber, stop: BlockNumber)
    requires entry.Valid()
    ensures var list := AllListed(entry.Chunks(), start, stop);
            var inRange := set b | b in entry.Blocks() && start <= b < stop;
            Distinct(list) && (forall x :: x in list <==> x in inRange) && |list| == |inRange|
  {
    var list := AllListed(entry.Chunks(), start, stop);
    var inRange := set b | b in entry.Blocks() && start <= b < stop;
    AllListedMeaning(entry.Chunks(), start, stop, 0);
    forall x: nat
      ensures x in list <==> x in inRange
    {
      AllListedMeaning(entry.Chunks(), start, stop, x);
    }
    DistinctSize(list, inRange);
  }

  // ----- an array of just the right size -----

  lemma {:induction false} RangeSize(start: nat, stop: nat, all: set<nat>)
    requires start <= stop && forall x: nat :: x in all <==> start <= x < stop
    ensures |all| == stop - start
    decreases stop - start
  {
    if start == stop {
      assert all == {};
    } else {
      RangeSize(start + 1, stop, all - {start});
    }
  }

  /** For a range whose blocks are all modified, an array of the size of the range fills up with the last
      block: the blocks are all there, and the result is that of a failure. */
  lemma FullRange(entry: Entry, start: BlockNumber, stop: BlockNumber)
    requires entry.Valid() && start < stop && forall b: nat :: start <= b < stop ==> b in entry.Blocks()
    ensures |AllListed(entry.Chunks(), start, stop)| == stop - start
    ensures StaysInside(entry.Chunks(), start, stop, stop - start)
  {
    hide AllListed, WithinBitmaps;
    ListIsBlocks(entry, start, stop);
    RangeSize(start, stop, set b | b in entry.Blocks() && start <= b < stop);
  }

  /** One marked block and an array with one place: the block is listed, the result is 1 instead of 0, and
      the count is not set. */
  method ExactFitFails(count0: int) returns (blocks: array<BlockNumber>, r: int, count: int)
    ensures fresh(blocks) && blocks[..] == [7] && r == 1 && count == count0
  {
    hide AllListed, StaysInside;
    var entry := new Entry(Key(1663, 5, 16384, 0), InvalidBlockNumber);
    entry.MarkBlockModified(7);
    blocks := new BlockNumber[1];
    FullRange(entry, 7, 8);
    r, count := GetBlocks(entry, 7, 8, blocks, 1, count0);
    OnlyBlock(entry);
    assert blocks[..1] == blocks[..];
  }

  lemma OnlyBlock(entry: Entry)
    requires entry.Valid() && entry.HasBlock(7)
    ensures |AllListed(entry.Chunks(), 7, 8)| == 1 ==> AllListed(entry.Chunks(), 7, 8) == [7]
  {
    hide AllListed;
    AllListedMeaning(entry.Chunks(), 7, 8, 7);
  }
}
