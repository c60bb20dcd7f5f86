/** Reading a block reference table back (src/libpgmoneta/brt.c). */
module BrtRead {
  import opened Bytes
  import opened BrtChunk
  import opened BrtEntry
  import opened BrtKey
  import opened BrtListing
  import opened BrtTable
  import opened BrtStream
  import opened BrtPlan
  import opened BrtFormat

  const BLOCKS_PER_READ := 512

  /** `bytes` is all that the reader has still to deliver, and the next requests of the plan are safe. */
  ghost predicate Serves(r: Reader, bytes: seq<Byte>, plan: seq<Request>)
    reads r, r.data
  {
    && r.Valid() && r.At().pending + r.At().rest == bytes
    && ValidRequests(plan) && Total(plan) <= |r.At().pending| + |r.At().rest| && AllSafe(r.At(), plan)
  }

  /** What lies behind an item: the bytes, the requests, and the chunk data when they are made. */
  datatype Tail = Tail(bytes: seq<Byte>, plan: seq<Request>, buf: seq<Word>)

  ghost function TailOf(buf: seq<Word>, items: seq<Item>, more: seq<Byte>, plan: seq<Request>): Tail
    requires |buf| == MAX_ENTRIES_PER_CHUNK && ValidItems(items) && items != []
  {
    var next := BufAfter(buf, items[0].chunks);
    Tail(ItemsThen(items[1..], more), ItemsPlan(next, items[1..], plan), next)
  }

  /** One safe request. */
  method Take(r: Reader, dest: array<Byte>, ghost q: Request, ghost bytes: seq<Byte>, ghost more: seq<Byte>,
              ghost plan: seq<Request>)
      returns (b: seq<Byte>)
    requires Serves(r, bytes + more, [q] + plan) && |bytes| == q.length && Provides(dest[..], q) && dest != r.data
    modifies r, r.data, dest
    ensures Serves(r, more, plan) && b == bytes
    ensures q.length <= old(r.Held()) ==> r.Held() == old(r.Held()) - q.length
    ensures old(r.Held()) == 0 < q.length < BUFFER_SIZE <= old(r.Left()) ==> r.Held() == BUFFER_SIZE - q.length
  {
    hide Read, PendingAfter, After;
    ghost var p := r.At();
    HeldAfter(|p.pending|, |p.rest|, q.length);
    assert ([q] + plan)[1..] == plan;
    assert (bytes + more)[..q.length] == bytes && (bytes + more)[q.length..] == more;
    SizeAfter(p, q.length);
    ReadMeaning(p, dest[..], q.length);
    var ok := r.ReadInto(dest, dest.Length);
    b := dest[..];
  }

  /** A request that the buffer holds, and one into the empty buffer. */
  lemma HeldAfter(pending: nat, rest: nat, length: nat)
    requires length <= pending + rest
    ensures length <= pending ==> PendingAfter(pending, rest, length) == pending - length
    ensures pending == 0 < length < BUFFER_SIZE <= rest ==> PendingAfter(pending, rest, length) == BUFFER_SIZE - length
  {}

  /** One request into uninitialised memory. */
  method TakeNew(r: Reader, n: nat, ghost bytes: seq<Byte>, ghost more: seq<Byte>, ghost plan: seq<Request>)
      returns (b: seq<Byte>)
    requires Serves(r, bytes + more, [Unknown(n)] + plan) && |bytes| == n
    modifies r, r.data
    ensures Serves(r, more, plan) && b == bytes
    ensures n <= old(r.Held()) ==> r.Held() == old(r.Held()) - n
    ensures old(r.Held()) == 0 < n < BUFFER_SIZE <= old(r.Left()) ==> r.Held() == BUFFER_SIZE - n
  {
    var dest := new Byte[n];
    b := Take(r, dest, Unknown(n), bytes, more, plan);
  }

  /** The scan of one relation fork: its chunk sizes, the current chunk and the place in it. */
  class TableReader {
    const reader: Reader
    var totalChunks: nat
    var consumedChunks: nat
    var chunkSize: seq<nat>
    var chunkData: seq<Word>
    var chunkPosition: nat

    constructor (file: seq<Byte>)
      ensures fresh(reader) && fresh(reader.data) && reader.Valid() && reader.At() == Pos([], file)
      ensures chunkData == EmptyBuf()
    {
      reader := new Reader(file);
      totalChunks, consumedChunks, chunkSize, chunkPosition := 0, 0, [], 0;
      chunkData := EmptyBuf();
    }

    /** The scan is inside `item`, which the tail follows in the file. */
    ghost predicate Scanning(item: Item, tail: Tail)
      reads this, reader, reader.data
    {
      && ValidItem(item) && |chunkData| == MAX_ENTRIES_PER_CHUNK
      && chunkSize == Usages(item.chunks) && totalChunks == |item.chunks| && consumedChunks <= totalChunks
      && Serves(reader, ChunkBytes(item.chunks[consumedChunks..]) + tail.bytes,
                ChunkPlan(chunkData, item.chunks[consumedChunks..]) + tail.plan)
      && BufAfter(chunkData, item.chunks[consumedChunks..]) == tail.buf
      && (0 < consumedChunks ==>
            var chunk := item.chunks[consumedChunks - 1];
            chunkData[..|chunk|] == chunk && chunkPosition <= Extent(chunk))
    }

    ghost predicate Fits(item: Item)
      reads this
    {
      && ValidItem(item) && consumedChunks <= |item.chunks|
      && (0 < consumedChunks ==> chunkPosition <= Extent(item.chunks[consumedChunks - 1]))
    }

    /** What the scan has delivered of `item` so far. */
    ghost function Delivered(item: Item): seq<nat>
      requires Fits(item)
      reads this
    {
      if consumedChunks == 0 then []
      else BlockList(item.chunks, consumedChunks - 1)
           + BlocksUpTo(item.chunks[consumedChunks - 1], consumedChunks - 1, chunkPosition)
    }

    /** Reads the next header and the sizes of its chunks; false at the terminator. */
    method ReadNextRelation(ghost items: seq<Item>, ghost more: seq<Byte>, ghost plan: seq<Request>)
        returns (found: bool, key: Key, limit: BlockNumber)
      requires ValidItems(items) && |chunkData| == MAX_ENTRIES_PER_CHUNK
      requires items == [] ==> more == Zeros(HEADER_SIZE) && plan == [Unknown(HEADER_SIZE)]
      requires Serves(reader, ItemsThen(items, more), ItemsPlan(chunkData, items, plan))
      modifies this, reader, reader.data
      ensures found <==> items != [] && !IsZero(items[0])
      ensures found ==> key == items[0].key && limit == items[0].limit
      ensures found ==> Scanning(items[0], TailOf(old(chunkData), items, more, plan)) && Fits(items[0])
      ensures found ==> Delivered(items[0]) == []
      ensures found && items[0].chunks == [] && HEADER_SIZE <= old(reader.Held()) ==>
                reader.Held() == old(reader.Held()) - HEADER_SIZE
    {
      hide ToBytes, FromBytes, HeaderBytes, WordBytes, ChunkBytes, ChunkPlan, AllSafe, Usages, WordsOf, BufAfter;
      hide ItemsThen, ItemsPlan;
      hide Serves;
      key, limit := Key(0, 0, 0, 0), 0;
      ghost var header, rest, requests := NextHeader(chunkData, items, more, plan);
      var b := TakeNew(reader, HEADER_SIZE, header, rest, requests);
      if items != [] {
        ZeroHeader(items[0]);
        HeaderRoundTrip(items[0]);
      }
      if b == Zeros(HEADER_SIZE) {
        return false, key, limit;
      }
      var n := FromBytes(b[20..24]);
      ghost var chunks, tail := items[0].chunks, TailOf(chunkData, items, more, plan);
      var sizes := TakeNew(reader, 2 * n, WordBytes(Usages(chunks)), ChunkBytes(chunks) + tail.bytes,
                           ChunkPlan(chunkData, chunks) + tail.plan);
      UsageRoundTrip(items[0]);
      chunkSize := WordsOf(sizes);
      totalChunks := n;
      consumedChunks := 0;
      assert chunks[0..] == chunks;
      key := Key(FromBytes(b[0..4]), FromBytes(b[4..8]), FromBytes(b[8..12]), AsInt(FromBytes(b[12..16]) % 0x1_0000_0000));
      limit := FromBytes(b[16..20]);
      found := true;
    }

    /** Delivers up to `room` further blocks of the fork, reading its chunks as they are needed; fewer
        only when none are left. */
    method GetBlocks(room: nat, ghost item: Item, ghost tail: Tail) returns (blocks: seq<BlockNumber>)
      requires Scanning(item, tail) && Fits(item) && 0 < room
      modifies this, reader, reader.data
      ensures Scanning(item, tail) && Fits(item) && |blocks| <= room
      ensures Delivered(item) == old(Delivered(item)) + blocks
      ensures |blocks| < room ==> consumedChunks == totalChunks && Delivered(item) == BlockList(item.chunks, |item.chunks|)
      ensures totalChunks == old(totalChunks) && chunkSize == old(chunkSize)
      ensures item.chunks == [] ==> reader.Held() == old(reader.Held())
    {
      hide Reader.Held, Serves, BlocksUpTo, BlockList, ChunkBytes, ChunkPlan, BufAfter;
      ghost var before := Delivered(item);
      blocks := [];
      while true
        invariant Scanning(item, tail) && |blocks| <= room
        invariant Delivered(item) == before + blocks
        invariant totalChunks == old(totalChunks) && chunkSize == old(chunkSize)
        invariant item.chunks == [] ==> reader.Held() == old(reader.Held())
        decreases totalChunks - consumedChunks
      {
        if consumedChunks > 0 {
          var more := ScanCurrent(room - |blocks|, item, tail);
          blocks := blocks + more;
        }
        if |blocks| >= room {
          return;
        }
        if consumedChunks == totalChunks {
          AllDelivered(item);
          return;
        }
        NextChunk(item, tail);
      }
    }

    /** Delivers up to `room` further blocks of the current chunk; fewer only at its end. */
    method ScanCurrent(room: nat, ghost item: Item, ghost tail: Tail) returns (more: seq<BlockNumber>)
      requires Scanning(item, tail) && 0 < consumedChunks
      modifies `chunkPosition
      ensures Scanning(item, tail) && |more| <= room
      ensures Delivered(item) == old(Delivered(item)) + more
      ensures |more| < room ==> chunkPosition == Extent(item.chunks[consumedChunks - 1])
    {
      hide Serves, BlocksUpTo, BlockList, ChunkBytes, ChunkPlan, BufAfter;
      var c := consumedChunks - 1;
      var position: nat;
      ghost var chunk := item.chunks[c];
      ghost var done, upTo := BlockList(item.chunks, c), BlocksUpTo(chunk, c, chunkPosition);
      more, position := ScanChunk(chunkData, chunkSize[c], c, chunkPosition, room, chunk);
      assert done + (upTo + more) == (done + upTo) + more;
      chunkPosition := position;
    }

    /** Once the last chunk is scanned, all blocks are delivered. */
    lemma AllDelivered(item: Item)
      requires ValidItem(item) && consumedChunks == |item.chunks|
      requires 0 < consumedChunks ==> chunkPosition == Extent(item.chunks[consumedChunks - 1])
      ensures Delivered(item) == BlockList(item.chunks, |item.chunks|)
    {
      if 0 < consumedChunks {
        BlocksUpToAll(item.chunks[consumedChunks - 1], consumedChunks - 1);
      }
    }

    lemma DeliveredBound(item: Item, tail: Tail)
      requires Scanning(item, tail)
      ensures |Delivered(item)| <= |BlockList(item.chunks, |item.chunks|)|
    {
      hide Serves, BlocksUpTo, ChunkBytes, ChunkPlan, BufAfter;
      if 0 < consumedChunks {
        BlockListGrows(item.chunks, consumedChunks, |item.chunks|);
        BlocksUpToGrows(item.chunks[consumedChunks - 1], consumedChunks - 1, chunkPosition);
      }
    }

    lemma ScanDone(item: Item, tail: Tail)
      requires Scanning(item, tail) && consumedChunks == totalChunks
      ensures chunkData == tail.buf && |chunkData| == MAX_ENTRIES_PER_CHUNK && Serves(reader, tail.bytes, tail.plan)
    {
      hide Serves;
      var none := item.chunks[consumedChunks..];
      assert none == [];
      assert ChunkBytes(none) + tail.bytes == tail.bytes;
      assert ChunkPlan(chunkData, none) + tail.plan == tail.plan;
    }

    /** Reads the data of the next chunk, unless it is empty, and starts at its first place. */
    method NextChunk(ghost item: Item, ghost tail: Tail)
      requires Scanning(item, tail) && consumedChunks < totalChunks
      requires 0 < consumedChunks ==> chunkPosition == Extent(item.chunks[consumedChunks - 1])
      modifies this, reader, reader.data
      ensures Scanning(item, tail) && consumedChunks == old(consumedChunks) + 1
      ensures Delivered(item) == old(Delivered(item))
      ensures totalChunks == old(totalChunks) && chunkSize == old(chunkSize)
    {
      hide Serves, BlocksUpTo, ChunkBytes, ChunkPlan, BufAfter, WordBytes, BlockList, ChunkRequest, Put;
      var c := consumedChunks;
      ghost var chunk, rest := item.chunks[c], item.chunks[c + 1..];
      ghost var buf := Put(chunkData, chunk);
      ChunkFront(chunkData, item.chunks, c, tail.bytes, tail.plan);
      DeliveredNext(item, c);
      ReadChunk(chunkSize[c], chunk, ChunkBytes(rest) + tail.bytes, ChunkPlan(buf, rest) + tail.plan);
      consumedChunks := consumedChunks + 1;
      chunkPosition := 0;
    }

    /** Reads `size` words over the start of the chunk data; for an empty chunk no byte is read. */
    method ReadChunk(size: nat, ghost chunk: seq<Word>, ghost bytes: seq<Byte>, ghost plan: seq<Request>)
      requires size == |chunk| <= |chunkData|
      requires Serves(reader, WordBytes(chunk) + bytes, [ChunkRequest(chunkData, chunk)] + plan)
      modifies `chunkData, reader, reader.data
      ensures chunkData == Put(old(chunkData), chunk) && Serves(reader, bytes, plan)
    {
      hide Serves, WordBytes, WordsOf;
      if size > 0 {
        var memory := WordBytes(chunkData[..size]);
        var dest := new Byte[2 * size](i requires 0 <= i < |memory| => memory[i]);
        assert dest[..] == memory;
        var b := Take(reader, dest, ChunkRequest(chunkData, chunk), WordBytes(chunk), bytes, plan);
        WordsRoundTrip(chunk);
        chunkData := WordsOf(b) + chunkData[size..];
      } else {
        SkipNothing(reader, chunkData, chunk, bytes, plan);
        assert chunkData == Put(chunkData, chunk);
      }
    }
  }

  /** Nothing is lost between two chunks. */
  lemma DeliveredNext(item: Item, c: nat)
    requires ValidItem(item) && c < |item.chunks|
    ensures BlockList(item.chunks, 0) == []
    ensures BlockList(item.chunks, c) + BlocksUpTo(item.chunks[c], c, 0) == BlockList(item.chunks, c)
    ensures 0 < c ==> (
              BlockList(item.chunks, c) ==
              BlockList(item.chunks, c - 1) + BlocksUpTo(item.chunks[c - 1], c - 1, Extent(item.chunks[c - 1])))
  {
    BlocksUpToNothing(item.chunks[c], c);
    if 0 < c {
      BlocksUpToAll(item.chunks[c - 1], c - 1);
    }
  }

  lemma ChunkFront(buf: seq<Word>, chunks: seq<seq<Word>>, c: nat, bytes: seq<Byte>, plan: seq<Request>)
    requires |buf| == MAX_ENTRIES_PER_CHUNK && FitChunks(chunks) && c < |chunks|
    ensures ChunkBytes(chunks[c..]) + bytes == WordBytes(chunks[c]) + (ChunkBytes(chunks[c + 1..]) + bytes)
    ensures var next := Put(buf, chunks[c]);
            && ChunkPlan(buf, chunks[c..]) + plan == [ChunkRequest(buf, chunks[c])] + (ChunkPlan(next, chunks[c + 1..]) + plan)
            && BufAfter(buf, chunks[c..]) == BufAfter(next, chunks[c + 1..])
            && next[..|chunks[c]|] == chunks[c]
  {
    var here := chunks[c..];
    assert here[0] == chunks[c] && here[1..] == chunks[c + 1..];
    hide WordBytes, ChunkBytes, ChunkPlan, BufAfter;
    FirstChunk(buf, here);
    Behind(WordBytes(chunks[c]), ChunkBytes(chunks[c + 1..]), bytes);
    Behind([ChunkRequest(buf, chunks[c])], ChunkPlan(Put(buf, chunks[c]), chunks[c + 1..]), plan);
  }

  lemma Behind<T>(a: seq<T>, b: seq<T>, c: seq<T>)
    ensures (a + b) + c == a + (b + c)
  {}

  /** A request for nothing changes nothing. */
  lemma SkipNothing(r: Reader, buf: seq<Word>, chunk: seq<Word>, bytes: seq<Byte>, plan: seq<Request>)
    requires chunk == [] && Serves(r, WordBytes(chunk) + bytes, [ChunkRequest(buf, chunk)] + plan)
    ensures Serves(r, bytes, plan)
  {
    var p := r.At();
    assert WordBytes(chunk) + bytes == bytes;
    assert ([ChunkRequest(buf, chunk)] + plan)[1..] == plan;
    assert (p.pending + p.rest)[0..] == p.pending + p.rest;
    SameParts(After(p, 0), p);
  }

  // ----- the scan of the current chunk -----

  lemma BlocksUpToNothing(chunk: seq<Word>, c: nat)
    requires |chunk| <= MAX_ENTRIES_PER_CHUNK
    ensures BlocksUpTo(chunk, c, 0) == []
  {}

  lemma BlocksUpToStep(chunk: seq<Word>, c: nat, p: nat)
    requires |chunk| <= MAX_ENTRIES_PER_CHUNK && p < Extent(chunk)
    ensures BlocksUpTo(chunk, c, p + 1) == BlocksUpTo(chunk, c, p) +
            if |chunk| == MAX_ENTRIES_PER_CHUNK then (if BitAt(chunk, p) then [c * BLOCKS_PER_CHUNK + p] else [])
            else [c * BLOCKS_PER_CHUNK + chunk[p]]
  {
    if |chunk| != MAX_ENTRIES_PER_CHUNK {
      assert chunk[..p + 1][..p] == chunk[..p];
    }
  }

  lemma BlocksUpToAll(chunk: seq<Word>, c: nat)
    requires |chunk| <= MAX_ENTRIES_PER_CHUNK
    ensures BlocksUpTo(chunk, c, Extent(chunk)) == BlocksOf(chunk, c)
  {
    assert chunk[..|chunk|] == chunk;
  }

  lemma BlocksUpToGrows(chunk: seq<Word>, c: nat, p: nat)
    requires |chunk| <= MAX_ENTRIES_PER_CHUNK && p <= Extent(chunk)
    ensures |BlocksUpTo(chunk, c, p)| <= |BlocksOf(chunk, c)|
  {
    if |chunk| == MAX_ENTRIES_PER_CHUNK {
      assert chunk[..|chunk|] == chunk;
      BitListPrefix(chunk, c * BLOCKS_PER_CHUNK, 0, p, BLOCKS_PER_CHUNK);
    } else {
      assert chunk[..|chunk|] == chunk;
      ArrayListPrefix(chunk, p, c * BLOCKS_PER_CHUNK, 0, BLOCKS_PER_CHUNK);
    }
  }

  lemma {:induction false} BlockListGrows(chunks: seq<seq<Word>>, c: nat, d: nat)
    requires c <= d <= |chunks| && forall j :: 0 <= j < |chunks| ==> |chunks[j]| <= MAX_ENTRIES_PER_CHUNK
    ensures |BlockList(chunks, c)| <= |BlockList(chunks, d)|
  {
    hide BlocksOf;
    if c < d {
      BlockListGrows(chunks, c, d - 1);
    }
  }

  /** Delivers blocks of one chunk from place `p` on, up to `room` of them. */
  method ScanChunk(data: seq<nat>, size: nat, c: nat, p: nat, room: nat, ghost chunk: seq<Word>)
      returns (blocks: seq<BlockNumber>, q: nat)
    requires |data| == MAX_ENTRIES_PER_CHUNK && size == |chunk| <= |data| && data[..size] == chunk && p <= Extent(chunk)
    requires c < BLOCKS_PER_CHUNK
    ensures p <= q <= Extent(chunk) && |blocks| <= room
    ensures BlocksUpTo(chunk, c, q) == BlocksUpTo(chunk, c, p) + blocks
    ensures |blocks| < room ==> q == Extent(chunk)
  {
    hide BlocksUpTo, Bit;
    blocks, q := [], p;
    if size == MAX_ENTRIES_PER_CHUNK {
      assert data == chunk;
      while q < BLOCKS_PER_CHUNK && |blocks| < room
        invariant p <= q <= Extent(chunk) && |blocks| <= room
        invariant BlocksUpTo(chunk, c, q) == BlocksUpTo(chunk, c, p) + blocks
      {
        BlocksUpToStep(chunk, c, q);
        if Bit(data[q / BLOCKS_PER_ENTRY], q % BLOCKS_PER_ENTRY) {
          blocks := blocks + [c * BLOCKS_PER_CHUNK + q];
        }
        q := q + 1;
      }
    } else {
      while q < size && |blocks| < room
        invariant p <= q <= Extent(chunk) && |blocks| <= room
        invariant BlocksUpTo(chunk, c, q) == BlocksUpTo(chunk, c, p) + blocks
      {
        BlocksUpToStep(chunk, c, q);
        assert data[q] == data[..size][q] == chunk[q];
        blocks := blocks + [c * BLOCKS_PER_CHUNK + data[q]];
        q := q + 1;
      }
    }
  }

  lemma UsageRoundTrip(item: Item)
    requires ValidItem(item)
    ensures WordsOf(WordBytes(Usages(item.chunks))) == Usages(item.chunks)
  {
    WordsRoundTrip(Usages(item.chunks));
  }

  /** How the rest of the file starts: with the terminator or with the header of the next item. */
  lemma NextHeader(buf: seq<Word>, items: seq<Item>, more: seq<Byte>, plan: seq<Request>)
      returns (header: seq<Byte>, rest: seq<Byte>, requests: seq<Request>)
    requires |buf| == MAX_ENTRIES_PER_CHUNK && ValidItems(items)
    requires items == [] ==> more == Zeros(HEADER_SIZE) && plan == [Unknown(HEADER_SIZE)]
    ensures |header| == HEADER_SIZE && ItemsThen(items, more) == header + rest
    ensures ItemsPlan(buf, items, plan) == [Unknown(HEADER_SIZE)] + requests
    ensures items == [] ==> header == Zeros(HEADER_SIZE)
    ensures items != [] ==> (
              var chunks, tail := items[0].chunks, TailOf(buf, items, more, plan);
              && header == HeaderBytes(items[0])
              && rest == WordBytes(Usages(chunks)) + (ChunkBytes(chunks) + tail.bytes)
              && requests == [Unknown(2 * |chunks|)] + (ChunkPlan(buf, chunks) + tail.plan))
  {
    hide HeaderBytes, WordBytes, ChunkBytes, ChunkPlan, Usages, BufAfter;
    if items == [] {
      header, rest, requests := more, [], [];
      assert more + [] == more && plan + [] == plan;
    } else {
      var chunks, tail := items[0].chunks, TailOf(buf, items, more, plan);
      header := HeaderBytes(items[0]);
      rest := WordBytes(Usages(chunks)) + (ChunkBytes(chunks) + tail.bytes);
      requests := [Unknown(2 * |chunks|)] + (ChunkPlan(buf, chunks) + tail.plan);
      hide ItemsThen, ItemsPlan;
      FirstItem(buf, items, more, plan);
      ItemInFront(header, WordBytes(Usages(chunks)), ChunkBytes(chunks), tail.bytes);
    }
  }

  lemma FirstItem(buf: seq<Word>, items: seq<Item>, more: seq<Byte>, plan: seq<Request>)
    requires |buf| == MAX_ENTRIES_PER_CHUNK && ValidItems(items) && items != []
    ensures var chunks, tail := items[0].chunks, TailOf(buf, items, more, plan);
            && ItemsThen(items, more) == (HeaderBytes(items[0]) + (WordBytes(Usages(chunks)) + ChunkBytes(chunks))) + tail.bytes
            && ItemsPlan(buf, items, plan) ==
               [Unknown(HEADER_SIZE)] + ([Unknown(2 * |chunks|)] + (ChunkPlan(buf, chunks) + tail.plan))
  {
    hide HeaderBytes, WordBytes, ChunkBytes, ChunkPlan, Usages, BufAfter;
  }

  lemma ItemInFront(a: seq<Byte>, b: seq<Byte>, c: seq<Byte>, d: seq<Byte>)
    ensures (a + (b + c)) + d == a + (b + (c + d))
  {}

  /** The number of places to look at in a chunk. */
  function Extent(chunk: seq<Word>): nat
  {
    if |chunk| == MAX_ENTRIES_PER_CHUNK then BLOCKS_PER_CHUNK else |chunk|
  }

  /** The blocks found in the first `p` places of chunk `c`. */
  function BlocksUpTo(chunk: seq<Word>, c: nat, p: nat): seq<nat>
    requires |chunk| <= MAX_ENTRIES_PER_CHUNK && p <= Extent(chunk)
  {
    if |chunk| == MAX_ENTRIES_PER_CHUNK then BitList(chunk, c * BLOCKS_PER_CHUNK, 0, p)
    else ArrayList(chunk[..p], c * BLOCKS_PER_CHUNK, 0, BLOCKS_PER_CHUNK)
  }

  // ----- the whole file -----

  /** A table after marking a list of blocks of one fork. */
  ghost function MarkedAll(m: Contents, a: string, blocks: seq<nat>): Contents
  {
    if blocks == [] then m else Marked(MarkedAll(m, a, blocks[..|blocks| - 1]), a, blocks[|blocks| - 1])
  }

  lemma {:induction false} MarkedAllConcat(m: Contents, a: string, blocks: seq<nat>, more: seq<nat>)
    ensures MarkedAll(m, a, blocks + more) == MarkedAll(MarkedAll(m, a, blocks), a, more)
  {
    hide Marked;
    if more == [] {
      assert blocks + more == blocks;
    } else {
      var all := blocks + more;
      assert all[..|all| - 1] == blocks + more[..|more| - 1];
      MarkedAllConcat(m, a, blocks, more[..|more| - 1]);
    }
  }

  lemma {:induction false} MarkedAllMeaning(m: Contents, a: string, limit: BlockNumber, blocks: seq<nat>)
    ensures MarkedAll(m[a := Fork(limit, {})], a, blocks) == m[a := Fork(limit, BlockSet(blocks))]
  {
    if blocks == [] {
      assert BlockSet(blocks) == {};
    } else {
      var front, b := blocks[..|blocks| - 1], blocks[|blocks| - 1];
      MarkedAllMeaning(m, a, limit, front);
      assert blocks == front + [b];
      var forks := m[a := Fork(limit, BlockSet(front))];
      assert BlockSet(front) + {b} == BlockSet(blocks);
      assert MarkedAll(m[a := Fork(limit, {})], a, blocks) == Marked(forks, a, b);
      assert forks[a := Fork(limit, BlockSet(blocks))] == m[a := Fork(limit, BlockSet(blocks))];
    }
  }

  /** Marks every delivered block. */
  method MarkAll(t: Table, key: Key, blocks: seq<BlockNumber>)
    requires t.Valid()
    modifies t, t.entries.Values
    ensures t.Valid() && fresh(t.entries.Values - old(t.entries.Values))
    ensures t.Meaning() == MarkedAll(old(t.Meaning()), ArtKey(key), blocks)
  {
    hide ArtKey, Marked, Entry.Valid, Entry.Blocks, Entry.HasBlock, Table.Valid, Table.Meaning;
    ghost var m := t.Meaning();
    for i := 0 to |blocks|
      invariant t.Valid() && fresh(t.entries.Values - old(t.entries.Values))
      invariant t.Meaning() == MarkedAll(m, ArtKey(key), blocks[..i])
    {
      assert blocks[..i + 1][..i] == blocks[..i];
      t.MarkBlockModified(key, blocks[i]);
    }
    assert blocks[..|blocks|] == blocks;
  }

  /** Reads up to 512 blocks of a fork and marks them; false when none was left. */
  method LoadSome(t: Table, r: TableReader, key: Key, ghost start: Contents, ghost item: Item, ghost tail: Tail)
      returns (some: bool)
    requires t.Valid() && r.Scanning(item, tail) && r.Fits(item)
    requires t.Meaning() == MarkedAll(start, ArtKey(key), r.Delivered(item))
    modifies t, t.entries.Values, r, r.reader, r.reader.data
    ensures t.Valid() && fresh(t.entries.Values - old(t.entries.Values))
    ensures r.Scanning(item, tail) && r.Fits(item)
    ensures t.Meaning() == MarkedAll(start, ArtKey(key), r.Delivered(item))
    ensures some ==> |old(r.Delivered(item))| < |r.Delivered(item)| <= |BlockList(item.chunks, |item.chunks|)|
    ensures item.chunks == [] ==> r.reader.Held() == old(r.reader.Held())
    ensures !some ==> r.consumedChunks == r.totalChunks && r.Delivered(item) == BlockList(item.chunks, |item.chunks|)
  {
    hide ArtKey, Entry.Valid, Entry.Blocks, Table.Valid, Table.Meaning, TableReader.Scanning, TableReader.Delivered;
    hide Serves, MarkedAll, BlockList;
    ghost var before := r.Delivered(item);
    var blocks := r.GetBlocks(BLOCKS_PER_READ, item, tail);
    r.DeliveredBound(item, tail);
    MarkedAllConcat(start, ArtKey(key), before, blocks);
    NothingMarked(t.Meaning(), ArtKey(key));
    some := |blocks| > 0;
    if some {
      MarkAll(t, key, blocks);
    }
  }

  /** Reads the blocks of a fork and marks them. */
  method LoadBlocks(t: Table, r: TableReader, key: Key, ghost item: Item, ghost tail: Tail)
    requires t.Valid() && r.Scanning(item, tail) && r.Fits(item) && r.Delivered(item) == []
    modifies t, t.entries.Values, r, r.reader, r.reader.data
    ensures t.Valid() && fresh(t.entries.Values - old(t.entries.Values))
    ensures ValidItem(item)
    ensures t.Meaning() == MarkedAll(old(t.Meaning()), ArtKey(key), BlockList(item.chunks, |item.chunks|))
    ensures r.chunkData == tail.buf && |r.chunkData| == MAX_ENTRIES_PER_CHUNK && Serves(r.reader, tail.bytes, tail.plan)
    ensures item.chunks == [] ==> r.reader.Held() == old(r.reader.Held())
  {
    hide ArtKey, Entry.Valid, Entry.Blocks, Table.Valid, Table.Meaning, TableReader.Scanning, TableReader.Delivered;
    hide Serves, MarkedAll, BlockList;
    ghost var start := t.Meaning();
    NothingMarked(start, ArtKey(key));
    var some := true;
    while some
      invariant t.Valid() && fresh(t.entries.Values - old(t.entries.Values))
      invariant r.Scanning(item, tail) && r.Fits(item)
      invariant t.Meaning() == MarkedAll(start, ArtKey(key), r.Delivered(item))
      invariant item.chunks == [] ==> r.reader.Held() == old(r.reader.Held())
      invariant !some ==> r.consumedChunks == r.totalChunks && r.Delivered(item) == BlockList(item.chunks, |item.chunks|)
      decreases some, |BlockList(item.chunks, |item.chunks|)| - |r.Delivered(item)|
    {
      some := LoadSome(t, r, key, start, item, tail);
    }
    r.ScanDone(item, tail);
  }

  lemma NothingMarked(m: Contents, a: string)
    ensures MarkedAll(m, a, []) == m
  {}

  /** Loads one fork into a table that does not have it. */
  method LoadFork(t: Table, r: TableReader, key: Key, limit: BlockNumber, ghost item: Item, ghost tail: Tail)
    requires t.Valid() && ArtKey(key) !in t.Meaning() && key == item.key && limit == item.limit
    requires r.Scanning(item, tail) && r.Fits(item) && r.Delivered(item) == []
    modifies t, t.entries.Values, r, r.reader, r.reader.data
    ensures t.Valid() && fresh(t.entries.Values - old(t.entries.Values))
    ensures ValidItem(item) && t.Meaning() == old(t.Meaning())[ArtKey(key) := ForkOf(item)]
    ensures r.chunkData == tail.buf && |r.chunkData| == MAX_ENTRIES_PER_CHUNK && Serves(r.reader, tail.bytes, tail.plan)
    ensures item.chunks == [] ==> r.reader.Held() == old(r.reader.Held())
  {
    hide ArtKey, Entry.Valid, Entry.Blocks, Table.Valid, Table.Meaning, TableReader.Scanning, TableReader.Delivered;
    hide Serves, MarkedAll, Marked;
    LimitedFresh(t.Meaning(), ArtKey(key), limit);
    ghost var m := t.Meaning();
    t.SetLimitBlock(key, limit);
    LoadBlocks(t, r, key, item, tail);
    MarkedAllMeaning(m, ArtKey(key), limit, BlockList(item.chunks, |item.chunks|));
  }

  /** One round of the loop over the forks: loads the next fork, or stops at the terminator. */
  method LoadNext(t: Table, r: TableReader, ghost i: nat, ghost items: seq<Item>, ghost more: seq<Byte>, ghost plan: seq<Request>)
      returns (found: bool)
    requires t.Valid() && ValidItems(items) && DistinctKeys(items) && i <= |items| && t.Meaning() == MeaningOf(items[..i])
    requires i == |items| ==> more == Zeros(HEADER_SIZE) && plan == [Unknown(HEADER_SIZE)]
    requires |r.chunkData| == MAX_ENTRIES_PER_CHUNK
    requires Serves(r.reader, ItemsThen(items[i..], more), ItemsPlan(r.chunkData, items[i..], plan))
    modifies t, t.entries.Values, r, r.reader, r.reader.data
    ensures t.Valid() && fresh(t.entries.Values - old(t.entries.Values))
    ensures found <==> i < |items| && !IsZero(items[i])
    ensures !found ==> t.Meaning() == MeaningOf(items[..i])
    ensures found ==> t.Meaning() == MeaningOf(items[..i + 1]) && |r.chunkData| == MAX_ENTRIES_PER_CHUNK
    ensures found ==> Serves(r.reader, ItemsThen(items[i + 1..], more), ItemsPlan(r.chunkData, items[i + 1..], plan))
    ensures found && items[i].chunks == [] && HEADER_SIZE <= old(r.reader.Held()) ==>
              r.reader.Held() == old(r.reader.Held()) - HEADER_SIZE
  {
    hide ArtKey, Entry.Valid, Entry.Blocks, Table.Valid, Table.Meaning, TableReader.Scanning, TableReader.Delivered;
    hide Serves, ItemsThen, ItemsPlan, BufAfter, ForkOf, IsZero, MeaningOf, DistinctKeys;
    ghost var buf := r.chunkData;
    var key, limit;
    found, key, limit := r.ReadNextRelation(items[i..], more, plan);
    if found {
      OneMore(items, i);
      LoadFork(t, r, key, limit, items[i], TailOf(buf, items[i..], more, plan));
    }
  }

  /** Reads a file of items: every item before the first all-zero one ends up in the table. */
  method ReadTable(file: seq<Byte>, ghost magic: U32, ghost items: seq<Item>) returns (t: Table?)
    requires file == ToBytes(magic, MAGIC_SIZE) + ItemsBytes(items)
    requires ValidItems(items) && DistinctKeys(items) && Deliverable(items)
    ensures t == null <==> magic != BLOCKREFTABLE_MAGIC
    ensures t != null ==> t.Valid() && t.Meaning() == MeaningOf(items[..FirstZero(items)])
  {
    hide ArtKey, Entry.Valid, Entry.Blocks, Table.Valid, Table.Meaning, TableReader.Scanning, TableReader.Delivered;
    hide Serves, ItemsBytes, ItemsPlan, ItemsThen, ForkOf, ToBytes, FromBytes, Deliverable, IsZero;
    t := new Table();
    var r := new TableReader(file);
    ghost var rest := ItemsPlan(EmptyBuf(), items, [Unknown(HEADER_SIZE)]);
    ServesAll(r.reader, magic, items);
    var b := TakeNew(r.reader, MAGIC_SIZE, ToBytes(magic, MAGIC_SIZE), ItemsBytes(items), rest);
    FourBytes(magic);
    if FromBytes(b) != BLOCKREFTABLE_MAGIC {
      return null;
    }
    ItemsAreThen(items);
    LoadForks(t, r, items);
  }

  /** Loads the forks up to the terminator into an empty table. */
  method LoadForks(t: Table, r: TableReader, ghost items: seq<Item>)
    requires t.Valid() && t.Meaning() == map[] && ValidItems(items) && DistinctKeys(items)
    requires |r.chunkData| == MAX_ENTRIES_PER_CHUNK
    requires Serves(r.reader, ItemsThen(items, Zeros(HEADER_SIZE)), ItemsPlan(r.chunkData, items, [Unknown(HEADER_SIZE)]))
    modifies t, t.entries.Values, r, r.reader, r.reader.data
    ensures t.Valid() && t.Meaning() == MeaningOf(items[..FirstZero(items)])
  {
    hide ArtKey, Entry.Valid, Entry.Blocks, Table.Valid, Table.Meaning, TableReader.Scanning, TableReader.Delivered;
    hide Serves, ItemsThen, ItemsPlan, IsZero, FirstZero, MeaningOf, DistinctKeys;
    ghost var i := 0;
    ghost var more, last := Zeros(HEADER_SIZE), [Unknown(HEADER_SIZE)];
    NothingMeant(items);
    var found := true;
    while found
      invariant i <= FirstZero(items) && (!found ==> i == FirstZero(items))
      invariant t.Valid() && fresh(t.entries.Values - old(t.entries.Values)) && t.Meaning() == MeaningOf(items[..i])
      invariant found ==> |r.chunkData| == MAX_ENTRIES_PER_CHUNK
      invariant found ==> Serves(r.reader, ItemsThen(items[i..], more), ItemsPlan(r.chunkData, items[i..], last))
      decreases found, |items| - i
    {
      FirstZeroAt(items, i);
      found := LoadNext(t, r, i, items, more, last);
      if found {
        i := i + 1;
      }
    }
  }

  lemma NothingMeant(items: seq<Item>)
    ensures items[0..] == items && items[..0] == [] && MeaningOf([]) == map[]
  {}

  lemma OneMore(items: seq<Item>, i: nat)
    requires ValidItems(items) && DistinctKeys(items) && i < |items|
    ensures ArtKey(items[i].key) !in MeaningOf(items[..i])
    ensures items[i..][0] == items[i] && items[i..][1..] == items[i + 1..]
    ensures MeaningOf(items[..i + 1]) == MeaningOf(items[..i])[ArtKey(items[i].key) := ForkOf(items[i])]
  {
    hide ArtKey, ForkOf;
    NotYetThere(items, i);
    assert items[..i + 1][..i] == items[..i];
  }

  lemma {:induction false} FirstZeroAt(items: seq<Item>, i: nat)
    requires i <= FirstZero(items)
    ensures i == FirstZero(items) <==> i == |items| || IsZero(items[i])
  {
    hide IsZero;
  }

  lemma NotYetThere(items: seq<Item>, i: nat)
    requires ValidItems(items) && DistinctKeys(items) && i < |items|
    ensures ArtKey(items[i].key) !in MeaningOf(items[..i])
  {
    hide ArtKey, MeaningOf;
    MeaningKeys(items[..i], ArtKey(items[i].key));
  }

  /** The first request for four bytes is safe, and leads behind them. */
  lemma BehindMagic(magic: U32, rest: seq<Byte>)
    ensures var p := Pos([], ToBytes(magic, MAGIC_SIZE) + rest);
            && After(p, MAGIC_SIZE) == Pos(rest[..Min(BUFFER_SIZE - MAGIC_SIZE, |rest|)],
                                           rest[Min(BUFFER_SIZE - MAGIC_SIZE, |rest|)..])
            && !Straddles(|p.pending|, MAGIC_SIZE)
  {
    hide ToBytes;
    var p := Pos([], ToBytes(magic, MAGIC_SIZE) + rest);
    assert (p.pending + p.rest)[MAGIC_SIZE..] == rest;
  }

  lemma ServesAll(r: Reader, magic: U32, items: seq<Item>)
    requires r.Valid() && r.At() == Pos([], ToBytes(magic, MAGIC_SIZE) + ItemsBytes(items))
    requires ValidItems(items) && Deliverable(items)
    ensures Serves(r, ToBytes(magic, MAGIC_SIZE) + ItemsBytes(items),
                   [Unknown(MAGIC_SIZE)] + ItemsPlan(EmptyBuf(), items, [Unknown(HEADER_SIZE)]))
  {
    hide ToBytes, ItemsBytes, ItemsPlan, After, PendingAfter;
    FilePlanSize(items);
    var file, plan := ToBytes(magic, MAGIC_SIZE) + ItemsBytes(items), FilePlan(items);
    BehindMagic(magic, ItemsBytes(items));
    BehindMagic(BLOCKREFTABLE_MAGIC, ItemsBytes(items));
    assert [] + file == file && |file| == |FileOf(items)|;
  }

  lemma LimitedFresh(m: Contents, a: string, limit: BlockNumber)
    requires a !in m
    ensures Limited(m, a, limit) == m[a := Fork(limit, {})]
    ensures MarkedAll(Limited(m, a, limit), a, []) == Limited(m, a, limit)
  {}
}
