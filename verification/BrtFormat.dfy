/** The file format of a block reference table (src/include/brt.h, src/libpgmoneta/brt.c): what is
    written for an entry, and how it is cut into requests. */
module BrtFormat {
  import opened Bytes
  import opened Text
  import opened BrtChunk
  import opened BrtEntry
  import opened BrtKey
  import opened BrtListing
  import opened BrtTable
  import opened BrtStream
  import opened BrtPlan

  const BLOCKREFTABLE_MAGIC := 0x652b137b
  const MAX_CHUNKS := 0x1_0000

  /** One serialized entry: its key, limit and used chunks, without the trailing empty ones. */
  datatype Item = Item(key: Key, limit: BlockNumber, chunks: seq<seq<Word>>)

  ghost predicate ValidItem(item: Item)
  {
    && ValidKey(item.key) && |item.chunks| <= MAX_CHUNKS
    && forall j :: 0 <= j < |item.chunks| ==> |item.chunks[j]| <= MAX_ENTRIES_PER_CHUNK
  }

  ghost predicate ValidItems(items: seq<Item>)
  {
    forall i :: 0 <= i < |items| ==> ValidItem(items[i])
  }

  /** The number of entries in each chunk. */
  function Usages(chunks: seq<seq<Word>>): (u: seq<nat>)
    ensures |u| == |chunks| && forall j :: 0 <= j < |u| ==> u[j] == |chunks[j]|
  {
    seq(|chunks|, j requires 0 <= j < |chunks| => |chunks[j]|)
  }

  // ----- bytes -----

  function WordBytes(words: seq<nat>): (b: seq<Byte>)
    ensures |b| == 2 * |words|
  {
    if words == [] then [] else ToBytes(words[0], 2) + WordBytes(words[1..])
  }

  function WordsOf(b: seq<Byte>): (words: seq<nat>)
    ensures |words| == |b| / 2
  {
    if |b| < 2 then [] else [FromBytes(b[..2])] + WordsOf(b[2..])
  }

  lemma {:induction false} WordsRoundTrip(words: seq<nat>)
    requires forall i :: 0 <= i < |words| ==> words[i] < 0x1_0000
    ensures WordsOf(WordBytes(words)) == words
  {
    if words != [] {
      var b := WordBytes(words);
      assert b[..2] == ToBytes(words[0], 2) && b[2..] == WordBytes(words[1..]);
      assert Pow256(2) == 0x1_0000;
      BytesRoundTrip(words[0], 2);
      WordsRoundTrip(words[1..]);
    }
  }

  /** The fork number as an unsigned number. */
  function AsUnsigned(i: int): BlockNumber
  {
    i % 0x1_0000_0000
  }

  function HeaderBytes(item: Item): (b: seq<Byte>)
    ensures |b| == HEADER_SIZE
  {
    ToBytes(item.key.spcOid, 4) + ToBytes(item.key.dbOid, 4) + ToBytes(item.key.relNumber, 4)
    + ToBytes(AsUnsigned(item.key.forknum), 4) + ToBytes(item.limit, 4) + ToBytes(|item.chunks|, 4)
  }

  function Zeros(n: nat): (b: seq<Byte>)
    ensures |b| == n && forall i :: 0 <= i < n ==> b[i] == 0
  {
    seq(n, _ => 0)
  }

  /** An entry whose header reads as the terminator. */
  predicate IsZero(item: Item)
  {
    item.key == Key(0, 0, 0, 0) && item.limit == 0 && item.chunks == []
  }

  lemma FourBytes(x: nat)
    requires x < 0x1_0000_0000
    ensures FromBytes(ToBytes(x, 4)) == x
  {
    assert Pow256(2) == 0x1_0000;
    assert Pow256(4) == 0x1_0000_0000;
    BytesRoundTrip(x, 4);
  }

  /** A header is read field by field as it was written. */
  lemma HeaderRoundTrip(item: Item)
    requires ValidItem(item)
    ensures var b := HeaderBytes(item);
            && FromBytes(b[0..4]) == item.key.spcOid && FromBytes(b[4..8]) == item.key.dbOid
            && FromBytes(b[8..12]) == item.key.relNumber && AsInt(FromBytes(b[12..16]) % 0x1_0000_0000) == item.key.forknum
            && FromBytes(b[16..20]) == item.limit && FromBytes(b[20..24]) == |item.chunks|
  {
    hide ToBytes, FromBytes;
    var b := HeaderBytes(item);
    assert b[0..4] == ToBytes(item.key.spcOid, 4);
    assert b[4..8] == ToBytes(item.key.dbOid, 4);
    assert b[8..12] == ToBytes(item.key.relNumber, 4);
    assert b[12..16] == ToBytes(AsUnsigned(item.key.forknum), 4);
    assert b[16..20] == ToBytes(item.limit, 4);
    assert |item.chunks| <= 0x1_0000;
    assert b[20..] == ToBytes(|item.chunks|, 4);
    assert b[20..24] == b[20..];
    FourBytes(item.key.spcOid);
    FourBytes(item.key.dbOid);
    FourBytes(item.key.relNumber);
    FourBytes(AsUnsigned(item.key.forknum));
    FourBytes(item.limit);
    FourBytes(|item.chunks|);
  }

  lemma ZeroBytes()
    ensures ToBytes(0, 4) == Zeros(4) && FromBytes(Zeros(4)) == 0
  {
    assert ToBytes(0, 2) == [0, 0];
    assert ToBytes(0, 4) == [0] + ([0] + ToBytes(0, 2));
    assert ToBytes(0, 4) == Zeros(4);
    FourBytes(0);
  }

  /** The header of an entry is the terminator exactly for an all-zero entry. */
  lemma ZeroHeader(item: Item)
    requires ValidItem(item)
    ensures HeaderBytes(item) == Zeros(HEADER_SIZE) <==> IsZero(item)
  {
    hide ToBytes, FromBytes;
    ZeroBytes();
    HeaderRoundTrip(item);
    if HeaderBytes(item) == Zeros(HEADER_SIZE) {
      var b := HeaderBytes(item);
      assert b[0..4] == b[4..8] == b[8..12] == b[12..16] == b[16..20] == b[20..24] == Zeros(4);
    }
    if IsZero(item) {
      assert HeaderBytes(item) == Zeros(HEADER_SIZE);
    }
  }

  function ChunkBytes(chunks: seq<seq<Word>>): seq<Byte>
  {
    if chunks == [] then [] else WordBytes(chunks[0]) + ChunkBytes(chunks[1..])
  }

  function ItemBytes(item: Item): seq<Byte>
  {
    HeaderBytes(item) + (WordBytes(Usages(item.chunks)) + ChunkBytes(item.chunks))
  }

  function ItemsBytes(items: seq<Item>): seq<Byte>
  {
    if items == [] then Zeros(HEADER_SIZE) else ItemBytes(items[0]) + ItemsBytes(items[1..])
  }

  function FileOf(items: seq<Item>): seq<Byte>
  {
    ToBytes(BLOCKREFTABLE_MAGIC, MAGIC_SIZE) + ItemsBytes(items)
  }

  // ----- the requests of the reader -----

  ghost predicate FitChunks(chunks: seq<seq<Word>>)
  {
    forall j :: 0 <= j < |chunks| ==> |chunks[j]| <= MAX_ENTRIES_PER_CHUNK
  }

  /** A request into uninitialised memory. */
  function Unknown(length: nat): Request
  {
    Request(length, None)
  }

  /** The request for the data of a chunk, into the chunk data of the reader. */
  function ChunkRequest(buf: seq<Word>, chunk: seq<Word>): Request
    requires |chunk| <= |buf|
  {
    Request(2 * |chunk|, Some(WordBytes(buf[..|chunk|])))
  }

  ghost function ChunkPlan(buf: seq<Word>, chunks: seq<seq<Word>>): seq<Request>
    requires |buf| == MAX_ENTRIES_PER_CHUNK && FitChunks(chunks)
    decreases chunks
  {
    if chunks == [] then []
    else [ChunkRequest(buf, chunks[0])] + ChunkPlan(Put(buf, chunks[0]), chunks[1..])
  }

  ghost function BufAfter(buf: seq<Word>, chunks: seq<seq<Word>>): (r: seq<Word>)
    requires |buf| == MAX_ENTRIES_PER_CHUNK && FitChunks(chunks)
    ensures |r| == |buf|
    decreases chunks
  {
    if chunks == [] then buf else BufAfter(Put(buf, chunks[0]), chunks[1..])
  }

  /** The requests for some items, with `more` behind them. */
  ghost function ItemsPlan(buf: seq<Word>, items: seq<Item>, more: seq<Request>): seq<Request>
    requires |buf| == MAX_ENTRIES_PER_CHUNK && ValidItems(items)
    decreases items
  {
    if items == [] then more
    else [Unknown(HEADER_SIZE)] + ([Unknown(2 * |items[0].chunks|)]
         + (ChunkPlan(buf, items[0].chunks) + ItemsPlan(BufAfter(buf, items[0].chunks), items[1..], more)))
  }

  /** The chunk data of a new reader. */
  function EmptyBuf(): (buf: seq<Word>)
    ensures |buf| == MAX_ENTRIES_PER_CHUNK
  {
    seq(MAX_ENTRIES_PER_CHUNK, _ => 0)
  }

  ghost function FilePlan(items: seq<Item>): seq<Request>
    requires ValidItems(items)
  {
    [Unknown(MAGIC_SIZE)] + ItemsPlan(EmptyBuf(), items, [Unknown(HEADER_SIZE)])
  }

  lemma FirstChunk(buf: seq<Word>, chunks: seq<seq<Word>>)
    requires |buf| == MAX_ENTRIES_PER_CHUNK && FitChunks(chunks) && chunks != []
    ensures ChunkBytes(chunks) == WordBytes(chunks[0]) + ChunkBytes(chunks[1..])
    ensures var next := Put(buf, chunks[0]);
            && ChunkPlan(buf, chunks) == [ChunkRequest(buf, chunks[0])] + ChunkPlan(next, chunks[1..])
            && BufAfter(buf, chunks) == BufAfter(next, chunks[1..]) && next[..|chunks[0]|] == chunks[0]
  {
    hide WordBytes;
  }

  lemma TotalFront(q: Request, plan: seq<Request>)
    requires ValidRequest(q) && ValidRequests(plan)
    ensures Total([q] + plan) == q.length + Total(plan) && ValidRequests([q] + plan)
  {
    assert ([q] + plan)[1..] == plan;
  }

  lemma {:induction false} ChunkPlanSize(buf: seq<Word>, chunks: seq<seq<Word>>, plan: seq<Request>)
    requires |buf| == MAX_ENTRIES_PER_CHUNK && FitChunks(chunks) && ValidRequests(plan)
    ensures Total(ChunkPlan(buf, chunks) + plan) == |ChunkBytes(chunks)| + Total(plan)
    ensures ValidRequests(ChunkPlan(buf, chunks) + plan)
    decreases chunks
  {
    hide WordBytes, Total;
    if chunks == [] {
      assert ChunkPlan(buf, chunks) + plan == plan;
    } else {
      FirstChunk(buf, chunks);
      hide ChunkPlan, ChunkBytes, Put, ChunkRequest;
      var q, rest := ChunkRequest(buf, chunks[0]), ChunkPlan(Put(buf, chunks[0]), chunks[1..]);
      ChunkPlanSize(Put(buf, chunks[0]), chunks[1..], plan);
      ChunkRequestSize(buf, chunks[0]);
      TotalFront(q, rest + plan);
      assert ChunkPlan(buf, chunks) + plan == [q] + (rest + plan);
    }
  }

  lemma ChunkRequestSize(buf: seq<Word>, chunk: seq<Word>)
    requires |chunk| <= |buf|
    ensures ChunkRequest(buf, chunk).length == 2 * |chunk| && ValidRequest(ChunkRequest(buf, chunk))
  {}

  /** The bytes of some items, with `more` behind them. */
  function ItemsThen(items: seq<Item>, more: seq<Byte>): seq<Byte>
  {
    if items == [] then more else ItemBytes(items[0]) + ItemsThen(items[1..], more)
  }

  lemma {:induction false} ItemsPlanSize(buf: seq<Word>, items: seq<Item>, bytes: seq<Byte>, more: seq<Request>)
    requires |buf| == MAX_ENTRIES_PER_CHUNK && ValidItems(items) && ValidRequests(more)
    ensures Total(ItemsPlan(buf, items, more)) == |ItemsThen(items, bytes)| - |bytes| + Total(more)
    ensures ValidRequests(ItemsPlan(buf, items, more))
    decreases items
  {
    hide BufAfter, ChunkPlan, ChunkBytes, WordBytes, HeaderBytes;
    if items != [] {
      var chunks := items[0].chunks;
      var rest := ItemsPlan(BufAfter(buf, chunks), items[1..], more);
      ItemsPlanSize(BufAfter(buf, chunks), items[1..], bytes, more);
      ChunkPlanSize(buf, chunks, rest);
      FrontSize(HEADER_SIZE, 2 * |chunks|, ChunkPlan(buf, chunks) + rest);
    }
  }

  lemma FrontSize(m: nat, n: nat, plan: seq<Request>)
    requires ValidRequests(plan)
    ensures var all := [Unknown(m)] + ([Unknown(n)] + plan);
            Total(all) == m + n + Total(plan) && ValidRequests(all)
  {
    TotalFront(Unknown(n), plan);
    TotalFront(Unknown(m), [Unknown(n)] + plan);
  }

  lemma {:induction false} ItemsAreThen(items: seq<Item>)
    ensures ItemsBytes(items) == ItemsThen(items, Zeros(HEADER_SIZE))
  {
    hide ItemBytes;
    if items != [] {
      ItemsAreThen(items[1..]);
    }
  }

  lemma FilePlanSize(items: seq<Item>)
    requires ValidItems(items)
    ensures Total(FilePlan(items)) == |FileOf(items)| && ValidRequests(FilePlan(items))
  {
    hide ItemsPlan, ItemsThen, ItemsBytes;
    var last := [Unknown(HEADER_SIZE)];
    assert last[1..] == [];
    ItemsPlanSize(EmptyBuf(), items, Zeros(HEADER_SIZE), last);
    ItemsAreThen(items);
    assert FilePlan(items)[1..] == ItemsPlan(EmptyBuf(), items, last);
  }

  /** The reader delivers the file of the items, whatever uninitialised memory holds. */
  ghost predicate Deliverable(items: seq<Item>)
    requires ValidItems(items)
  {
    FilePlanSize(items);
    AllSafe(Pos([], FileOf(items)), FilePlan(items))
  }

  /** That is exactly what the safety of all requests means. */
  lemma DeliverableMeaning(items: seq<Item>)
    requires ValidItems(items)
    ensures Total(FilePlan(items)) == |FileOf(items)|
    ensures Deliverable(items) <==>
            forall dests :: ProvidesAll(dests, FilePlan(items)) ==>
              ReadAll(Pos([], FileOf(items)), dests) == Pieces(FileOf(items), FilePlan(items))
  {
    hide FileOf, FilePlan;
    FilePlanSize(items);
    ReaderFaithful(FileOf(items), FilePlan(items));
  }

  /** A file that fits the buffer is deliverable. */
  lemma SmallFileDeliverable(items: seq<Item>)
    requires ValidItems(items) && |FileOf(items)| <= BUFFER_SIZE
    ensures Deliverable(items)
  {
    hide FileOf, FilePlan;
    FilePlanSize(items);
    SafeByLengths(Pos([], FileOf(items)), FilePlan(items));
    SmallFileIsFaithful(|FileOf(items)|, Lengths(FilePlan(items)));
  }

  // ----- forks without modified blocks -----

  ghost predicate NoBlocks(items: seq<Item>)
  {
    forall i :: 0 <= i < |items| ==> items[i].chunks == []
  }

  lemma {:induction false} EmptyForksPlan(buf: seq<Word>, items: seq<Item>)
    requires |buf| == MAX_ENTRIES_PER_CHUNK && ValidItems(items) && NoBlocks(items)
    ensures var plan := ItemsPlan(buf, items, [Unknown(HEADER_SIZE)]);
            && Lengths(plan) == EmptyForks(|items|)
            && forall i :: 0 <= i < |plan| ==> plan[i].known.None?
    decreases items
  {
    var plan := ItemsPlan(buf, items, [Unknown(HEADER_SIZE)]);
    if items == [] {
      assert Lengths(plan) == [HEADER_SIZE];
    } else {
      var rest := ItemsPlan(BufAfter(buf, items[0].chunks), items[1..], [Unknown(HEADER_SIZE)]);
      EmptyForksPlan(BufAfter(buf, items[0].chunks), items[1..]);
      assert plan == [Unknown(HEADER_SIZE), Unknown(0)] + rest;
      assert Lengths(plan) == [HEADER_SIZE, 0] + Lengths(rest);
    }
  }

  lemma {:induction false} EmptyForksBytes(items: seq<Item>, more: seq<Byte>)
    requires NoBlocks(items)
    ensures |ItemsThen(items, more)| == HEADER_SIZE * |items| + |more|
    decreases items
  {
    if items != [] {
      EmptyForksBytes(items[1..], more);
    }
  }

  /** The file of forks without modified blocks is deliverable up to 2729 forks and not from 2730 on:
      the header behind the first 65536 bytes, or the terminator there, is cut in two. */
  lemma EmptyForksLimit(items: seq<Item>)
    requires ValidItems(items) && NoBlocks(items)
    ensures Deliverable(items) <==> |items| < 2730
  {
    hide ItemsPlan, ItemsThen, ItemsBytes, NoStraddle, AllSafe, EmptyForks;
    var plan, file := FilePlan(items), FileOf(items);
    FilePlanSize(items);
    EmptyForksPlan(EmptyBuf(), items);
    EmptyForksBytes(items, Zeros(HEADER_SIZE));
    ItemsAreThen(items);
    SafeByLengths(Pos([], file), plan);
    assert Lengths(plan) == [MAGIC_SIZE] + EmptyForks(|items|);
    EmptyForksLengths(|items|);
  }

  // ----- what the items stand for -----

  /** The blocks of one chunk in the order in which the reader delivers them. */
  function BlocksOf(chunk: seq<Word>, c: nat): seq<nat>
    requires |chunk| <= MAX_ENTRIES_PER_CHUNK
  {
    ChunkList(Chunk(|chunk|, |chunk|, chunk), c * BLOCKS_PER_CHUNK, 0, BLOCKS_PER_CHUNK)
  }

  /** The blocks of the first `c` chunks. */
  function BlockList(chunks: seq<seq<Word>>, c: nat): seq<nat>
    requires c <= |chunks| && forall j :: 0 <= j < |chunks| ==> |chunks[j]| <= MAX_ENTRIES_PER_CHUNK
  {
    if c == 0 then [] else BlockList(chunks, c - 1) + BlocksOf(chunks[c - 1], c - 1)
  }

  ghost function ForkOf(item: Item): Fork
    requires ValidItem(item)
  {
    Fork(item.limit, BlockSet(BlockList(item.chunks, |item.chunks|)))
  }

  ghost function BlockSet(list: seq<nat>): (s: set<nat>)
    ensures forall b: nat :: b in s <==> b in list
  {
    set b | b in list
  }

  /** What a list of items leaves in a table. */
  ghost function MeaningOf(items: seq<Item>): Contents
    requires ValidItems(items)
  {
    if items == [] then map[]
    else MeaningOf(items[..|items| - 1])[ArtKey(items[|items| - 1].key) := ForkOf(items[|items| - 1])]
  }

  ghost predicate DistinctKeys(items: seq<Item>)
  {
    forall i, j :: 0 <= i < j < |items| ==> ArtKey(items[i].key) != ArtKey(items[j].key)
  }

  /** The position of the first all-zero item, where reading stops. */
  function FirstZero(items: seq<Item>): (z: nat)
    ensures z <= |items| && (z < |items| ==> IsZero(items[z]))
    ensures forall i :: 0 <= i < z ==> !IsZero(items[i])
  {
    if items == [] || IsZero(items[0]) then 0 else 1 + FirstZero(items[1..])
  }

  lemma {:induction false} MeaningKeys(items: seq<Item>, a: string)
    requires ValidItems(items)
    ensures a in MeaningOf(items) <==> exists i :: 0 <= i < |items| && ArtKey(items[i].key) == a
  {
    hide ArtKey, ForkOf;
    if items != [] {
      MeaningKeys(items[..|items| - 1], a);
    }
  }

  lemma {:induction false} MeaningAt(items: seq<Item>, i: nat)
    requires ValidItems(items) && DistinctKeys(items) && i < |items|
    ensures ArtKey(items[i].key) in MeaningOf(items) && MeaningOf(items)[ArtKey(items[i].key)] == ForkOf(items[i])
  {
    hide ArtKey, ForkOf;
    if i < |items| - 1 {
      MeaningAt(items[..|items| - 1], i);
    }
  }
}
