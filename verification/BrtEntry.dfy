/** One relation fork of a block reference table: its limit block and its modified blocks, kept in
    chunks of 65536 (src/libpgmoneta/brt.c). */
module BrtEntry {
  import opened BrtChunk

  type BlockNumber = x: int | 0 <= x < 0x1_0000_0000

  const InvalidBlockNumber: BlockNumber := 0xFFFF_FFFF

  datatype Key = Key(spcOid: BlockNumber, dbOid: BlockNumber, relNumber: BlockNumber, forknum: int)

  /** The chunk arrays are empty, or their length is a power of two from 16 on. */
  predicate ChunkCount(n: nat)
  {
    n in {0, 16, 32, 64, 128, 256, 512, 1024, 2048, 4096, 8192, 16384, 32768, BLOCKS_PER_CHUNK}
  }

  function Zip(sizes: seq<nat>, usages: seq<nat>, data: seq<seq<Word>>): (s: seq<Chunk>)
    requires |sizes| == |usages| == |data|
    ensures |s| == |sizes| && forall c :: 0 <= c < |s| ==> s[c] == Chunk(sizes[c], usages[c], data[c])
  {
    seq(|sizes|, c requires 0 <= c < |sizes| && |sizes| == |usages| == |data| => Chunk(sizes[c], usages[c], data[c]))
  }

  class Entry {
    const key: Key
    var limitBlock: BlockNumber
    var maxBlockNumber: BlockNumber
    var nchunks: nat
    var chunkSize: seq<nat>
    var chunkUsage: seq<nat>
    var chunkData: seq<seq<Word>>

    constructor (key: Key, limitBlock: BlockNumber)
      ensures this.key == key && this.limitBlock == limitBlock
      ensures Valid() && chunkUsage == [] && forall b :: !HasBlock(b)
    {
      this.key, this.limitBlock, maxBlockNumber := key, limitBlock, InvalidBlockNumber;
      nchunks, chunkSize, chunkUsage, chunkData := 0, [], [], [];
    }

    ghost predicate Valid()
      reads `nchunks, `chunkSize, `chunkUsage, `chunkData
    {
      && nchunks == |chunkSize| == |chunkUsage| == |chunkData| && ChunkCount(nchunks)
      && forall c: nat :: c < nchunks ==> ValidChunk(ChunkAt(c))
    }

    function ChunkAt(c: nat): Chunk
      requires c < |chunkSize| && c < |chunkUsage| && c < |chunkData|
      reads `chunkSize, `chunkUsage, `chunkData
    {
      Chunk(chunkSize[c], chunkUsage[c], chunkData[c])
    }

    function Chunks(): (s: seq<Chunk>)
      requires |chunkSize| == |chunkUsage| == |chunkData|
      reads `chunkSize, `chunkUsage, `chunkData
      ensures |s| == |chunkSize| && forall c :: 0 <= c < |s| ==> s[c] == ChunkAt(c)
    {
      Zip(chunkSize, chunkUsage, chunkData)
    }

    /** Block `b` is recorded as modified. */
    ghost predicate HasBlock(b: nat)
      requires Valid()
      reads `nchunks, `chunkSize, `chunkUsage, `chunkData
    {
      b / BLOCKS_PER_CHUNK < nchunks && Has(ChunkAt(b / BLOCKS_PER_CHUNK), b % BLOCKS_PER_CHUNK)
    }

    /** The modified blocks. */
    ghost function Blocks(): (s: set<nat>)
      requires Valid()
      reads `nchunks, `chunkSize, `chunkUsage, `chunkData
      ensures forall b: nat :: b in s <==> HasBlock(b)
    {
      set b: nat | b < nchunks * BLOCKS_PER_CHUNK && HasBlock(b)
    }

    method PutChunk(c: nat, chunk: Chunk)
      requires Valid() && c < nchunks && ValidChunk(chunk)
      modifies `chunkSize, `chunkUsage, `chunkData
      ensures Valid() && nchunks == old(nchunks)
      ensures ChunkAt(c) == chunk && forall k: nat :: k < nchunks && k != c ==> ChunkAt(k) == old(ChunkAt(k))
      ensures forall b: nat :: HasBlock(b) <==>
                if b / BLOCKS_PER_CHUNK == c then Has(chunk, b % BLOCKS_PER_CHUNK) else old(HasBlock(b))
    {
      hide Has, ValidChunk, ChunkCount;
      chunkSize := chunkSize[c := chunk.size];
      chunkUsage := chunkUsage[c := chunk.usage];
      chunkData := chunkData[c := chunk.data];
      assert forall k: nat :: k < nchunks && k != c ==> ChunkAt(k) == old(ChunkAt(k));
    }

    /** Makes room for chunk `c`: the new length is at least 16, and otherwise a doubling. */
    method Enlarge(c: nat)
      requires Valid() && c < BLOCKS_PER_CHUNK
      modifies `nchunks, `chunkSize, `chunkUsage, `chunkData
      ensures Valid() && c < nchunks && old(nchunks) <= nchunks
      ensures Blocks() == old(Blocks())
    {
      var maxChunks := if nchunks < 16 then 16 else nchunks;
      while maxChunks < c + 1
        invariant 16 <= maxChunks && nchunks <= maxChunks && ChunkCount(maxChunks)
        decreases c + 1 - maxChunks
      {
        maxChunks := maxChunks * 2;
      }
      var extra := maxChunks - nchunks;
      label before:
      chunkSize := chunkSize + seq(extra, _ => 0);
      chunkUsage := chunkUsage + seq(extra, _ => 0);
      chunkData := chunkData + seq(extra, _ => []);
      nchunks := maxChunks;
      assert forall k: nat :: k < old@before(nchunks) ==> ChunkAt(k) == old@before(ChunkAt(k));
      assert forall k: nat :: old@before(nchunks) <= k < nchunks ==> ChunkAt(k) == Chunk(0, 0, []);
    }

    /** Marks a block as modified. */
    method MarkBlockModified(b: BlockNumber)
      requires Valid()
      modifies this
      ensures Valid() && Blocks() == old(Blocks()) + {b}
      ensures limitBlock == old(limitBlock)
      ensures maxBlockNumber == if old(maxBlockNumber) == InvalidBlockNumber || old(maxBlockNumber) < b then b
                                else old(maxBlockNumber)
    {
      hide Has, HasBlock, ValidChunk, ChunkCount;
      if maxBlockNumber == InvalidBlockNumber {
        maxBlockNumber := b;
      } else {
        maxBlockNumber := if maxBlockNumber < b then b else maxBlockNumber;
      }
      var c := b / BLOCKS_PER_CHUNK;
      if c >= nchunks {
        Enlarge(c);
      }
      AddBlock(b);
    }

    /** Records a block in its chunk. */
    method AddBlock(b: BlockNumber)
      requires Valid() && b / BLOCKS_PER_CHUNK < nchunks
      modifies `chunkSize, `chunkUsage, `chunkData
      ensures Valid() && Blocks() == old(Blocks()) + {b}
    {
      hide Has, ValidChunk, ChunkCount;
      var c, o := b / BLOCKS_PER_CHUNK, b % BLOCKS_PER_CHUNK;
      var chunk := AddOffset(ChunkAt(c), o);
      PutChunk(c, chunk);
      forall k: nat
        ensures k in Blocks() <==> k == b || k in old(Blocks())
      {
        Place(k, b);
        assert k in Blocks() <==> HasBlock(k);
        assert k in old(Blocks()) <==> old(HasBlock(k));
      }
    }

    lemma SameBlocksBelow(limit: nat)
      requires Valid()
      ensures nchunks <= limit / BLOCKS_PER_CHUNK ==> forall b: nat :: HasBlock(b) ==> b < limit
    {}

    /** Lowers the limit block: the blocks from the new limit on are forgotten.  A limit that is not
        below the recorded one changes nothing. */
    method SetLimitBlock(limit: BlockNumber)
      requires Valid()
      modifies `limitBlock, `chunkUsage, `chunkSize, `chunkData
      ensures Valid()
      ensures limitBlock == if limit < old(limitBlock) then limit else old(limitBlock)
      ensures Blocks() == if limit < old(limitBlock) then Below(old(Blocks()), limit) else old(Blocks())
    {
      hide Has, ValidChunk, ChunkCount;
      if limitBlock <= limit {
        return;
      }
      SameBlocksBelow(limit);
      limitBlock := limit;
      var c, o := limit / BLOCKS_PER_CHUNK, limit % BLOCKS_PER_CHUNK;
      if c >= nchunks {
        return;
      }
      for k := c + 1 to nchunks
        invariant Valid() && limitBlock == limit
        invariant forall l: nat :: l < nchunks && (l <= c || k <= l) ==> ChunkAt(l) == old(ChunkAt(l))
        invariant forall l: nat, x: nat :: c < l < k && l < nchunks ==> !Has(ChunkAt(l), x)
      {
        ClearedChunk(ChunkAt(k));
        PutChunk(k, ChunkAt(k).(usage := 0));
      }
      var chunk := DropFrom(ChunkAt(c), o);
      PutChunk(c, chunk);
      forall b: nat
        ensures b in Blocks() <==> b < limit && b in old(Blocks())
      {
        assert b in Blocks() <==> HasBlock(b);
        assert b in old(Blocks()) <==> old(HasBlock(b));
      }
    }
  }

  /** A block is its chunk and its place in it. */
  lemma Place(k: nat, b: nat)
    ensures k == b <==> k / BLOCKS_PER_CHUNK == b / BLOCKS_PER_CHUNK && k % BLOCKS_PER_CHUNK == b % BLOCKS_PER_CHUNK
  {}

  /** The blocks of `s` below a limit. */
  ghost function Below(s: set<nat>, limit: nat): set<nat>
  {
    set b | b in s && b < limit
  }

  lemma ClearedChunk(c: Chunk)
    requires ValidChunk(c)
    ensures ValidChunk(c.(usage := 0)) && forall x: nat :: !Has(c.(usage := 0), x)
  {}
}
