/** Writing a block reference table and reading it back (src/libpgmoneta/brt.c). */
module BrtRoundTrip {
  import opened Bytes
  import opened BrtChunk
  import opened BrtEntry
  import opened BrtKey
  import opened BrtListing
  import opened BrtTable
  import opened BrtStream
  import opened BrtFormat
  import opened BrtWrite
  import opened BrtRead

  // ----- what is written for an entry stands for the entry -----

  /** The used part of a chunk lists the same blocks as the whole chunk. */
  lemma BlocksOfUsed(c: Chunk, k: nat)
    requires ValidChunk(c)
    ensures c.usage <= |c.data| && |c.data[..c.usage]| <= MAX_ENTRIES_PER_CHUNK
    ensures c.usage == MAX_ENTRIES_PER_CHUNK ==> |c.data| == MAX_ENTRIES_PER_CHUNK
    ensures BlocksOf(c.data[..c.usage], k) == ChunkList(c, k * BLOCKS_PER_CHUNK, 0, BLOCKS_PER_CHUNK)
  {
    hide BitList, ArrayList;
    var used := c.data[..c.usage];
    assert used[..c.usage] == used;
    if c.usage == MAX_ENTRIES_PER_CHUNK {
      assert used == c.data;
    }
  }

  lemma BlockOfUsed(c: Chunk, k: nat, x: nat)
    requires ValidChunk(c)
    ensures |c.data[..c.usage]| <= MAX_ENTRIES_PER_CHUNK
    ensures x in BlocksOf(c.data[..c.usage], k) <==>
            k == x / BLOCKS_PER_CHUNK && Has(c, x % BLOCKS_PER_CHUNK)
  {
    hide ValidChunk, Has, ChunkList, BlocksOf;
    ValidFits(c);
    BlocksOfUsed(c, k);
    ChunkListMeaning(c, k * BLOCKS_PER_CHUNK, 0, BLOCKS_PER_CHUNK, x);
  }

  /** The chunks `used` are the used parts of the first chunks of the entry. */
  ghost predicate Uses(e: Entry, used: seq<seq<Word>>)
    reads e
  {
    && e.Valid() && |used| <= e.nchunks
    && forall c :: 0 <= c < |used| ==> (
          && e.chunkUsage[c] <= |e.chunkData[c]|
          && used[c] == e.chunkData[c][..e.chunkUsage[c]] && |used[c]| <= MAX_ENTRIES_PER_CHUNK)
  }

  lemma {:induction false} ListOfEntry(e: Entry, used: seq<seq<Word>>, n: nat, x: nat)
    requires Uses(e, used) && n <= |used|
    ensures x in BlockList(used, n) <==> x / BLOCKS_PER_CHUNK < n && e.HasBlock(x)
  {
    hide BlocksOf, Has, ValidChunk;
    if 0 < n {
      ListOfEntry(e, used, n - 1, x);
      BlockOfUsed(e.ChunkAt(n - 1), n - 1, x);
    }
  }

  lemma UnusedChunk(c: Chunk, o: nat)
    requires ValidChunk(c) && c.usage == 0
    ensures !Has(c, o)
  {}

  lemma ItemUses(e: Entry)
    requires e.Valid()
    ensures Uses(e, ItemOf(e).chunks)
    ensures forall c :: |ItemOf(e).chunks| <= c < e.nchunks ==> e.chunkUsage[c] == 0
  {
    hide ValidChunk;
    EntryFits(e);
  }

  /** The written item of an entry stands for exactly its limit and its modified blocks. */
  lemma ItemMeansEntry(e: Entry)
    requires e.Valid() && ValidKey(e.key)
    ensures ValidItem(ItemOf(e)) && ForkOf(ItemOf(e)) == Fork(e.limitBlock, e.Blocks())
  {
    hide ValidChunk, Has, ChunkCount, Entry.Blocks, BlockSet;
    var used := ItemOf(e).chunks;
    EntryFits(e);
    ItemUses(e);
    forall x: nat
      ensures x in BlockList(used, |used|) <==> x in e.Blocks()
    {
      ListOfEntry(e, used, |used|, x);
      if |used| <= x / BLOCKS_PER_CHUNK < e.nchunks {
        UnusedChunk(e.ChunkAt(x / BLOCKS_PER_CHUNK), x % BLOCKS_PER_CHUNK);
      }
    }
    assert BlockSet(BlockList(used, |used|)) == e.Blocks();
  }

  // ----- what is written for a table stands for the table -----

  /** The order lists every key of the table once. */
  ghost predicate Covers(t: Table, order: seq<string>)
    reads t
  {
    && (forall i :: 0 <= i < |order| ==> order[i] in t.entries)
    && (forall a :: a in t.entries ==> a in order)
    && forall i, j :: 0 <= i < j < |order| ==> order[i] != order[j]
  }

  ghost predicate ValidKeys(t: Table)
    reads t, t.entries.Values
  {
    forall a :: a in t.entries ==> ValidKey(t.entries[a].key)
  }

  lemma ItemAt(t: Table, order: seq<string>, items: seq<Item>, i: nat)
    requires Describes(t, order, items) && ValidKeys(t) && i < |order|
    ensures |items| == |order| && ValidItem(items[i]) && ArtKey(items[i].key) == order[i] && order[i] in t.Meaning()
    ensures ForkOf(items[i]) == t.Meaning()[order[i]]
  {
    hide ArtKey, ForkOf, Entry.Valid, Entry.Blocks, ItemOf;
    assert DescribesOne(t.entries[order[i]], items[i]);
    ItemKey(t.entries[order[i]]);
    ItemMeansEntry(t.entries[order[i]]);
  }

  lemma ItemKey(e: Entry)
    requires e.Valid()
    ensures ItemOf(e).key == e.key
  {}

  /** The items of a table, in any order, stand for the whole table. */
  lemma ItemsMeanTable(t: Table, order: seq<string>, items: seq<Item>)
    requires Describes(t, order, items) && Covers(t, order) && ValidKeys(t)
    ensures ValidItems(items) && DistinctKeys(items) && MeaningOf(items) == t.Meaning()
  {
    hide ArtKey, ForkOf, ValidItem, Describes, MeaningOf, Table.Valid;
    DescribesAll(t, order, items);
    DescribesValid(t, order, items);
    forall i | 0 <= i < |order|
      ensures ValidItem(items[i]) && ArtKey(items[i].key) == order[i] && ForkOf(items[i]) == t.Meaning()[order[i]]
    {
      ItemAt(t, order, items, i);
    }
    var m, n := MeaningOf(items), t.Meaning();
    forall a: string
      ensures (a in m <==> a in n) && (a in m ==> m[a] == n[a])
    {
      MeaningKeys(items, a);
      if a in n {
        var i :| 0 <= i < |order| && order[i] == a;
        MeaningAt(items, i);
      }
    }
    assert m == n;
  }

  /** What is read back is the whole table exactly if no item is all zero. */
  lemma ReadingStops(items: seq<Item>)
    requires ValidItems(items) && DistinctKeys(items)
    ensures MeaningOf(items[..FirstZero(items)]) == MeaningOf(items) <==>
            forall i :: 0 <= i < |items| ==> !IsZero(items[i])
  {
    hide ArtKey, ForkOf, ValidItem, MeaningOf, IsZero, FirstZero;
    var z := FirstZero(items);
    if z == |items| {
      assert items[..z] == items;
    } else {
      MeaningAt(items, z);
      NotYetThere(items, z);
    }
  }

  // ----- the round trip -----

  /** An entry that is written as the terminator: no relation, limit zero, and no chunk in use. */
  ghost predicate WrittenAsZero(e: Entry)
    reads e
  {
    e.key == Key(0, 0, 0, 0) && e.limitBlock == 0 && forall c :: 0 <= c < |e.chunkUsage| ==> e.chunkUsage[c] == 0
  }

  lemma ZeroItem(e: Entry)
    requires e.Valid()
    ensures IsZero(ItemOf(e)) <==> WrittenAsZero(e)
  {
    hide ValidChunk, ChunkCount;
    EntryFits(e);
    var n := Trimmed(e.chunkUsage);
    if n == 0 {
      assert UsedChunks(e.chunkUsage, e.chunkData)[..0] == [];
    }
  }

  lemma ZeroItems(t: Table, order: seq<string>, items: seq<Item>)
    requires Describes(t, order, items) && Covers(t, order)
    ensures (forall i :: 0 <= i < |items| ==> !IsZero(items[i])) <==> forall a :: a in t.entries ==> !WrittenAsZero(t.entries[a])
  {
    hide ArtKey, IsZero, WrittenAsZero, Entry.Valid, ItemOf;
    forall i | 0 <= i < |order|
      ensures IsZero(items[i]) <==> WrittenAsZero(t.entries[order[i]])
    {
      assert DescribesOne(t.entries[order[i]], items[i]);
      ZeroItem(t.entries[order[i]]);
    }
    forall a | a in t.entries
      ensures exists i :: 0 <= i < |order| && order[i] == a
    {
      assert a in order;
    }
  }

  /** A table whose file the reader delivers, and that is written and read back in whatever order its
      entries are written, comes back with the same limit and the same modified blocks for every fork
      if and only if no entry is written as the terminator. */
  method WriteThenRead(t: Table, order: seq<string>, ghost items: seq<Item>) returns (u: Table)
    requires Describes(t, order, items) && Covers(t, order) && ValidKeys(t) && ValidItems(items) && Deliverable(items)
    ensures t.Valid() && u.Valid()
    ensures u.Meaning() == t.Meaning() <==> forall a :: a in t.entries ==> !WrittenAsZero(t.entries[a])
  {
    hide ArtKey, Table.Valid, Describes, Covers, ValidKeys, Deliverable, WrittenAsZero, MeaningOf, IsZero, FirstZero;
    hide ToBytes;
    hide ItemsBytes, ValidItems, DistinctKeys;
    ItemsMeanTable(t, order, items);
    ReadingStops(items);
    ZeroItems(t, order, items);
    DescribesValid(t, order, items);
    var file := WriteTable(t, order, items);
    u := ReadTable(file, BLOCKREFTABLE_MAGIC, items);
  }

  /** A table whose file fits the 64 KiB buffer needs no further condition. */
  method WriteThenReadSmall(t: Table, order: seq<string>, ghost items: seq<Item>) returns (u: Table)
    requires Describes(t, order, items) && Covers(t, order) && ValidKeys(t) && |FileOf(items)| <= BUFFER_SIZE
    ensures t.Valid() && u.Valid()
    ensures u.Meaning() == t.Meaning() <==> forall a :: a in t.entries ==> !WrittenAsZero(t.entries[a])
  {
    hide ArtKey, Table.Valid, Describes, Covers, ValidKeys, Deliverable, WrittenAsZero, FileOf;
    ItemsMeanTable(t, order, items);
    SmallFileDeliverable(items);
    u := WriteThenRead(t, order, items);
  }

  lemma DescribesValid(t: Table, order: seq<string>, items: seq<Item>)
    requires Describes(t, order, items)
    ensures t.Valid()
  {}
}
