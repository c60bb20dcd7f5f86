/** Writing a block reference table (src/libpgmoneta/brt.c). */
module BrtWrite {
  import opened Bytes
  import opened BrtChunk
  import opened BrtEntry
  import opened BrtTable
  import opened BrtStream
  import opened BrtPlan
  import opened BrtFormat

  /** The length of the usage array without its trailing zeros. */
  function Trimmed(usages: seq<nat>): (n: nat)
    ensures n <= |usages| && (0 < n ==> usages[n - 1] != 0)
    ensures forall j :: n <= j < |usages| ==> usages[j] == 0
  {
    if usages == [] then 0
    else if usages[|usages| - 1] != 0 then |usages|
    else Trimmed(usages[..|usages| - 1])
  }

  /** The used part of every chunk. */
  function UsedChunks(usages: seq<nat>, data: seq<seq<Word>>): (u: seq<seq<Word>>)
    requires |usages| == |data| && forall j :: 0 <= j < |data| ==> usages[j] <= |data[j]|
    ensures |u| == |usages| && forall j :: 0 <= j < |u| ==> u[j] == data[j][..usages[j]]
  {
    seq(|usages|, j requires 0 <= j < |usages| && |usages| == |data| && usages[j] <= |data[j]| => data[j][..usages[j]])
  }

  /** What is written for an entry. */
  ghost function ItemOf(e: Entry): Item
    requires e.Valid()
    reads e
  {
    EntryFits(e);
    Item(e.key, e.limitBlock, UsedChunks(e.chunkUsage, e.chunkData)[..Trimmed(e.chunkUsage)])
  }

  lemma EntryFits(e: Entry)
    requires e.Valid()
    ensures forall c :: 0 <= c < e.nchunks ==> e.chunkUsage[c] <= |e.chunkData[c]| && e.chunkUsage[c] <= MAX_ENTRIES_PER_CHUNK
    ensures e.nchunks <= MAX_CHUNKS
  {
    forall c | 0 <= c < e.nchunks
      ensures e.chunkUsage[c] <= |e.chunkData[c]| && e.chunkUsage[c] <= MAX_ENTRIES_PER_CHUNK
    {
      assert ValidChunk(e.ChunkAt(c));
    }
  }

  /** The items of the entries under the given keys, in that order. */
  ghost predicate Describes(t: Table, order: seq<string>, items: seq<Item>)
    reads t, t.entries.Values
  {
    && t.Valid() && |items| == |order|
    && (forall i :: 0 <= i < |order| ==> order[i] in t.entries)
    && forall i {:trigger t.entries[order[i]]} :: 0 <= i < |order| ==> DescribesOne(t.entries[order[i]], items[i])
  }

  ghost predicate DescribesOne(e: Entry, item: Item)
    reads e
  {
    e.Valid() && item == ItemOf(e)
  }

  // ----- the written bytes -----

  function Body(items: seq<Item>): seq<Byte>
  {
    if items == [] then [] else Body(items[..|items| - 1]) + ItemBytes(items[|items| - 1])
  }

  lemma {:induction false} BodyFront(item: Item, items: seq<Item>)
    ensures Body([item] + items) == ItemBytes(item) + Body(items)
  {
    hide ItemBytes;
    if items == [] {
      assert [item] + items == [item];
      assert Body([item]) == Body([]) + ItemBytes(item);
    } else {
      var all := [item] + items;
      assert all[..|all| - 1] == [item] + items[..|items| - 1];
      BodyFront(item, items[..|items| - 1]);
    }
  }

  lemma {:induction false} BodyIsItems(items: seq<Item>)
    ensures ItemsBytes(items) == Body(items) + Zeros(HEADER_SIZE)
  {
    hide ItemBytes;
    if items != [] {
      BodyIsItems(items[1..]);
      BodyFront(items[0], items[1..]);
      assert [items[0]] + items[1..] == items;
    }
  }

  lemma {:induction false} ChunkBytesSnoc(chunks: seq<seq<Word>>, chunk: seq<Word>)
    ensures ChunkBytes(chunks + [chunk]) == ChunkBytes(chunks) + WordBytes(chunk)
  {
    if chunks == [] {
      assert chunks + [chunk] == [chunk];
      assert ChunkBytes([chunk]) == WordBytes(chunk) + ChunkBytes([]);
    } else {
      assert (chunks + [chunk])[1..] == chunks[1..] + [chunk];
      ChunkBytesSnoc(chunks[1..], chunk);
    }
  }

  /** Writes the chunks in use. */
  method WriteChunks(w: Writer, usages: seq<nat>, data: seq<seq<Word>>)
    requires w.Valid() && |usages| == |data| && forall j :: 0 <= j < |data| ==> usages[j] <= |data[j]|
    modifies w, w.data
    ensures w.Valid() && w.Stream() == old(w.Stream()) + ChunkBytes(UsedChunks(usages, data)[..Trimmed(usages)])
  {
    hide WordBytes, Trimmed, ChunkBytes;
    ghost var start, used, n := w.Stream(), UsedChunks(usages, data), Trimmed(usages);
    WordBytesNothing();
    for j := 0 to |usages|
      invariant w.Valid()
      invariant w.Stream() == start + ChunkBytes(used[..if j <= n then j else n])
    {
      if j < n {
        assert used[..j + 1] == used[..j] + [used[j]];
        ChunkBytesSnoc(used[..j], used[j]);
      }
      if usages[j] == 0 {
        continue;
      }
      w.Write(WordBytes(data[j][..usages[j]]));
    }
  }

  /** Writes one entry: header, usage array and chunks. */
  method WriteEntry(w: Writer, e: Entry)
    requires w.Valid() && e.Valid()
    modifies w, w.data
    ensures w.Valid() && w.Stream() == old(w.Stream()) + ItemBytes(ItemOf(e))
  {
    hide HeaderBytes, WordBytes, Trimmed, ChunkBytes, ItemBytes, ItemOf, Usages, Entry.Valid;
    EntryFits(e);
    EntryShape(e);
    ItemParts(e);
    ghost var item, start := ItemOf(e), w.Stream();
    var usages, nchunks := e.chunkUsage, e.nchunks;
    while nchunks > 0 && usages[nchunks - 1] == 0
      invariant Trimmed(usages) <= nchunks <= |usages|
    {
      nchunks := nchunks - 1;
    }
    assert nchunks == Trimmed(usages);
    HeaderIs(item);
    WordBytesNothing();
    hide UsedChunks, Header;
    ItemBytesBehind(item, start);
    w.Write(Header(e.key, e.limitBlock, nchunks));
    if nchunks != 0 {
      w.Write(WordBytes(usages[..nchunks]));
    }
    WriteChunks(w, usages, e.chunkData);
  }

  lemma ItemParts(e: Entry)
    requires e.Valid()
    ensures EntryFitted(e)
    ensures var item := ItemOf(e);
            && item.key == e.key && item.limit == e.limitBlock
            && item.chunks == UsedChunks(e.chunkUsage, e.chunkData)[..Trimmed(e.chunkUsage)]
            && |item.chunks| == Trimmed(e.chunkUsage) && Usages(item.chunks) == e.chunkUsage[..Trimmed(e.chunkUsage)]
  {
    hide Trimmed, Entry.Valid;
    EntryFits(e);
    EntryShape(e);
    var item := ItemOf(e);
    assert Usages(item.chunks) == e.chunkUsage[..Trimmed(e.chunkUsage)];
  }

  ghost predicate EntryFitted(e: Entry)
    reads e
  {
    |e.chunkUsage| == |e.chunkData| && forall j :: 0 <= j < |e.chunkData| ==> e.chunkUsage[j] <= |e.chunkData[j]|
  }

  lemma ItemBytesBehind(item: Item, start: seq<Byte>)
    ensures start + ItemBytes(item) ==
            ((start + HeaderBytes(item)) + WordBytes(Usages(item.chunks))) + ChunkBytes(item.chunks)
  {
    hide HeaderBytes, WordBytes, ChunkBytes;
  }

  lemma HeaderIs(item: Item)
    ensures Header(item.key, item.limit, |item.chunks|) == HeaderBytes(item)
  {}

  lemma EntryShape(e: Entry)
    requires e.Valid()
    ensures e.nchunks == |e.chunkSize| == |e.chunkUsage| == |e.chunkData|
  {}

  lemma WordBytesNothing()
    ensures WordBytes([]) == [] && ChunkBytes([]) == []
  {}

  /** The serialized header of an entry with `nchunks` chunks. */
  function Header(key: Key, limit: BlockNumber, nchunks: nat): seq<Byte>
  {
    ToBytes(key.spcOid, 4) + ToBytes(key.dbOid, 4) + ToBytes(key.relNumber, 4)
    + ToBytes(AsUnsigned(key.forknum), 4) + ToBytes(limit, 4) + ToBytes(nchunks, 4)
  }

  lemma DescribesAt(t: Table, order: seq<string>, items: seq<Item>, i: nat)
    requires Describes(t, order, items) && i < |order|
    ensures |items| == |order| && order[i] in t.entries
    ensures t.entries[order[i]].Valid() && items[i] == ItemOf(t.entries[order[i]])
  {}

  lemma DescribesAll(t: Table, order: seq<string>, items: seq<Item>)
    requires Describes(t, order, items)
    ensures |items| == |order|
  {}

  /** Writes the entries under the given keys. */
  method WriteEntries(t: Table, order: seq<string>, w: Writer, ghost items: seq<Item>)
    requires Describes(t, order, items) && w.Valid()
    modifies w, w.data
    ensures w.Valid() && w.Stream() == old(w.Stream()) + Body(items)
  {
    hide ItemBytes, ItemOf, Body, Writer.Stream, Entry.Valid, Table.Valid, Describes;
    ghost var start := w.Stream();
    DescribesAll(t, order, items);
    BodyNothing(start);
    for i := 0 to |order|
      invariant w.Valid() && Describes(t, order, items) && w.Stream() == start + Body(items[..i])
    {
      DescribesAt(t, order, items, i);
      BodyNext(items, i, start);
      WriteEntry(w, t.entries[order[i]]);
    }
    assert items[..|order|] == items;
  }

  lemma BodyNothing(start: seq<Byte>)
    ensures start + Body([]) == start
  {}

  lemma BodyNext(items: seq<Item>, i: nat, start: seq<Byte>)
    requires i < |items|
    ensures (start + Body(items[..i])) + ItemBytes(items[i]) == start + Body(items[..i + 1])
  {
    hide ItemBytes;
    assert items[..i + 1][..i] == items[..i];
  }

  /** Writes a table, its entries in the given order. */
  method WriteTable(t: Table, order: seq<string>, ghost items: seq<Item>) returns (file: seq<Byte>)
    requires Describes(t, order, items)
    ensures file == FileOf(items)
  {
    hide ItemBytes, ItemsBytes, Body, ToBytes, Entry.Valid, Table.Valid, Describes, Zeros;
    var w := new Writer();
    w.Write(ToBytes(BLOCKREFTABLE_MAGIC, MAGIC_SIZE));
    WriteEntries(t, order, w, items);
    w.Write(Zeros(HEADER_SIZE));
    w.Flush();
    BodyIsItems(items);
    file := w.file;
  }
}
