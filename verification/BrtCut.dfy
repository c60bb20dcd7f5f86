/** Tables whose file has a header across the end of the 64 KiB buffer (src/libpgmoneta/brt.c): the
    reader does not get their forks back. */
module BrtCut {
  import opened Bytes
  import opened BrtChunk
  import opened BrtEntry
  import opened BrtKey
  import opened BrtTable
  import opened BrtStream
  import opened BrtPlan
  import opened BrtFormat
  import opened BrtWrite
  import opened BrtRead
  import opened BrtRoundTrip

  /** So many headers without chunks fit the first buffer behind the magic number; half of the next
      one does. */
  const FULL := 2730
  const HALF := 12

  // ----- up to the cut -----

  function HeadersPlan(k: nat): seq<nat>
  {
    if k == 0 then [] else [HEADER_SIZE, 0] + HeadersPlan(k - 1)
  }

  lemma {:induction false} HeadersHeld(pending: nat, rest: nat, k: nat)
    requires HEADER_SIZE * k <= pending
    ensures Sum(HeadersPlan(k)) == HEADER_SIZE * k && NoStraddle(pending, rest, HeadersPlan(k))
  {
    if 0 < k {
      HeadersHeld(pending - HEADER_SIZE, rest, k - 1);
      HeaderStep(pending, rest, HeadersPlan(k - 1));
    }
  }

  lemma {:induction false} HeadersOnly(buf: seq<Word>, items: seq<Item>)
    requires |buf| == MAX_ENTRIES_PER_CHUNK && ValidItems(items) && NoBlocks(items)
    ensures var plan := ItemsPlan(buf, items, []);
            Lengths(plan) == HeadersPlan(|items|) && ValidRequests(plan)
    decreases items
  {
    var plan := ItemsPlan(buf, items, []);
    if items != [] {
      var rest := ItemsPlan(BufAfter(buf, items[0].chunks), items[1..], []);
      HeadersOnly(BufAfter(buf, items[0].chunks), items[1..]);
      assert plan == [Unknown(HEADER_SIZE), Unknown(0)] + rest;
      assert Lengths(plan) == [HEADER_SIZE, 0] + Lengths(rest);
    }
  }

  lemma {:induction false} ItemsThenSplit(items: seq<Item>, k: nat, more: seq<Byte>)
    requires k <= |items|
    ensures ItemsThen(items, more) == ItemsThen(items[..k], ItemsThen(items[k..], more))
    decreases items
  {
    hide ItemBytes;
    if 0 < k {
      ItemsThenSplit(items[1..], k - 1, more);
      assert items[..k][1..] == items[1..][..k - 1] && items[1..][k - 1..] == items[k..];
    } else {
      assert items[k..] == items;
    }
  }

  lemma {:induction false} ItemsAtLeast(items: seq<Item>, more: seq<Byte>)
    ensures |ItemsThen(items, more)| >= HEADER_SIZE * |items| + |more|
    decreases items
  {
    if items != [] {
      ItemsAtLeast(items[1..], more);
    }
  }

  /** The items of a file with more than 2730 forks, the first 2730 without modified blocks. */
  ghost predicate Cut(items: seq<Item>)
  {
    && ValidItems(items) && DistinctKeys(items) && FULL < |items| && NoBlocks(items[..FULL])
    && forall i :: 0 <= i < FULL ==> !IsZero(items[i])
  }

  lemma ServesFirst(r: Reader, items: seq<Item>, more: seq<Byte>)
    requires Cut(items) && more == ItemsThen(items[FULL..], Zeros(HEADER_SIZE))
    requires r.Valid() && r.At() == Pos([], FileOf(items))
    ensures Serves(r, ToBytes(BLOCKREFTABLE_MAGIC, MAGIC_SIZE) + ItemsThen(items[..FULL], more),
                   [Unknown(MAGIC_SIZE)] + ItemsPlan(EmptyBuf(), items[..FULL], []))
    ensures BUFFER_SIZE <= |FileOf(items)|
  {
    hide ToBytes, ItemsThen, ItemsPlan, ItemsBytes, After, AllSafe, NoStraddle, HeadersPlan;
    var first, file := items[..FULL], FileOf(items);
    ItemsAreThen(items);
    ItemsThenSplit(items, FULL, Zeros(HEADER_SIZE));
    ItemsAtLeast(items, Zeros(HEADER_SIZE));
    assert [] + file == file;
    var headers := ItemsPlan(EmptyBuf(), first, []);
    HeadersOnly(EmptyBuf(), first);
    MagicThenHeaders(r.At(), headers);
  }

  lemma MagicThenHeaders(p: Pos, headers: seq<Request>)
    requires p.pending == [] && BUFFER_SIZE <= |p.rest|
    requires ValidRequests(headers) && Lengths(headers) == HeadersPlan(FULL)
    ensures var plan := [Unknown(MAGIC_SIZE)] + headers;
            ValidRequests(plan) && Total(plan) <= |p.pending| + |p.rest| && AllSafe(p, plan)
  {
    hide HeadersPlan, AllSafe;
    var plan := [Unknown(MAGIC_SIZE)] + headers;
    assert Lengths(plan) == [MAGIC_SIZE] + HeadersPlan(FULL) && Lengths(plan)[1..] == HeadersPlan(FULL);
    HeadersHeld(BUFFER_SIZE - MAGIC_SIZE, |p.rest| - BUFFER_SIZE, FULL);
    TotalIsSum(plan);
    SafeByLengths(p, plan);
  }

  // ----- the cut header -----

  /** A header of which the buffer holds the first half: its second half comes first, over it, and behind
      that stands what the memory held before. */
  method ReadCutHeader(r: Reader, ghost item: Item, ghost more: seq<Byte>) returns (header: seq<Byte>)
    requires r.Valid() && r.Held() == HALF && ValidItem(item)
    requires r.At().pending + r.At().rest == HeaderBytes(item) + more
    modifies r, r.data
    ensures r.Valid() && |header| == HEADER_SIZE && header[..HALF] == HeaderBytes(item)[HALF..]
  {
    hide Read, HeaderBytes, After;
    var dest := new Byte[HEADER_SIZE];
    ghost var p := r.At();
    ReadMeaning(p, dest[..], HEADER_SIZE);
    assert (HeaderBytes(item) + more)[HALF..HEADER_SIZE] == HeaderBytes(item)[HALF..];
    assert p.rest[..HALF] == (p.pending + p.rest)[HALF..HEADER_SIZE];
    var ok := r.ReadInto(dest, HEADER_SIZE);
    header := dest[..];
  }

  /** When the terminator behind 2730 forks without modified blocks is cut, it is recognised exactly if the second
      half of the uninitialised header happened to be zero. */
  lemma CutTerminator(p: Pos, dest: seq<Byte>)
    requires |p.pending| == HALF && p.pending + p.rest == Zeros(HEADER_SIZE) && |dest| == HEADER_SIZE
    ensures Read(p, dest, HEADER_SIZE).dest == Zeros(HEADER_SIZE) <==> dest[HALF..] == Zeros(HALF)
  {
    hide Read, After;
    ReadMeaning(p, dest, HEADER_SIZE);
    assert p.pending == (p.pending + p.rest)[..HALF] == Zeros(HALF);
    assert p.rest == (p.pending + p.rest)[HALF..] == Zeros(HALF);
    assert Overwritten(p, dest) == Zeros(HALF) + dest[HALF..];
    assert Zeros(HEADER_SIZE) == Zeros(HALF) + Zeros(HALF);
    assert (Zeros(HALF) + dest[HALF..])[HALF..] == dest[HALF..];
  }

  /** The number of the tablespace is then the fork number. */
  lemma CutKey(item: Item, header: seq<Byte>)
    requires ValidItem(item) && |header| == HEADER_SIZE && header[..HALF] == HeaderBytes(item)[HALF..]
    ensures FromBytes(header[0..4]) == AsUnsigned(item.key.forknum)
  {
    hide ToBytes, FromBytes;
    assert header[0..4] == header[..HALF][0..4] == HeaderBytes(item)[HALF..][0..4];
    assert HeaderBytes(item)[HALF..][0..4] == ToBytes(AsUnsigned(item.key.forknum), 4);
    FourBytes(AsUnsigned(item.key.forknum));
  }

  lemma FieldBound(header: seq<Byte>, i: nat)
    requires |header| == HEADER_SIZE && i + 4 <= HEADER_SIZE
    ensures FromBytes(header[i..i + 4]) < 0x1_0000_0000
  {
    assert Pow256(2) == 0x1_0000 && Pow256(4) == 0x1_0000_0000;
    FromBytesBound(header[i..i + 4]);
  }

  lemma CutParts(items: seq<Item>)
    requires Cut(items)
    ensures ValidItems(items) && DistinctKeys(items) && FULL < |items| && FULL <= FirstZero(items)
    ensures ValidItem(items[FULL]) && ValidItems(items[..FULL]) && DistinctKeys(items[..FULL])
    ensures forall i :: 0 <= i < FULL ==> !IsZero(items[..FULL][i]) && items[..FULL][i].chunks == []
  {
    hide ArtKey, ValidItem, IsZero;
  }

  /** What follows the first forks: the cut header and the rest. */
  ghost function Behind(items: seq<Item>): seq<Byte>
    requires FULL < |items|
  {
    var chunks := items[FULL].chunks;
    WordBytes(Usages(chunks)) + (ChunkBytes(chunks) + ItemsThen(items[FULL + 1..], Zeros(HEADER_SIZE)))
  }

  lemma HeaderNext(items: seq<Item>)
    requires FULL < |items|
    ensures ItemsThen(items[FULL..], Zeros(HEADER_SIZE)) == HeaderBytes(items[FULL]) + Behind(items)
  {
    hide HeaderBytes, WordBytes, ChunkBytes, Usages;
    assert items[FULL..][0] == items[FULL] && items[FULL..][1..] == items[FULL + 1..];
  }

  lemma Served(r: Reader, bytes: seq<Byte>)
    requires Serves(r, bytes, [])
    ensures r.Valid() && r.At().pending + r.At().rest == bytes
  {}

  /** The rounds of the loop for the forks whose headers the first buffer holds. */
  method ReadFull(file: seq<Byte>, ghost items: seq<Item>) returns (t: Table, r: TableReader)
    requires Cut(items) && file == FileOf(items)
    ensures fresh(t) && t.Valid() && fresh(t.entries.Values) && t.Meaning() == MeaningOf(items[..FULL])
    ensures fresh(r.reader) && fresh(r.reader.data) && r.reader.Valid() && r.reader.Held() == HALF
    ensures r.reader.At().pending + r.reader.At().rest == HeaderBytes(items[FULL]) + Behind(items)
  {
    hide ArtKey, Entry.Valid, Entry.Blocks, Table.Valid, Table.Meaning, MeaningOf, IsZero, FirstZero, Serves, Reader.At;
    hide ToBytes, HeaderBytes, ItemsThen, ItemsPlan, ItemsBytes, Cut, FileOf, DistinctKeys, Behind;
    CutParts(items);
    HeaderNext(items);
    ghost var first, more := items[..FULL], ItemsThen(items[FULL..], Zeros(HEADER_SIZE));
    t := new Table();
    r := new TableReader(file);
    ServesFirst(r.reader, items, more);
    NewReader(r.reader, file);
    var b := TakeNew(r.reader, MAGIC_SIZE, ToBytes(BLOCKREFTABLE_MAGIC, MAGIC_SIZE), ItemsThen(first, more),
                     ItemsPlan(EmptyBuf(), first, []));
    NothingMeant(first);
    for i := 0 to FULL
      invariant t.Valid() && fresh(t.entries.Values) && t.Meaning() == MeaningOf(first[..i])
      invariant |r.chunkData| == MAX_ENTRIES_PER_CHUNK && r.reader.Held() == BUFFER_SIZE - MAGIC_SIZE - HEADER_SIZE * i
      invariant Serves(r.reader, ItemsThen(first[i..], more), ItemsPlan(r.chunkData, first[i..], []))
    {
      var found := LoadNext(t, r, i, first, more, []);
    }
    NoneLeft(r.chunkData, first, more);
    assert first[..FULL] == first;
    Served(r.reader, more);
  }

  lemma NewReader(r: Reader, file: seq<Byte>)
    requires r.Valid() && r.At() == Pos([], file)
    ensures r.Held() == 0 && r.Left() == |file|
  {
    assert |r.At().pending| == r.Held() && |r.At().rest| == r.Left();
  }

  lemma NoneLeft(buf: seq<Word>, first: seq<Item>, more: seq<Byte>)
    requires |buf| == MAX_ENTRIES_PER_CHUNK && |first| == FULL && ValidItems(first)
    ensures ItemsThen(first[FULL..], more) == more && ItemsPlan(buf, first[FULL..], []) == []
  {}

  /** The key and the limit in a header. */
  method Fields(header: seq<Byte>) returns (key: Key, limit: BlockNumber)
    requires |header| == HEADER_SIZE
    ensures ValidKey(key) && key.spcOid == FromBytes(header[0..4])
  {
    hide FromBytes;
    FieldBound(header, 0);
    FieldBound(header, 4);
    FieldBound(header, 8);
    FieldBound(header, 16);
    key := Key(FromBytes(header[0..4]), FromBytes(header[4..8]), FromBytes(header[8..12]),
               AsInt(FromBytes(header[12..16]) % 0x1_0000_0000));
    limit := FromBytes(header[16..20]);
  }

  /** The round of the loop that meets the cut header: a key made of parts, or no key at all. */
  method NextCut(r: Reader, ghost item: Item, ghost more: seq<Byte>) returns (found: bool, key: Key, limit: BlockNumber)
    requires r.Valid() && r.Held() == HALF && ValidItem(item)
    requires r.At().pending + r.At().rest == HeaderBytes(item) + more
    modifies r, r.data
    ensures found ==> ValidKey(key) && key.spcOid == AsUnsigned(item.key.forknum)
  {
    hide FromBytes, HeaderBytes, Reader.At, Read;
    key, limit := Key(0, 0, 0, 0), 0;
    var header := ReadCutHeader(r, item, more);
    CutKey(item, header);
    if header == Zeros(HEADER_SIZE) {
      return false, key, limit;
    }
    key, limit := Fields(header);
    var sizes := new Byte[2 * FromBytes(header[20..24])];
    var ok := r.ReadInto(sizes, sizes.Length);
    found := true;
  }

  /** The loop of the reader up to the cut header: the first 2730 forks are loaded, and then either the
      reader stops or it makes an entry for a key whose tablespace is a fork number. */
  method ReadCut(file: seq<Byte>, ghost items: seq<Item>) returns (t: Table, found: bool, key: Key, limit: BlockNumber)
    requires Cut(items) && file == FileOf(items)
    ensures t.Valid() && ValidItems(items)
    ensures found ==> ValidKey(key) && key.spcOid == AsUnsigned(items[FULL].key.forknum)
    ensures found ==> t.Meaning() == Limited(MeaningOf(items[..FULL]), ArtKey(key), limit)
    ensures !found ==> t.Meaning() == MeaningOf(items[..FULL])
  {
    hide ArtKey, Entry.Valid, Entry.Blocks, Table.Valid, Table.Meaning, Limited, MeaningOf, Reader.At;
    hide HeaderBytes, Cut, FileOf, DistinctKeys, Behind;
    CutParts(items);
    var r;
    t, r := ReadFull(file, items);
    found, key, limit := NextCut(r.reader, items[FULL], Behind(items));
    if found {
      t.SetLimitBlock(key, limit);
    }
  }

  // ----- what is lost -----

  /** The first forks are not all of them. */
  lemma PartIsLost(items: seq<Item>)
    requires Cut(items)
    ensures ValidItems(items) && MeaningOf(items[..FULL]) != MeaningOf(items)
  {
    hide ArtKey, ForkOf, ValidItem, MeaningOf;
    MeaningAt(items, FULL);
    NotYetThere(items, FULL);
  }

  /** A key that is not in the file stays in the table, whatever is read behind it. */
  lemma WrongKeyStays(items: seq<Item>, key: Key, limit: BlockNumber, ops: seq<Op>)
    requires ValidItems(items) && FULL < |items| && ValidKey(key)
    requires forall i :: 0 <= i < |items| ==> Shown(AsInt(items[i].key.spcOid)) != Shown(AsInt(key.spcOid))
    ensures Continued(Limited(MeaningOf(items[..FULL]), ArtKey(key), limit), ops) != MeaningOf(items)
  {
    hide ArtKey, ForkOf, MeaningOf, Continued, Shown, AsInt;
    var a := ArtKey(key);
    forall i | 0 <= i < |items|
      ensures ArtKey(items[i].key) != a
    {
      assert ValidItem(items[i]);
      KeysCollide(items[i].key, key);
    }
    MeaningKeys(items, a);
    ForksStay(Limited(MeaningOf(items[..FULL]), a, limit), ops, a);
  }

  /** A table with more than 2730 forks in tablespaces whose numbers do not look like the fork number in
      the cut header is not read back: what the reader has after that header differs from the table,
      and if it goes on, so does what any further limits and marks make of it. */
  method CutIsLost(t: Table, order: seq<string>, ghost items: seq<Item>) returns (u: Table, found: bool)
    requires Describes(t, order, items) && Covers(t, order) && ValidKeys(t) && Cut(items)
    requires forall i :: 0 <= i < |items| ==>
               Shown(AsInt(items[i].key.spcOid)) != Shown(AsInt(AsUnsigned(items[FULL].key.forknum)))
    ensures t.Valid() && u.Valid()
    ensures !found ==> u.Meaning() != t.Meaning()
    ensures found ==> forall ops :: Continued(u.Meaning(), ops) != t.Meaning()
  {
    hide ArtKey, Table.Valid, Describes, Covers, ValidKeys, Cut, MeaningOf, FileOf, Shown, AsInt, Limited, Continued;
    ItemsMeanTable(t, order, items);
    DescribesValid(t, order, items);
    CutParts(items);
    PartIsLost(items);
    var file := WriteTable(t, order, items);
    var key, limit;
    u, found, key, limit := ReadCut(file, items);
    if found {
      forall ops
        ensures Continued(u.Meaning(), ops) != t.Meaning()
      {
        WrongKeyStays(items, key, limit, ops);
      }
    }
  }

  // ----- such a table -----

  /** Relations created in the default tablespace. */
  function Created(n: nat): (items: seq<Item>)
    requires n <= 0x1000_0000
    ensures |items| == n
  {
    seq(n, i requires 0 <= i < n <= 0x1000_0000 => Item(Key(1663, 5, 16384 + i, 0), 0, []))
  }

  lemma CreatedIsCut(n: nat)
    requires FULL < n <= 0x1000_0000
    ensures Cut(Created(n))
    ensures forall i :: 0 <= i < n ==> Shown(AsInt(Created(n)[i].key.spcOid)) == 1663
    ensures Shown(AsInt(AsUnsigned(Created(n)[FULL].key.forknum))) == 0
  {
    hide ArtKey;
    var items := Created(n);
    forall i, j | 0 <= i < j < n
      ensures ArtKey(items[i].key) != ArtKey(items[j].key)
    {
      SmallKeysDiffer(items[i].key, items[j].key);
    }
  }
}
