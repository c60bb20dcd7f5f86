/** Tables that do not survive being written and read back (src/libpgmoneta/brt.c). */
module BrtWitness {
  import opened Bytes
  import opened BrtEntry
  import opened BrtKey
  import opened BrtTable
  import opened BrtStream
  import opened BrtPlan
  import opened BrtFormat
  import opened BrtWrite
  import opened BrtRoundTrip
  import opened BrtCut

  /** The items of a whole table, in the given order. */
  ghost predicate Whole(t: Table, order: seq<string>, items: seq<Item>)
    reads t, t.entries.Values
  {
    Describes(t, order, items) && Covers(t, order) && ValidKeys(t)
  }

  /** The item of an entry without chunks. */
  lemma NewItem(e: Entry)
    requires e.Valid() && e.chunkUsage == []
    ensures ItemOf(e) == Item(e.key, e.limitBlock, [])
  {
    EntryFits(e);
    assert UsedChunks(e.chunkUsage, e.chunkData)[..0] == [];
  }

  /** Sets the limit of a fork that the table does not have. */
  method AddFork(t: Table, order: seq<string>, key: Key, limit: BlockNumber, ghost items: seq<Item>) returns (more: seq<string>)
    requires Whole(t, order, items) && ValidKey(key) && ArtKey(key) !in order
    modifies t, t.entries.Values
    ensures more == order + [ArtKey(key)] && Whole(t, more, items + [Item(key, limit, [])])
    ensures fresh(t.entries.Values - old(t.entries.Values))
  {
    hide ArtKey, Entry.Valid, ItemOf, Table.Meaning, Limited;
    var a := ArtKey(key);
    ghost var before := t.entries;
    t.SetLimitBlock(key, limit);
    more := order + [a];
    var e := t.entries[a];
    NewItem(e);
    assert forall i :: 0 <= i < |order| ==> t.entries[order[i]] == before[order[i]];
    assert forall i :: 0 <= i < |order| ==> DescribesOne(t.entries[order[i]], items[i]);
    assert DescribesOne(e, Item(key, limit, []));
  }

  method NoForks() returns (t: Table)
    ensures fresh(t) && t.entries == map[] && Whole(t, [], [])
  {
    t := new Table();
  }

  // ----- the entry that is written as the terminator -----

  /** A table whose one fork has all numbers zero and limit zero is read back without it. */
  method ZeroForkIsLost() returns (t: Table, u: Table)
    ensures t.Valid() && u.Valid() && u.Meaning() != t.Meaning()
  {
    hide ArtKey, Whole, Table.Meaning, Table.Valid;
    t := NoForks();
    var key := Key(0, 0, 0, 0);
    ghost var items := [Item(key, 0, [])];
    assert [] + items == items;
    var order := AddFork(t, [], key, 0, []);
    WholeParts(t, order, items);
    SmallZeroFile(key);
    ZeroIsThere(t, order, items);
    u := WriteThenReadSmall(t, order, items);
  }

  lemma ZeroIsThere(t: Table, order: seq<string>, items: seq<Item>)
    requires Describes(t, order, items) && items == [Item(Key(0, 0, 0, 0), 0, [])]
    ensures order[0] in t.entries && WrittenAsZero(t.entries[order[0]])
  {
    hide ItemOf, WrittenAsZero, Entry.Valid;
    DescribesAt(t, order, items, 0);
    ZeroItem(t.entries[order[0]]);
  }

  lemma WholeParts(t: Table, order: seq<string>, items: seq<Item>)
    requires Whole(t, order, items)
    ensures Describes(t, order, items) && Covers(t, order) && ValidKeys(t)
  {}

  lemma SmallZeroFile(key: Key)
    ensures |FileOf([Item(key, 0, [])])| <= BUFFER_SIZE
  {
    hide ItemsBytes, ItemsThen, ToBytes;
    ItemsAreThen([Item(key, 0, [])]);
    EmptyForksBytes([Item(key, 0, [])], Zeros(HEADER_SIZE));
  }

  // ----- more forks than the buffer has room for -----

  /** The table of so many created relations. */
  method CreateForks(n: nat) returns (t: Table, order: seq<string>)
    requires n <= 0x1000_0000
    ensures fresh(t) && Whole(t, order, Created(n))
  {
    hide ArtKey, Whole;
    ghost var items := Created(n);
    t := NoForks();
    order := [];
    assert items[..0] == [];
    for k := 0 to n
      invariant fresh(t) && fresh(t.entries.Values) && Whole(t, order, items[..k])
      invariant |order| == k && forall i :: 0 <= i < k ==> order[i] == ArtKey(items[i].key)
    {
      forall i | 0 <= i < k
        ensures ArtKey(items[i].key) != ArtKey(items[k].key)
      {
        SmallKeysDiffer(items[i].key, items[k].key);
      }
      assert items[..k] + [items[k]] == items[..k + 1];
      order := AddFork(t, order, Key(1663, 5, 16384 + k, 0), 0, items[..k]);
    }
    assert items[..n] == items;
  }

  /** A table of 2731 or more created relations is not read back. */
  method ManyForksAreLost(n: nat) returns (t: Table, order: seq<string>, u: Table, found: bool)
    requires FULL < n <= 0x1000_0000
    ensures Whole(t, order, Created(n)) && t.Valid() && u.Valid()
    ensures !found ==> u.Meaning() != t.Meaning()
    ensures found ==> forall ops :: Continued(u.Meaning(), ops) != t.Meaning()
  {
    hide Whole, Cut, Created, Shown, AsInt, AsUnsigned, Table.Meaning, Table.Valid, Continued;
    t, order := CreateForks(n);
    WholeParts(t, order, Created(n));
    CreatedIsCut(n);
    u, found := CutIsLost(t, order, Created(n));
  }
}
