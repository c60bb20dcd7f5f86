/** The block reference table: one entry per relation fork, found by the text of its key
    (src/libpgmoneta/brt.c), and what any run of updates leaves in it. */
module BrtTable {
  import opened BrtEntry
  import opened BrtKey

  /** What a table records about one fork. */
  datatype Fork = Fork(limit: BlockNumber, blocks: set<nat>)

  type Contents = map<string, Fork>

  /** Marking a block as modified. */
  ghost function Marked(m: Contents, a: string, b: nat): Contents
  {
    m[a := if a in m then Fork(m[a].limit, m[a].blocks + {b}) else Fork(InvalidBlockNumber, {b})]
  }

  /** Setting a limit block. */
  ghost function Limited(m: Contents, a: string, limit: BlockNumber): Contents
  {
    m[a := if a !in m then Fork(limit, {})
           else if limit < m[a].limit then Fork(limit, Below(m[a].blocks, limit))
           else m[a]]
  }

  lemma InsertThenMark(m: Contents, a: string, b: nat)
    ensures var n := if a in m then m else m[a := Fork(InvalidBlockNumber, {})];
            n[a := Fork(n[a].limit, n[a].blocks + {b})] == Marked(m, a, b)
  {
    var none: set<nat> := {};
    assert none + {b} == {b};
  }

  class Table {
    var entries: map<string, Entry>

    constructor ()
      ensures entries == map[] && Valid() && Meaning() == map[]
    {
      entries := map[];
    }

    ghost predicate Valid()
      reads this, entries.Values
    {
      forall a :: a in entries ==> entries[a].Valid() && ArtKey(entries[a].key) == a
    }

    ghost function Meaning(): (m: Contents)
      requires Valid()
      reads this, entries.Values
      ensures m.Keys == entries.Keys
      ensures forall a :: a in entries ==> m[a] == Fork(entries[a].limitBlock, entries[a].Blocks())
    {
      map a | a in entries :: Fork(entries[a].limitBlock, entries[a].Blocks())
    }

    /** Finds the entry of a key, or inserts an empty one with the given limit. */
    method Insert(key: Key, limit: BlockNumber) returns (entry: Entry, found: bool)
      requires Valid()
      modifies `entries
      ensures Valid() && ArtKey(key) in entries && entry == entries[ArtKey(key)]
      ensures found == (ArtKey(key) in old(entries))
      ensures found ==> entries == old(entries)
      ensures !found ==> fresh(entry) && entries == old(entries)[ArtKey(key) := entry]
      ensures !found ==> entry.key == key && entry.limitBlock == limit && entry.chunkUsage == []
      ensures Meaning() == if found then old(Meaning()) else old(Meaning())[ArtKey(key) := Fork(limit, {})]
    {
      hide ArtKey, Entry.Valid, Entry.Blocks, Entry.HasBlock;
      var a := ArtKey(key);
      if a in entries {
        return entries[a], true;
      }
      found := false;
      entry := new Entry(key, limit);
      entries := entries[a := entry];
      assert entry.Blocks() == {};
    }

    /** Only the entry under `a` was changed. */
    twostate lemma OneChanged(a: string)
      requires old(Valid()) && entries == old(entries) && a in entries && entries[a].Valid()
      requires forall c :: c in entries && c != a ==> unchanged(entries[c])
      ensures Valid() && Meaning() == old(Meaning())[a := Fork(entries[a].limitBlock, entries[a].Blocks())]
    {
      hide ArtKey, Entry.Valid, Entry.Blocks, Entry.HasBlock;
      assert forall c :: c in entries && c != a ==>
          entries[c].Blocks() == old(entries[c].Blocks()) && entries[c].limitBlock == old(entries[c].limitBlock);
    }

    method MarkBlockModified(key: Key, b: BlockNumber)
      requires Valid()
      modifies this, entries.Values
      ensures Valid() && Meaning() == Marked(old(Meaning()), ArtKey(key), b)
      ensures fresh(entries.Values - old(entries.Values))
    {
      hide ArtKey, Marked, Entry.Valid, Entry.Blocks, Entry.HasBlock;
      var entry, _ := Insert(key, InvalidBlockNumber);
      label found:
      entry.MarkBlockModified(b);
      assert forall c :: c in entries && c != ArtKey(key) ==> entries[c] != entry;
      OneChanged@found(ArtKey(key));
      InsertThenMark(old(Meaning()), ArtKey(key), b);
    }

    method SetLimitBlock(key: Key, limit: BlockNumber)
      requires Valid()
      modifies this, entries.Values
      ensures Valid() && Meaning() == Limited(old(Meaning()), ArtKey(key), limit)
      ensures fresh(entries.Values - old(entries.Values))
      ensures ArtKey(key) in entries && entries == old(entries)[ArtKey(key) := entries[ArtKey(key)]]
      ensures ArtKey(key) !in old(entries) ==>
                && fresh(entries[ArtKey(key)]) && (forall a :: a in old(entries) ==> unchanged(old(entries)[a]))
                && entries[ArtKey(key)].key == key && entries[ArtKey(key)].limitBlock == limit
                && entries[ArtKey(key)].chunkUsage == []
    {
      hide ArtKey, Entry.Valid, Entry.Blocks, Entry.HasBlock;
      var entry, found := Insert(key, limit);
      if !found {
        return;
      }
      label inserted:
      entry.SetLimitBlock(limit);
      assert forall c :: c in entries && c != ArtKey(key) ==> entries[c] != entry;
      OneChanged@inserted(ArtKey(key));
    }
  }

  // ----- whole runs -----

  datatype Op = Mark(a: string, b: BlockNumber) | Limit(a: string, l: BlockNumber)

  ghost function Apply(m: Contents, op: Op): Contents
  {
    match op
    case Mark(a, b) => Marked(m, a, b)
    case Limit(a, l) => Limited(m, a, l)
  }

  /** What further updates make of a table. */
  ghost function Continued(m: Contents, ops: seq<Op>): Contents
  {
    if ops == [] then m else Apply(Continued(m, ops[..|ops| - 1]), ops[|ops| - 1])
  }

  /** What a run of updates leaves in an empty table. */
  ghost function Run(ops: seq<Op>): Contents
  {
    Continued(map[], ops)
  }

  /** No update takes a fork out of a table. */
  lemma {:induction false} ForksStay(m: Contents, ops: seq<Op>, a: string)
    requires a in m
    ensures a in Continued(m, ops)
  {
    if ops != [] {
      ForksStay(m, ops[..|ops| - 1], a);
    }
  }

  /** The smallest limit set for a fork. */
  ghost function MinLimit(ops: seq<Op>, a: string): BlockNumber
  {
    if ops == [] then InvalidBlockNumber
    else
      var m := MinLimit(ops[..|ops| - 1], a);
      var op := ops[|ops| - 1];
      if op.Limit? && op.a == a && op.l < m then op.l else m
  }

  /** The mark at position `i` was not undone: no later limit that lowered the recorded one is at or
      below its block. */
  ghost predicate Survives(ops: seq<Op>, i: nat)
    requires i < |ops| && ops[i].Mark?
  {
    forall j: nat :: i < j < |ops| && Lowers(ops, j, ops[i].a) ==> ops[i].b < ops[j].l
  }

  ghost predicate Lowers(ops: seq<Op>, j: nat, a: string)
    requires j < |ops|
  {
    ops[j].Limit? && ops[j].a == a && ops[j].l < MinLimit(ops[..j], a)
  }

  predicate IsMark(op: Op, a: string, b: nat)
  {
    op.Mark? && op.a == a && op.b == b
  }

  ghost predicate MarkedBy(ops: seq<Op>, a: string, b: nat)
  {
    exists i: nat :: i < |ops| && IsMark(ops[i], a, b) && Survives(ops, i)
  }

  /** After any run, a fork has an entry if it was mentioned, its limit is the smallest one set, and a
      block is recorded exactly if it was marked and not cut off by a lower limit afterwards. */
  lemma {:induction false} RunMeaning(ops: seq<Op>, a: string, b: nat)
    ensures a in Run(ops) <==> exists i :: 0 <= i < |ops| && ops[i].a == a
    ensures a in Run(ops) ==> Run(ops)[a].limit == MinLimit(ops, a)
    ensures a in Run(ops) ==> (b in Run(ops)[a].blocks <==> MarkedBy(ops, a, b))
  {
    if ops != [] {
      var front, last := ops[..|ops| - 1], ops[|ops| - 1];
      RunMeaning(front, a, b);
      MarkedBySnoc(front, last, a, b);
      if forall i :: 0 <= i < |front| ==> front[i].a != a {
        FirstMention(front, a, b);
      }
      assert front + [last] == ops;
    }
  }

  lemma {:induction false} FirstMention(ops: seq<Op>, a: string, b: nat)
    requires forall i :: 0 <= i < |ops| ==> ops[i].a != a
    ensures MinLimit(ops, a) == InvalidBlockNumber && !MarkedBy(ops, a, b)
  {
    if ops != [] {
      FirstMention(ops[..|ops| - 1], a, b);
    }
  }

  lemma SurvivesSnoc(ops: seq<Op>, op: Op, i: nat)
    requires i < |ops| && ops[i].Mark?
    ensures Survives(ops + [op], i) <==>
            Survives(ops, i) && (op.Limit? && op.a == ops[i].a && op.l < MinLimit(ops, op.a) ==> ops[i].b < op.l)
  {
    var all := ops + [op];
    assert all[..|ops|] == ops;
    forall j: nat | j < |ops|
      ensures Lowers(all, j, ops[i].a) == Lowers(ops, j, ops[i].a)
    {
      assert all[..j] == ops[..j];
    }
    assert Lowers(all, |ops|, ops[i].a) <==> op.Limit? && op.a == ops[i].a && op.l < MinLimit(ops, op.a);
  }

  lemma MarkedBySnoc(ops: seq<Op>, op: Op, a: string, b: nat)
    ensures MarkedBy(ops + [op], a, b) <==>
            || IsMark(op, a, b)
            || (MarkedBy(ops, a, b) && (op.Limit? && op.a == a && op.l < MinLimit(ops, a) ==> b < op.l))
  {
    var all := ops + [op];
    if MarkedBy(all, a, b) && !IsMark(op, a, b) {
      var i: nat :| i < |all| && IsMark(all[i], a, b) && Survives(all, i);
      SurvivesSnoc(ops, op, i);
    }
    if MarkedBy(ops, a, b) {
      var i: nat :| i < |ops| && IsMark(ops[i], a, b) && Survives(ops, i);
      SurvivesSnoc(ops, op, i);
      assert IsMark(all[i], a, b);
    }
    if IsMark(op, a, b) {
      assert IsMark(all[|ops|], a, b) && Survives(all, |ops|);
    }
  }
}
