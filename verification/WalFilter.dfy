/** The transaction filters of src/walfilter.c: DELETE operations and lists of XIDs are turned into
    NOOP records, in place, over all files. */
module WalFilter {
  import opened Bytes
  import opened Text
  import opened WalRecords

  const DELETE := "DELETE"

  /** One WAL file in memory; only its records change. */
  class WalFile {
    var records: seq<Record>

    constructor (records: seq<Record>)
      ensures this.records == records
    {
      this.records := records;
    }
  }

  /** The cast of a listed int to an unsigned transaction id. */
  function ToXid(x: int): U32
  {
    x % 0x1_0000_0000
  }

  ghost function Present(files: seq<WalFile?>): set<WalFile?>
  {
    set f: WalFile? | f in files && f != null
  }

  /** `c` lists the records of every file; a missing file has none. */
  ghost predicate Holds(files: seq<WalFile?>, c: seq<seq<Record>>)
    reads Present(files)
  {
    |c| == |files| && forall i :: 0 <= i < |files| ==> HoldsOne(files[i], c[i])
  }

  ghost predicate HoldsOne(file: WalFile?, records: seq<Record>)
    reads if file == null then {} else {file}
  {
    records == if file == null then [] else file.records
  }

  ghost predicate Distinct(files: seq<WalFile?>)
  {
    forall i, j :: 0 <= i < j < |files| && files[i] != null ==> files[i] != files[j]
  }

  // ----- what the filters mean -----

  function Mark(r: Record, deletes: bool, xids: set<U32>): Record
  {
    if (deletes && IsHeapDelete(r)) || r.xid in xids || r.toplevelXid in xids then ToNoop(r) else r
  }

  function MarkFile(records: seq<Record>, deletes: bool, xids: set<U32>): (m: seq<Record>)
    ensures |m| == |records|
    ensures forall j :: 0 <= j < |records| ==> m[j] == Mark(records[j], deletes, xids)
  {
    seq(|records|, j requires 0 <= j < |records| => Mark(records[j], deletes, xids))
  }

  function MarkAll(c: seq<seq<Record>>, deletes: bool, xids: set<U32>): (m: seq<seq<Record>>)
    ensures |m| == |c|
    ensures forall i :: 0 <= i < |c| ==> m[i] == MarkFile(c[i], deletes, xids)
  {
    seq(|c|, i requires 0 <= i < |c| => MarkFile(c[i], deletes, xids))
  }

  /** The xmax of every heap DELETE that carries main data. */
  function DeletedXids(records: seq<Record>): set<U32>
  {
    set r | r in records && IsHeapDelete(r) && r.xmax.Some? :: r.xmax.value
  }

  function AllDeletedXids(c: seq<seq<Record>>): set<U32>
  {
    set records, x | records in c && x in DeletedXids(records) :: x
  }

  function ListedXids(xids: seq<int>): set<U32>
  {
    set x | x in xids :: ToXid(x)
  }

  // ----- laws of the marking -----

  /** The XID filter after the DELETE filter is one marking by the union of both lists. */
  lemma MarkTwice(c: seq<seq<Record>>, d: set<U32>, b: set<U32>)
    ensures MarkAll(MarkAll(c, true, d), false, b) == MarkAll(c, true, d + b)
  {
    var left, right := MarkAll(MarkAll(c, true, d), false, b), MarkAll(c, true, d + b);
    forall i | 0 <= i < |c|
      ensures left[i] == right[i]
    {
      forall j | 0 <= j < |c[i]|
        ensures left[i][j] == right[i][j]
      {
        assert MarkAll(c, true, d)[i][j] == Mark(c[i][j], true, d);
      }
    }
  }

  lemma MarkNothing(c: seq<seq<Record>>)
    ensures MarkAll(c, false, {}) == c
  {
    forall i | 0 <= i < |c|
      ensures MarkFile(c[i], false, {}) == c[i]
    {
    }
  }

  /** After the DELETE filter no DELETE is left, so repeating it changes nothing. */
  lemma DeleteFilterIdempotent(c: seq<seq<Record>>)
    ensures var once := MarkAll(c, true, AllDeletedXids(c));
            AllDeletedXids(once) == {} && MarkAll(once, true, AllDeletedXids(once)) == once
  {
    var once := MarkAll(c, true, AllDeletedXids(c));
    forall i, j | 0 <= i < |once| && 0 <= j < |once[i]|
      ensures !IsHeapDelete(once[i][j])
    {
    }
    hide IsHeapDelete;
    assert AllDeletedXids(once) == {};
    forall i | 0 <= i < |once|
      ensures MarkFile(once[i], true, {}) == once[i]
    {
    }
  }

  // ----- the loops -----

  /** The linear search of XID_IS_DELETED. */
  method IsDeleted(xids: seq<U32>, xid: U32) returns (found: bool)
    ensures found == (xid in xids)
  {
    for k := 0 to |xids|
      invariant xid !in xids[..k]
    {
      if xids[k] == xid {
        return true;
      }
    }
    found := false;
  }

  /** The linear search of XID_IS_FILTERED, which casts every listed int. */
  method IsFiltered(xids: seq<int>, xid: U32) returns (found: bool)
    ensures found == (xid in ListedXids(xids))
  {
    for k := 0 to |xids|
      invariant forall l :: 0 <= l < k ==> ToXid(xids[l]) != xid
    {
      if ToXid(xids[k]) == xid {
        return true;
      }
    }
    found := false;
  }

  ghost predicate NoDuplicates(xids: seq<U32>)
  {
    forall i, j :: 0 <= i < j < |xids| ==> xids[i] != xids[j]
  }

  /** The first pass over one file: adds the new XIDs of its DELETE records. */
  method CollectFile(records: seq<Record>, xids: seq<U32>) returns (r: seq<U32>)
    requires NoDuplicates(xids)
    ensures NoDuplicates(r) && (set x | x in r) == (set x | x in xids) + DeletedXids(records)
  {
    r := xids;
    for j := 0 to |records|
      invariant NoDuplicates(r)
      invariant forall x :: x in r <==> x in xids || x in DeletedXids(records[..j])
    {
      DeletedSnoc(records, j);
      if records[j].rmid == RM_HEAP_ID {
        var info := records[j].info & !XLR_INFO_MASK;
        info := info & XLOG_HEAP_OPMASK;
        if info == XLOG_HEAP_DELETE {
          if records[j].xmax.None? {
            continue;
          }
          var exists_ := IsDeleted(r, records[j].xmax.value);
          if exists_ {
            continue;
          }
          r := r + [records[j].xmax.value];
        }
      }
    }
    assert records[..|records|] == records;
  }

  lemma DeletedSnoc(records: seq<Record>, j: nat)
    requires j < |records|
    ensures DeletedXids(records[..j + 1]) == DeletedXids(records[..j]) +
            (if IsHeapDelete(records[j]) && records[j].xmax.Some? then {records[j].xmax.value} else {})
  {
    assert records[..j + 1] == records[..j] + [records[j]];
  }

  lemma AllDeletedSnoc(c: seq<seq<Record>>, i: nat)
    requires i < |c|
    ensures AllDeletedXids(c[..i + 1]) == AllDeletedXids(c[..i]) + DeletedXids(c[i])
  {
    assert c[..i + 1] == c[..i] + [c[i]];
  }

  /** The first pass over all files. */
  method CollectDeletedXids(files: seq<WalFile?>, ghost c: seq<seq<Record>>) returns (xids: seq<U32>)
    requires Holds(files, c)
    ensures NoDuplicates(xids) && (set x | x in xids) == AllDeletedXids(c)
  {
    xids := [];
    for i := 0 to |files|
      invariant NoDuplicates(xids)
      invariant (set x | x in xids) == AllDeletedXids(c[..i])
    {
      AllDeletedSnoc(c, i);
      assert HoldsOne(files[i], c[i]);
      if files[i] == null {
        assert DeletedXids([]) == {};
        continue;
      }
      xids := CollectFile(files[i].records, xids);
    }
    assert c[..|files|] == c;
  }

  /** The second pass over one file. */
  method MarkDeletes(file: WalFile, xids: seq<U32>)
    modifies file
    ensures file.records == MarkFile(old(file.records), true, set x | x in xids)
  {
    ghost var before, listed := file.records, set x | x in xids;
    for j := 0 to |file.records|
      invariant |file.records| == |before|
      invariant forall l :: 0 <= l < j ==> file.records[l] == Mark(before[l], true, listed)
      invariant forall l :: j <= l < |before| ==> file.records[l] == before[l]
    {
      var rec := file.records[j];
      var match_ := false;
      if rec.rmid == RM_HEAP_ID {
        var info := rec.info & !XLR_INFO_MASK;
        info := info & XLOG_HEAP_OPMASK;
        if info == XLOG_HEAP_DELETE {
          match_ := true;
        }
      }
      if !match_ {
        var byXid := IsDeleted(xids, rec.xid);
        var byTop := IsDeleted(xids, rec.toplevelXid);
        match_ := byXid || byTop;
      }
      if match_ {
        file.records := file.records[j := rec.(info := XLOG_NOOP, rmid := RM_XLOG_ID)];
      }
    }
  }

  /** The marking loop of the XID filter over one file. */
  method MarkXids(file: WalFile, xids: seq<int>)
    modifies file
    ensures file.records == MarkFile(old(file.records), false, ListedXids(xids))
  {
    ghost var before := file.records;
    for j := 0 to |file.records|
      invariant |file.records| == |before|
      invariant forall l :: 0 <= l < j ==> file.records[l] == Mark(before[l], false, ListedXids(xids))
      invariant forall l :: j <= l < |before| ==> file.records[l] == before[l]
    {
      var rec := file.records[j];
      var byXid := IsFiltered(xids, rec.xid);
      var byTop := IsFiltered(xids, rec.toplevelXid);
      if byXid || byTop {
        file.records := file.records[j := rec.(info := XLOG_NOOP, rmid := RM_XLOG_ID)];
      }
    }
  }

  /** Turns every heap DELETE, and every record of a transaction that a DELETE names, into a NOOP. */
  method FilterDeletes(files: seq<WalFile?>, ghost c: seq<seq<Record>>)
    requires Distinct(files) && Holds(files, c)
    modifies Present(files)
    ensures Holds(files, MarkAll(c, true, AllDeletedXids(c)))
  {
    var xids := CollectDeletedXids(files, c);
    ghost var d := AllDeletedXids(c);
    hide AllDeletedXids, DeletedXids;
    for i := 0 to |files|
      invariant forall l :: 0 <= l < i ==> HoldsOne(files[l], MarkFile(c[l], true, d))
      invariant forall l :: i <= l < |files| ==> HoldsOne(files[l], c[l])
    {
      if files[i] == null {
        continue;
      }
      assert files[i] in files;
      MarkDeletes(files[i], xids);
    }
  }

  /** Turns every record of a listed transaction into a NOOP. */
  method FilterXids(files: seq<WalFile?>, xids: seq<int>, ghost c: seq<seq<Record>>)
    requires Distinct(files) && Holds(files, c)
    modifies Present(files)
    ensures Holds(files, MarkAll(c, false, ListedXids(xids)))
  {
    if |xids| == 0 {
      MarkNothing(c);
      assert ListedXids(xids) == {};
      return;
    }
    hide ListedXids;
    for i := 0 to |files|
      invariant forall l :: 0 <= l < i ==> HoldsOne(files[l], MarkFile(c[l], false, ListedXids(xids)))
      invariant forall l :: i <= l < |files| ==> HoldsOne(files[l], c[l])
    {
      if files[i] == null {
        continue;
      }
      assert files[i] in files;
      MarkXids(files[i], xids);
    }
  }

  /** What all rules together mark. */
  function Filtered(c: seq<seq<Record>>, operations: seq<string>, xids: seq<int>): seq<seq<Record>>
  {
    if DELETE in operations then MarkAll(c, true, AllDeletedXids(c) + ListedXids(xids))
    else MarkAll(c, false, ListedXids(xids))
  }

  /** Applies the rules of a configuration in order: one declarative marking, however often DELETE
      is listed. */
  method ApplyRules(files: seq<WalFile?>, operations: seq<string>, xids: seq<int>, ghost c: seq<seq<Record>>)
    requires Distinct(files) && Holds(files, c)
    modifies Present(files)
    ensures Holds(files, Filtered(c, operations, xids))
  {
    hide AllDeletedXids, ListedXids, MarkAll, Holds;
    ghost var once := MarkAll(c, true, AllDeletedXids(c));
    DeleteFilterIdempotent(c);
    MarkTwice(c, AllDeletedXids(c), ListedXids(xids));
    ghost var now := c;
    for i := 0 to |operations|
      invariant Holds(files, now) && now == if DELETE in operations[..i] then once else c
    {
      if operations[i] == DELETE {
        FilterDeletes(files, now);
        now := MarkAll(now, true, AllDeletedXids(now));
      }
    }
    assert operations[..|operations|] == operations;
    if |xids| > 0 {
      FilterXids(files, xids, now);
    } else {
      NoXids(xids);
      MarkNothing(now);
    }
  }

  lemma NoXids(xids: seq<int>)
    requires xids == []
    ensures ListedXids(xids) == {}
  {}

  // ----- what the rules do to one record -----

  /** Some heap DELETE in the files names the transaction in its main data. */
  ghost predicate NamedByDelete(c: seq<seq<Record>>, xid: U32)
  {
    exists k, l :: 0 <= k < |c| && 0 <= l < |c[k]| && IsHeapDelete(c[k][l]) && c[k][l].xmax == Some(xid)
  }

  /** Some listed int is the transaction, as an unsigned number. */
  ghost predicate NamedInList(xids: seq<int>, xid: U32)
  {
    exists k :: 0 <= k < |xids| && xids[k] % 0x1_0000_0000 == xid
  }

  /** A record that the configuration asks to remove. */
  ghost predicate Matched(c: seq<seq<Record>>, operations: seq<string>, xids: seq<int>, r: Record)
  {
    || ("DELETE" in operations && (IsHeapDelete(r) || NamedByDelete(c, r.xid) || NamedByDelete(c, r.toplevelXid)))
    || NamedInList(xids, r.xid) || NamedInList(xids, r.toplevelXid)
  }

  lemma DeletedMeaning(c: seq<seq<Record>>, xid: U32)
    ensures xid in AllDeletedXids(c) <==> NamedByDelete(c, xid)
  {
    hide IsHeapDelete;
    if xid in AllDeletedXids(c) {
      var records :| records in c && xid in DeletedXids(records);
      var r :| r in records && IsHeapDelete(r) && r.xmax == Some(xid);
      var k :| 0 <= k < |c| && c[k] == records;
      var l :| 0 <= l < |c[k]| && c[k][l] == r;
    }
    if NamedByDelete(c, xid) {
      var k, l :| 0 <= k < |c| && 0 <= l < |c[k]| && IsHeapDelete(c[k][l]) && c[k][l].xmax == Some(xid);
      assert c[k][l] in c[k] && xid in DeletedXids(c[k]) && c[k] in c;
    }
  }

  lemma ListedMeaning(xids: seq<int>, xid: U32)
    ensures xid in ListedXids(xids) <==> NamedInList(xids, xid)
  {
    if xid in ListedXids(xids) {
      var x :| x in xids && ToXid(x) == xid;
      var k :| 0 <= k < |xids| && xids[k] == x;
    }
    if NamedInList(xids, xid) {
      var k :| 0 <= k < |xids| && xids[k] % 0x1_0000_0000 == xid;
      assert xids[k] in xids && ToXid(xids[k]) == xid;
    }
  }

  /** After all rules, a record is the NOOP with info 0x20 of manager 0 if it was asked for, and otherwise the
      record that it was. */
  lemma FilteredMeaning(c: seq<seq<Record>>, operations: seq<string>, xids: seq<int>, i: nat, j: nat)
    requires i < |c| && j < |c[i]|
    ensures |Filtered(c, operations, xids)| == |c| && |Filtered(c, operations, xids)[i]| == |c[i]|
    ensures Filtered(c, operations, xids)[i][j] ==
            if Matched(c, operations, xids, c[i][j]) then c[i][j].(info := 0x20, rmid := 0) else c[i][j]
  {
    hide AllDeletedXids, ListedXids, IsHeapDelete, NamedByDelete, NamedInList;
    var r := c[i][j];
    DeletedMeaning(c, r.xid);
    DeletedMeaning(c, r.toplevelXid);
    ListedMeaning(xids, r.xid);
    ListedMeaning(xids, r.toplevelXid);
  }

  /** A heap DELETE is a record of manager 10 whose operation bits, the three below the highest of the info
      byte, are 001. */
  lemma HeapDeleteMeaning(r: Record)
    ensures IsHeapDelete(r) <==> r.rmid == 10 && r.info & 0x70 == 0x10
  {
    assert (r.info & !XLR_INFO_MASK) & XLOG_HEAP_OPMASK == r.info & 0x70;
  }
}
