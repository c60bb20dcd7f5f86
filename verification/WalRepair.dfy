/** The repair pass of src/walfilter.c: after filtering, the checksums of the NOOP records are
    recomputed and the back link behind each visited one is rewritten. */
module WalRepair {
  import opened Bytes
  import opened WalRecords
  import opened WalFilter

  /** How many NOOPs stand directly before position `i`. */
  function NoopsBefore(rs: seq<Record>, i: nat): nat
    requires i <= |rs|
  {
    if i == 0 || !IsNoop(rs[i - 1]) then 0 else 1 + NoopsBefore(rs, i - 1)
  }

  /** Position `i` holds a NOOP at an even offset of its maximal run. */
  predicate Head(rs: seq<Record>, i: nat)
    requires i < |rs|
  {
    IsNoop(rs[i]) && NoopsBefore(rs, i) % 2 == 0
  }

  /** The record directly behind such a NOOP. */
  predicate Relinked(rs: seq<Record>, i: nat)
    requires i < |rs|
  {
    0 < i && Head(rs, i - 1)
  }

  /** What the pass leaves at position `i`. */
  function RepairedAt(rs: seq<Record>, i: nat): Record
    requires i < |rs|
  {
    if Relinked(rs, i) then WithCrc(rs[i].(prev := rs[i - 1].lsn))
    else if Head(rs, i) then WithCrc(rs[i])
    else rs[i]
  }

  function Repaired(rs: seq<Record>): (r: seq<Record>)
    ensures |r| == |rs| && forall i :: 0 <= i < |rs| ==> r[i] == RepairedAt(rs, i)
  {
    seq(|rs|, i requires 0 <= i < |rs| => RepairedAt(rs, i))
  }

  ghost predicate AllWellFormed(rs: seq<Record>)
  {
    forall i :: 0 <= i < |rs| ==> WellFormed(rs[i])
  }

  /** The pass over one file.  The iterator is advanced by the loop, and once more behind a NOOP. */
  method ProcessFile(file: WalFile)
    requires AllWellFormed(file.records)
    modifies file
    ensures file.records == Repaired(old(file.records))
  {
    hide WithCrc, Checksum, IsNoop, NoopsBefore;
    ghost var rs := file.records;
    var next := 0;
    while next < |file.records|
      invariant 0 <= next <= |file.records| == |rs|
      invariant 0 < next < |rs| ==> !Head(rs, next - 1)
      invariant forall i :: 0 <= i < next ==> file.records[i] == RepairedAt(rs, i)
      invariant forall i :: next <= i < |rs| ==> file.records[i] == rs[i]
    {
      var current := next;
      var record := file.records[current];
      next := next + 1;
      RunStep(rs, current);
      if record.rmid == RM_XLOG_ID && record.info & !XLR_INFO_MASK == XLOG_NOOP {
        record := RecalculateCrc(record);
        file.records := file.records[current := record];
        var prevLsn := record.lsn;
        if next < |file.records| {
          current := next;
          next := next + 1;
          record := file.records[current];
          record := RecalculateCrc(record.(prev := prevLsn));
          file.records := file.records[current := record];
        }
      }
    }
  }

  /** A NOOP that the pass visits is a head, and its successor is not. */
  lemma RunStep(rs: seq<Record>, i: nat)
    requires i < |rs| && (0 < i ==> !Head(rs, i - 1))
    ensures Head(rs, i) <==> rs[i].rmid == RM_XLOG_ID && rs[i].info & !XLR_INFO_MASK == XLOG_NOOP
    ensures i + 1 < |rs| && Head(rs, i) ==> !Head(rs, i + 1)
  {}

  /** The pass over all files. */
  method ProcessWalFiles(files: seq<WalFile?>, ghost c: seq<seq<Record>>)
    requires Distinct(files) && Holds(files, c)
    requires forall i :: 0 <= i < |c| ==> AllWellFormed(c[i])
    modifies Present(files)
    ensures Holds(files, RepairedAll(c))
  {
    hide Repaired, AllWellFormed, RepairedAt;
    EmptyRepair();
    for i := 0 to |files|
      invariant forall l :: 0 <= l < i ==> HoldsOne(files[l], Repaired(c[l]))
      invariant forall l :: i <= l < |files| ==> HoldsOne(files[l], c[l])
    {
      if files[i] == null {
        continue;
      }
      assert files[i] in files;
      ProcessFile(files[i]);
    }
  }

  lemma EmptyRepair()
    ensures Repaired([]) == []
  {}

  function RepairedAll(c: seq<seq<Record>>): (r: seq<seq<Record>>)
    ensures |r| == |c| && forall i :: 0 <= i < |c| ==> r[i] == Repaired(c[i])
  {
    seq(|c|, i requires 0 <= i < |c| => Repaired(c[i]))
  }

  // ----- what the pass restores -----

  /** A record names the LSN of the record before it. */
  predicate LinkedAt(rs: seq<Record>, i: nat)
    requires i < |rs|
  {
    i == 0 || rs[i].prev == rs[i - 1].lsn
  }

  ghost predicate Linked(rs: seq<Record>)
  {
    forall i :: 0 <= i < |rs| ==> LinkedAt(rs, i)
  }

  ghost predicate AllValid(rs: seq<Record>)
  {
    forall i :: 0 <= i < |rs| ==> ValidCrc(rs[i])
  }

  /** Every NOOP is reached: it is a head, or it stands directly behind one. */
  lemma NoopIsReached(rs: seq<Record>, i: nat)
    requires i < |rs| && IsNoop(rs[i])
    ensures Head(rs, i) || Relinked(rs, i)
  {}

  /** For arbitrary links: exactly the checksums of the NOOPs and of the records behind a head are
      recomputed, exactly the latter get a new link, and nothing else of a record changes. */
  lemma RepairExactly(rs: seq<Record>, i: nat)
    requires i < |rs|
    ensures var r := Repaired(rs)[i];
            && r == rs[i].(prev := r.prev, crc := r.crc)
            && r.prev == (if Relinked(rs, i) then rs[i - 1].lsn else rs[i].prev)
            && (ValidCrc(r) <==> IsNoop(rs[i]) || Relinked(rs, i) || ValidCrc(rs[i]))
            && (!IsNoop(rs[i]) && !Relinked(rs, i) ==> r == rs[i])
  {
    if IsNoop(rs[i]) {
      NoopIsReached(rs, i);
    }
  }

  /** The links come out right exactly when every link that was wrong stood behind a head. */
  lemma LinkedAfterRepair(rs: seq<Record>)
    ensures Linked(Repaired(rs)) <==> forall i :: 0 <= i < |rs| && !LinkedAt(rs, i) ==> Relinked(rs, i)
  {
    var r := Repaired(rs);
    forall i | 0 <= i < |rs|
      ensures LinkedAt(r, i) <==> LinkedAt(rs, i) || Relinked(rs, i)
    {
      RepairExactly(rs, i);
      if 0 < i {
        RepairExactly(rs, i - 1);
      }
    }
  }

  /** From valid, linked records, filtering and repair produce valid, linked records: the chain is
      unchanged, and only marked records change, in their info, manager and checksum. */
  lemma FilterThenRepair(rs: seq<Record>, deletes: bool, xids: set<U32>)
    requires AllValid(rs) && Linked(rs)
    ensures var after := Repaired(MarkFile(rs, deletes, xids));
            && AllValid(after) && Linked(after)
            && forall i :: 0 <= i < |rs| ==>
                 && after[i].prev == rs[i].prev && after[i].lsn == rs[i].lsn
                 && after[i] == rs[i].(info := after[i].info, rmid := after[i].rmid, crc := after[i].crc)
                 && (Mark(rs[i], deletes, xids) == rs[i] ==> after[i] == rs[i])
  {
    var marked := MarkFile(rs, deletes, xids);
    hide ValidCrc, WithCrc, IsNoop, IsHeapDelete, Head, Relinked;
    forall i | 0 <= i < |rs|
      ensures ValidCrc(Repaired(marked)[i]) && Repaired(marked)[i].prev == rs[i].prev
      ensures var r := Repaired(marked)[i];
              r == rs[i].(info := r.info, rmid := r.rmid, crc := r.crc) && (marked[i] == rs[i] ==> r == rs[i])
    {
      RepairMarked(rs, deletes, xids, i);
    }
    forall i | 0 <= i < |rs|
      ensures LinkedAt(Repaired(marked), i)
    {
      assert LinkedAt(rs, i);
    }
  }

  lemma RepairMarked(rs: seq<Record>, deletes: bool, xids: set<U32>, i: nat)
    requires AllValid(rs) && Linked(rs) && i < |rs|
    ensures var r := Repaired(MarkFile(rs, deletes, xids))[i];
            && ValidCrc(r) && r.prev == rs[i].prev
            && r == rs[i].(info := r.info, rmid := r.rmid, crc := r.crc)
            && (Mark(rs[i], deletes, xids) == rs[i] ==> r == rs[i])
  {
    var marked := MarkFile(rs, deletes, xids);
    hide ValidCrc, WithCrc, IsNoop, IsHeapDelete, NoopsBefore, Repaired;
    RepairExactly(marked, i);
    MarkedOrNoop(rs[i], deletes, xids);
    assert AllValid(rs) ==> ValidCrc(rs[i]);
    if 0 < i {
      assert LinkedAt(rs, i);
      MarkedOrNoop(rs[i - 1], deletes, xids);
    }
    var r := Repaired(marked)[i];
    assert r.prev == rs[i].prev;
    if marked[i] == rs[i] {
      OneValidCrc(r, rs[i]);
    }
  }

  lemma MarkedOrNoop(r: Record, deletes: bool, xids: set<U32>)
    ensures var m := Mark(r, deletes, xids);
            m == r.(info := m.info, rmid := m.rmid) && (m == r || IsNoop(m))
  {}

  lemma FilteredKeepsForm(c: seq<seq<Record>>, operations: seq<string>, xids: seq<int>, i: nat)
    requires i < |c| && AllWellFormed(c[i])
    ensures |Filtered(c, operations, xids)| == |c| && AllWellFormed(Filtered(c, operations, xids)[i])
  {
    hide Mark;
    var deletes := DELETE in operations;
    var marks := if deletes then AllDeletedXids(c) + ListedXids(xids) else ListedXids(xids);
    forall j | 0 <= j < |c[i]|
      ensures WellFormed(Filtered(c, operations, xids)[i][j])
    {
      MarkedOrNoop(c[i][j], deletes, marks);
    }
  }

  /** The whole run: the rules, then the repair. */
  method FilterAndRepair(files: seq<WalFile?>, operations: seq<string>, xids: seq<int>, ghost c: seq<seq<Record>>)
    requires Distinct(files) && Holds(files, c)
    requires forall i :: 0 <= i < |c| ==> AllWellFormed(c[i])
    modifies Present(files)
    ensures Holds(files, RepairedAll(Filtered(c, operations, xids)))
  {
    hide Filtered, AllWellFormed, Holds, RepairedAll;
    ApplyRules(files, operations, xids, c);
    forall i | 0 <= i < |c|
      ensures |Filtered(c, operations, xids)| == |c| && AllWellFormed(Filtered(c, operations, xids)[i])
    {
      FilteredKeepsForm(c, operations, xids, i);
    }
    FilteredLength(c, operations, xids);
    ProcessWalFiles(files, Filtered(c, operations, xids));
  }

  lemma FilteredLength(c: seq<seq<Record>>, operations: seq<string>, xids: seq<int>)
    ensures |Filtered(c, operations, xids)| == |c|
  {}

  /** A file whose records were valid and linked is valid and linked after the run, and every record
      that no rule matches is untouched. */
  lemma RunKeepsIntegrity(c: seq<seq<Record>>, operations: seq<string>, xids: seq<int>, i: nat)
    requires i < |c| && AllValid(c[i]) && Linked(c[i])
    ensures var after := RepairedAll(Filtered(c, operations, xids))[i];
            && |after| == |c[i]| && AllValid(after) && Linked(after)
            && forall j :: 0 <= j < |c[i]| ==>
                 && after[j].prev == c[i][j].prev
                 && (after[j] != c[i][j] ==>
                     || (DELETE in operations && IsHeapDelete(c[i][j]))
                     || (DELETE in operations && (c[i][j].xid in AllDeletedXids(c) || c[i][j].toplevelXid in AllDeletedXids(c)))
                     || c[i][j].xid in ListedXids(xids) || c[i][j].toplevelXid in ListedXids(xids))
  {
    var deletes := DELETE in operations;
    var marks := if deletes then AllDeletedXids(c) + ListedXids(xids) else ListedXids(xids);
    hide ValidCrc, IsNoop, IsHeapDelete, Repaired, AllValid, Linked, AllDeletedXids, ListedXids;
    FilterThenRepair(c[i], deletes, marks);
  }

  // ----- what the run does to one record -----

  /** A run of NOOPs that begins at `s` and is still going on in front of `i`. */
  ghost predicate RunOfNoops(rs: seq<Record>, s: nat, i: nat)
    requires s <= i <= |rs|
  {
    (s == 0 || !IsNoop(rs[s - 1])) && forall k :: s <= k < i ==> IsNoop(rs[k])
  }

  lemma {:induction false} NoopsMeaning(rs: seq<Record>, i: nat)
    requires i <= |rs|
    ensures NoopsBefore(rs, i) <= i && RunOfNoops(rs, i - NoopsBefore(rs, i), i)
    ensures forall s: nat :: s <= i && RunOfNoops(rs, s, i) ==> s == i - NoopsBefore(rs, i)
  {
    hide IsNoop;
    if 0 < i {
      NoopsMeaning(rs, i - 1);
      forall s: nat | s <= i && RunOfNoops(rs, s, i)
        ensures s == i - NoopsBefore(rs, i)
      {
        if s < i {
          assert IsNoop(rs[i - 1]) && RunOfNoops(rs, s, i - 1);
        }
      }
    }
  }

  /** A record gets a new link exactly if a run of NOOPs ends in front of it or goes on there, and the run has
      an odd number of records up to that place. */
  lemma RelinkedMeaning(rs: seq<Record>, i: nat)
    requires i < |rs|
    ensures Relinked(rs, i) <==> exists s: nat :: s < i && RunOfNoops(rs, s, i) && (i - s) % 2 == 1
  {
    hide IsNoop;
    NoopsMeaning(rs, i);
    var n := NoopsBefore(rs, i);
    if Relinked(rs, i) {
      assert i - n < i && RunOfNoops(rs, i - n, i);
    }
  }

  /** A NOOP is a record of manager 0 whose upper four info bits are 0010. */
  lemma NoopMeaning(r: Record)
    ensures IsNoop(r) <==> r.rmid == 0 && r.info & 0xF0 == 0x20
  {
    assert r.info & !XLR_INFO_MASK == r.info & 0xF0;
  }

  /** What the whole run does to any record: it is the NOOP with info 0x20 of manager 0 if it was asked for and
      keeps info and manager otherwise; nothing else changes but its link and its checksum. */
  lemma RunMeaning(c: seq<seq<Record>>, operations: seq<string>, xids: seq<int>, i: nat, j: nat)
    requires i < |c| && j < |c[i]|
    ensures var r, marked := c[i][j], Filtered(c, operations, xids)[i];
            var after := RepairedAll(Filtered(c, operations, xids))[i][j];
            && |marked| == |c[i]|
            && after.info == (if Matched(c, operations, xids, r) then 0x20 else r.info)
            && after.rmid == (if Matched(c, operations, xids, r) then 0 else r.rmid)
            && after == r.(info := after.info, rmid := after.rmid, prev := after.prev, crc := after.crc)
            && after.prev == (if Relinked(marked, j) then c[i][j - 1].lsn else r.prev)
            && (Matched(c, operations, xids, r) ==> ValidCrc(after))
  {
    hide Filtered, Matched, ValidCrc, NoopsBefore, WithCrc;
    FilteredLength(c, operations, xids);
    FilteredMeaning(c, operations, xids, i, j);
    var marked := Filtered(c, operations, xids)[i];
    RepairExactly(marked, j);
    NoopMeaning(marked[j]);
    if 0 < j {
      FilteredMeaning(c, operations, xids, i, j - 1);
    }
  }
}
