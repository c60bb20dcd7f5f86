/** Exporting the transactions of marked rows (src/walinfo.c) as a list for the XID filter
    (src/walfilter.c). */
module XidExport {
  import opened Bytes
  import opened WalRecords
  import opened WalFilter
  import opened WalView
  import Kmp

  ghost predicate MarkedXid(rows: seq<Row>, x: U32)
  {
    x != 0 && exists i :: 0 <= i < |rows| && rows[i].marked && rows[i].xid == x
  }

  predicate IsInt(x: int)
  {
    -0x8000_0000 <= x < 0x8000_0000
  }

  /** A list without duplicates of the non-zero transactions of the marked rows, as 32-bit ints. */
  ghost predicate Exports(rows: seq<Row>, xids: seq<int>)
  {
    && (forall i, j :: 0 <= i < j < |xids| ==> ToXid(xids[i]) != ToXid(xids[j]))
    && (forall i :: 0 <= i < |xids| ==> IsInt(xids[i]) && MarkedXid(rows, ToXid(xids[i])))
    && forall i :: 0 <= i < |rows| && rows[i].marked && rows[i].xid != 0 ==> rows[i].xid in ListedXids(xids)
  }

  /** The cast to int and back keeps every transaction id. */
  lemma CastAndBack(x: U32)
    ensures IsInt(Kmp.ToInt(x)) && ToXid(Kmp.ToInt(x)) == x
  {}

  /** Collects the transactions of the marked rows, each once. */
  method CollectXids(rows: seq<Row>) returns (xids: seq<int>)
    ensures Exports(rows, xids)
  {
    hide ListedXids, Kmp.ToInt, ToXid;
    xids := [];
    assert rows[..0] == [];
    for i := 0 to |rows|
      invariant Exports(rows[..i], xids)
    {
      OneRowMore(rows, i, xids);
      if rows[i].marked && rows[i].xid > 0 {
        var exists_ := IsFiltered(xids, rows[i].xid);
        if !exists_ {
          xids := xids + [Kmp.ToInt(rows[i].xid)];
        }
      }
    }
    assert rows[..|rows|] == rows;
  }

  lemma OneRowMore(rows: seq<Row>, i: nat, xids: seq<int>)
    requires i < |rows| && Exports(rows[..i], xids)
    ensures !(rows[i].marked && rows[i].xid > 0) || rows[i].xid in ListedXids(xids) ==> Exports(rows[..i + 1], xids)
    ensures rows[i].marked && rows[i].xid > 0 && rows[i].xid !in ListedXids(xids) ==>
              Exports(rows[..i + 1], xids + [Kmp.ToInt(rows[i].xid)])
  {
    hide Kmp.ToInt, ToXid;
    var front, rest, x := rows[..i], rows[..i + 1], rows[i].xid;
    assert rest == front + [rows[i]];
    forall y: U32 | MarkedXid(front, y)
      ensures MarkedXid(rest, y)
    {
      var k :| 0 <= k < |front| && front[k].marked && front[k].xid == y;
      assert rest[k] == front[k];
    }
    if rows[i].marked && x > 0 && x !in ListedXids(xids) {
      CastAndBack(x);
      var more := xids + [Kmp.ToInt(x)];
      assert rest[i].marked && MarkedXid(rest, x);
      assert more[|xids|] == Kmp.ToInt(x);
      assert ListedXids(more) == ListedXids(xids) + {x} by { ListedSnoc(xids, Kmp.ToInt(x)); }
      forall k | 0 <= k < |xids|
        ensures ToXid(xids[k]) != x
      {
        assert xids[k] in xids;
      }
    }
  }

  lemma ListedSnoc(xids: seq<int>, x: int)
    ensures ListedXids(xids + [x]) == ListedXids(xids) + {ToXid(x)}
  {
    hide ToXid;
    assert forall y :: y in xids + [x] <==> y in xids || y == x;
  }

  /** The exported list names exactly the transactions of the marked rows, and each once. */
  lemma ExportedXids(rows: seq<Row>, xids: seq<int>, x: U32)
    requires Exports(rows, xids)
    ensures x in ListedXids(xids) <==> MarkedXid(rows, x)
  {
    hide ToXid;
    if x in ListedXids(xids) {
      var y :| y in xids && ToXid(y) == x;
      var i :| 0 <= i < |xids| && xids[i] == y;
    }
  }

  /** A record belongs to a transaction that is exported. */
  ghost predicate Belongs(rows: seq<Row>, r: Record)
  {
    MarkedXid(rows, r.xid) || MarkedXid(rows, r.toplevelXid)
  }

  /** Feeding the exported list to the XID filter turns into NOOPs the records of the exported
      transactions, and no other record. */
  lemma ExportThenFilter(rows: seq<Row>, xids: seq<int>, c: seq<seq<Record>>, i: nat, j: nat)
    requires Exports(rows, xids) && i < |c| && j < |c[i]|
    ensures Filtered(c, [], xids)[i][j] == if Belongs(rows, c[i][j]) then ToNoop(c[i][j]) else c[i][j]
  {
    hide ToNoop, Exports, ListedXids, MarkedXid;
    ExportedXids(rows, xids, c[i][j].xid);
    ExportedXids(rows, xids, c[i][j].toplevelXid);
  }

  /** Every marked row of a transaction is hit. */
  lemma MarkedIsFiltered(rows: seq<Row>, xids: seq<int>, c: seq<seq<Record>>, i: nat, j: nat, k: nat)
    requires Exports(rows, xids) && i < |c| && j < |c[i]|
    requires k < |rows| && rows[k].marked && rows[k].xid == c[i][j].xid != 0
    ensures IsNoop(Filtered(c, [], xids)[i][j])
  {
    hide Exports, Filtered;
    ExportThenFilter(rows, xids, c, i, j);
  }
}
