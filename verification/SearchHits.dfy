/** The directory search of the WAL viewer (src/walinfo.c), and the jump to a hit. */
module SearchHits {
  import opened Bytes
  import opened Text
  import opened LsnText
  import opened CsvTokens
  import opened WalView
  import opened WalState
  import Kmp

  /** The fields of the search dialog; None when a field is not set. */
  datatype Query = Query(rmgr: Option<string>, startLsn: Option<U64>, endLsn: Option<U64>, xid: Option<U32>,
                         description: Option<string>)

  /** A hit: the file, the index of the record in it, and its position. */
  datatype Hit = Hit(file: nat, index: nat, startLsn: U64)

  /** The record matches the description: both texts exist, and the queried one is not empty and occurs. */
  ghost predicate Describes(r: LogRecord, text: string)
  {
    r.description.Some? && text != "" && exists k: nat :: Kmp.OccursAt(r.description.value, text, k)
  }

  ghost predicate Matches(q: Query, r: LogRecord)
  {
    && !r.partial
    && (q.rmgr.Some? ==> r.rmgr.Some? && Lower(r.rmgr.value) == Lower(q.rmgr.value))
    && (q.startLsn.Some? ==> q.startLsn.value <= r.lsn)
    && (q.endLsn.Some? ==> r.nextLsn <= q.endLsn.value)
    && (q.xid.Some? ==> r.xid == q.xid.value)
    && (q.description.Some? ==> Describes(r, q.description.value))
  }

  /** The hits among the first records of a file: every index counts, also that of a partial record. */
  ghost function HitsOf(q: Query, file: nat, records: seq<LogRecord>): seq<Hit>
  {
    if records == [] then []
    else
      var i := |records| - 1;
      HitsOf(q, file, records[..i]) + if Matches(q, records[i]) then [Hit(file, i, records[i].lsn)] else []
  }

  /** The hits in all files, in the order of the files. */
  ghost function AllHits(q: Query, files: seq<seq<LogRecord>>): seq<Hit>
  {
    if files == [] then []
    else AllHits(q, files[..|files| - 1]) + HitsOf(q, |files| - 1, files[|files| - 1])
  }

  ghost function Cut(hits: seq<Hit>, capacity: nat): seq<Hit>
  {
    if |hits| <= capacity then hits else hits[..capacity]
  }

  /** Texts are shorter than 2 GiB, so an offset in them is an int. */
  predicate Short(text: Option<string>)
  {
    text.Some? ==> |text.value| < Kmp.TWO_31
  }

  // ----- the search -----

  /** The comparison loop for strings without regard to case. */
  method CaseEqual(a: string, b: string) returns (equal: bool)
    ensures equal <==> Lower(a) == Lower(b)
  {
    hide ToLower;
    var i := 0;
    while i < |a| && i < |b|
      invariant 0 <= i <= |a| && i <= |b|
      invariant forall k :: 0 <= k < i ==> ToLower(a[k]) == ToLower(b[k])
    {
      if ToLower(a[i]) != ToLower(b[i]) {
        assert Lower(a)[i] != Lower(b)[i];
        return false;
      }
      i := i + 1;
    }
    return i == |a| && i == |b|;
  }

  method DescriptionMatches(r: LogRecord, text: string) returns (found: bool)
    requires Short(r.description) && |text| < Kmp.TWO_31
    ensures found <==> Describes(r, text)
  {
    hide Kmp.OccursAt, Kmp.IsTable, Kmp.ToInt;
    if r.description.None? {
      return false;
    }
    var desc := r.description.value;
    if |text| == 0 || |desc| < |text| {
      Kmp.OccursBounds(desc, text);
      return false;
    }
    var failure := new int[|text|];
    var fallbacks := Kmp.BuildFailureFunction(text, failure);
    var pos, steps := Kmp.Search(desc, text, failure);
    NotMinusOne(desc, text, pos);
    return pos != -1;
  }

  lemma NotMinusOne(text: string, pattern: string, r: int)
    requires |text| < Kmp.TWO_31 && pattern != "" && Kmp.SearchResult(text, pattern, r)
    ensures r != -1 <==> exists k: nat :: Kmp.OccursAt(text, pattern, k)
  {
    Kmp.OccursBounds(text, pattern);
  }

  /** One record against the query. */
  method RecordMatches(q: Query, r: LogRecord) returns (all: bool)
    requires !r.partial && Short(r.description) && Short(q.description)
    ensures all <==> Matches(q, r)
  {
    hide Describes;
    all := true;
    if q.rmgr.Some? {
      if r.rmgr.None? {
        all := false;
      } else {
        all := CaseEqual(r.rmgr.value, q.rmgr.value);
      }
    }
    if all && q.startLsn.Some? && r.lsn < q.startLsn.value {
      all := false;
    }
    if all && q.endLsn.Some? && r.nextLsn > q.endLsn.value {
      all := false;
    }
    if all && q.xid.Some? && r.xid != q.xid.value {
      all := false;
    }
    if all && q.description.Some? {
      all := DescriptionMatches(r, q.description.value);
    }
  }

  predicate AllShort(records: seq<LogRecord>)
  {
    forall i :: 0 <= i < |records| ==> Short(records[i].description)
  }

  /** Searches one file, behind the hits found so far. */
  method SearchFile(q: Query, file: nat, records: seq<LogRecord>, found: seq<Hit>, capacity: nat, ghost before: seq<Hit>)
      returns (hits: seq<Hit>)
    requires AllShort(records) && Short(q.description) && found == Cut(before, capacity)
    ensures hits == Cut(before + HitsOf(q, file, records), capacity)
  {
    hide Matches, Short;
    hits := found;
    var index: nat := 0;
    assert before + HitsOf(q, file, records[..0]) == before;
    for i := 0 to |records|
      invariant index == i && hits == Cut(before + HitsOf(q, file, records[..i]), capacity)
    {
      HitsNext(q, file, records, i, before);
      if records[i].partial {
        NotPartial(q, records[i]);
        index := index + 1;
        continue;
      }
      var all := RecordMatches(q, records[i]);
      if all && |hits| < capacity {
        hits := hits + [Hit(file, index, records[i].lsn)];
      }
      index := index + 1;
    }
    assert records[..|records|] == records;
  }

  lemma NotPartial(q: Query, r: LogRecord)
    requires r.partial
    ensures !Matches(q, r)
  {}

  lemma HitsNext(q: Query, file: nat, records: seq<LogRecord>, i: nat, before: seq<Hit>)
    requires i < |records|
    ensures before + HitsOf(q, file, records[..i + 1]) ==
            (before + HitsOf(q, file, records[..i])) + if Matches(q, records[i]) then [Hit(file, i, records[i].lsn)] else []
  {
    hide Matches;
    assert records[..i + 1][..i] == records[..i];
  }

  /** Searches all files: the first hits, as many as there is room for. */
  method SearchAll(q: Query, files: seq<seq<LogRecord>>, capacity: nat) returns (hits: seq<Hit>)
    requires Short(q.description) && forall f :: 0 <= f < |files| ==> AllShort(files[f])
    ensures hits == Cut(AllHits(q, files), capacity)
  {
    hide HitsOf, Short, AllShort;
    hits := [];
    for f := 0 to |files|
      invariant hits == Cut(AllHits(q, files[..f]), capacity)
    {
      assert files[..f + 1][..f] == files[..f];
      hits := SearchFile(q, f, files[f], hits, capacity, AllHits(q, files[..f]));
    }
    assert files[..|files|] == files;
  }

  // ----- what a hit is -----

  /** The hits are exactly the matching records, each with its index and position. */
  lemma {:induction false} HitMeaning(q: Query, files: seq<seq<LogRecord>>, h: Hit)
    ensures h in AllHits(q, files) <==>
            h.file < |files| && h.index < |files[h.file]| && Matches(q, files[h.file][h.index])
            && h.startLsn == files[h.file][h.index].lsn
  {
    hide Matches;
    if files != [] {
      HitMeaning(q, files[..|files| - 1], h);
      HitInFile(q, |files| - 1, files[|files| - 1], h);
    }
  }

  lemma {:induction false} HitInFile(q: Query, file: nat, records: seq<LogRecord>, h: Hit)
    ensures h in HitsOf(q, file, records) <==>
            h.file == file && h.index < |records| && Matches(q, records[h.index]) && h.startLsn == records[h.index].lsn
  {
    hide Matches;
    if records != [] {
      HitInFile(q, file, records[..|records| - 1], h);
    }
  }

  predicate Before(a: Hit, b: Hit)
  {
    a.file < b.file || (a.file == b.file && a.index < b.index)
  }

  predicate InOrder(hits: seq<Hit>)
  {
    forall i, j :: 0 <= i < j < |hits| ==> Before(hits[i], hits[j])
  }

  predicate AllBefore(hits: seq<Hit>, b: Hit)
  {
    forall i :: 0 <= i < |hits| ==> Before(hits[i], b)
  }

  /** The hits come file by file and in the order of the records, each of them once. */
  lemma HitsInOrder(q: Query, files: seq<seq<LogRecord>>, capacity: nat)
    ensures InOrder(Cut(AllHits(q, files), capacity))
    ensures |Cut(AllHits(q, files), capacity)| < capacity ==> Cut(AllHits(q, files), capacity) == AllHits(q, files)
  {
    hide HitsOf, Matches, Before;
    OrderInFiles(q, files);
  }

  lemma {:induction false} OrderInFiles(q: Query, files: seq<seq<LogRecord>>)
    ensures InOrder(AllHits(q, files))
    ensures AllBefore(AllHits(q, files), Hit(|files|, 0, 0))
  {
    hide HitsOf, Matches;
    if files != [] {
      var n := |files| - 1;
      OrderInFiles(q, files[..n]);
      OrderInFile(q, n, files[n], AllHits(q, files[..n]));
    }
  }

  lemma {:induction false} OrderInFile(q: Query, file: nat, records: seq<LogRecord>, front: seq<Hit>)
    requires InOrder(front) && AllBefore(front, Hit(file, 0, 0))
    ensures InOrder(front + HitsOf(q, file, records)) && AllBefore(front + HitsOf(q, file, records), Hit(file, |records|, 0))
    ensures AllBefore(front + HitsOf(q, file, records), Hit(file + 1, 0, 0))
  {
    hide Matches;
    if records == [] {
      assert front + HitsOf(q, file, records) == front;
    } else {
      var i := |records| - 1;
      OrderInFile(q, file, records[..i], front);
      var hits, hit := front + HitsOf(q, file, records[..i]), Hit(file, i, records[i].lsn);
      var all := hits + if Matches(q, records[i]) then [hit] else [];
      assert front + HitsOf(q, file, records) == all;
    }
  }

  // ----- the jump -----

  /** The number of partial records, which the view drops. */
  function Dropped(records: seq<LogRecord>): nat
  {
    if records == [] then 0
    else Dropped(records[..|records| - 1]) + if records[|records| - 1].partial then 1 else 0
  }

  /** The row to which the viewer jumps after loading the file of a hit; it stays where it is when the
      index is out of range. */
  function Jump(index: nat, rows: nat, current: nat): nat
  {
    if index < rows then index else current
  }

  lemma {:induction false} RowsAndDropped(records: seq<LogRecord>)
    ensures |Complete(records)| == |records| - Dropped(records)
  {
    hide RowOf;
    if records != [] {
      RowsAndDropped(records[..|records| - 1]);
    }
  }

  lemma {:induction false} CompletePrefix(records: seq<LogRecord>, i: nat)
    requires i <= |records|
    ensures Complete(records[..i]) <= Complete(records)
  {
    hide RowOf;
    if i < |records| {
      var front := records[..|records| - 1];
      assert front[..i] == records[..i];
      CompletePrefix(front, i);
    } else {
      assert records[..i] == records;
    }
  }

  /** The true row of a complete record is its index minus the number of partial records before it. */
  lemma TrueRow(records: seq<LogRecord>, i: nat)
    requires i < |records| && !records[i].partial
    ensures var row := i - Dropped(records[..i]);
            0 <= row < |Complete(records)| && Complete(records)[row] == RowOf(records[i])
  {
    hide RowOf;
    RowsAndDropped(records[..i]);
    assert records[..i + 1][..i] == records[..i];
    CompletePrefix(records, i + 1);
    assert Complete(records[..i + 1]) == Complete(records[..i]) + [RowOf(records[i])];
  }

  /** The jump to a hit lands on the true row of its record exactly if no partial record precedes it, or
      if the index is out of range and the viewer happens to be there already. */
  lemma JumpIsRight(q: Query, file: nat, records: seq<LogRecord>, h: Hit, current: nat)
    requires h in HitsOf(q, file, records)
    ensures h.index < |records| && !records[h.index].partial
    ensures Jump(h.index, |Complete(records)|, current) == h.index - Dropped(records[..h.index]) <==>
            || Dropped(records[..h.index]) == 0
            || (|Complete(records)| <= h.index && current == h.index - Dropped(records[..h.index]))
  {
    hide Complete, Matches;
    HitInFile(q, file, records, h);
    MatchIsComplete(q, records[h.index]);
    TrueRow(records, h.index);
  }

  /** A hit in the middle of three records, behind a partial one: its index is in range, and the jump goes
      to the row of the record behind it. */
  lemma JumpGoesWrong(current: nat)
    ensures var whole := LogRecord(false, None, 1, 2, 3, 7, [], None);
            var records := [whole.(partial := true), whole, whole.(prev := 2, lsn := 3, nextLsn := 4)];
            var q, h := Query(None, None, Some(3), Some(7), None), Hit(0, 1, 2);
            && h in HitsOf(q, 0, records) && h.index < |Complete(records)|
            && Complete(records)[Jump(h.index, |Complete(records)|, current)] == RowOf(records[2]) != RowOf(records[1])
            && Complete(records)[0] == RowOf(records[1])
  {
    hide RowOf, HitsOf;
    var whole := LogRecord(false, None, 1, 2, 3, 7, [], None);
    var records := [whole.(partial := true), whole, whole.(prev := 2, lsn := 3, nextLsn := 4)];
    var q, h := Query(None, None, Some(3), Some(7), None), Hit(0, 1, 2);
    HitInFile(q, 0, records, h);
    RowsAndDropped(records);
    assert records[..0] == [] && records[..1] == [records[0]] && records[..2] == [records[0], records[1]];
    assert records[..1][..0] == [] && records[..2][..1] == records[..1];
    assert Dropped(records[..1]) == 1 && Dropped(records[..2]) == 1 && Dropped(records) == 1;
    TrueRow(records, 1);
    TrueRow(records, 2);
    PositionShows(records[1]);
    PositionShows(records[2]);
  }

  lemma {:induction false} SelectPrefix(c: Criteria, names: map<string, string>, rows: seq<Row>, i: nat)
    requires i <= |rows|
    ensures |Select(c, names, rows[..i])| <= i
    ensures |Select(c, names, rows[..i])| == i <==> forall k :: 0 <= k < i ==> Passes(c, names, rows[k])
  {
    hide Passes;
    if 0 < i {
      SelectPrefix(c, names, rows, i - 1);
      SelectNext(c, names, rows, i - 1);
    }
  }

  /** The rows of the complete records among the first `i` are the first rows. */
  lemma RowsBefore(records: seq<LogRecord>, i: nat)
    requires i <= |records|
    ensures var n := i - Dropped(records[..i]);
            0 <= n <= |Complete(records)| && Complete(records[..i]) == Complete(records)[..n]
  {
    hide RowOf;
    RowsAndDropped(records[..i]);
    CompletePrefix(records, i);
  }

  lemma {:induction false} NoneDropped(records: seq<LogRecord>, i: nat)
    requires i <= |records|
    ensures Dropped(records[..i]) == 0 <==> forall k :: 0 <= k < i ==> !records[k].partial
  {
    if 0 < i {
      NoneDropped(records, i - 1);
      assert records[..i][..i - 1] == records[..i - 1];
    }
  }

  /** Going on to the next or the previous hit uses the index as the row, without a range check and in a view
      that may be filtered.  For a record that the view shows this is its row exactly if every record
      before it is complete and passes the criteria as well. */
  lemma NavigateIsRight(c: Criteria, names: map<string, string>, records: seq<LogRecord>, i: nat)
    requires i < |records| && !records[i].partial && Passes(c, names, RowOf(records[i]))
    ensures var rows, place := Select(c, names, Complete(records)), |Select(c, names, Complete(records[..i]))|;
            && place < |rows| && rows[place] == RowOf(records[i])
            && (i == place <==> forall k :: 0 <= k < i ==> !records[k].partial && Passes(c, names, RowOf(records[k])))
  {
    hide RowOf, Passes, Complete, Select;
    var all, n := Complete(records), i - Dropped(records[..i]);
    RowsBefore(records, i);
    TrueRow(records, i);
    SelectAt(c, names, all, n);
    SelectPrefix(c, names, all, n);
    NoneDropped(records, i);
    if Dropped(records[..i]) == 0 {
      forall k | 0 <= k < i
        ensures all[k] == RowOf(records[k])
      {
        NoneDropped(records, k);
        TrueRow(records, k);
      }
    }
  }

  lemma PositionShows(r: LogRecord)
    ensures RowOf(r).endLsn == r.lsn
  {}

  lemma MatchIsComplete(q: Query, r: LogRecord)
    requires Matches(q, r)
    ensures !r.partial
  {}

  // ----- search and filter ask for different ranges -----

  /** The search compares a record's own position with the lower bound and the next record's with the upper
      one; the filter the previous record's with the lower bound and its own with the upper one.  For
      records in order, the filter's lower bound implies the search's, the search's upper bound
      implies the filter's, and this is where they differ. */
  lemma RangesCompared(names: map<string, string>, r: LogRecord, low: U64, high: U64)
    requires !r.partial && r.prev <= r.lsn <= r.nextLsn
    ensures Passes(Criteria(None, Some(low), None, None, None), names, RowOf(r)) ==>
              Matches(Query(None, Some(low), None, None, None), r)
    ensures Matches(Query(None, None, Some(high), None, None), r) ==>
              Passes(Criteria(None, None, Some(high), None, None), names, RowOf(r))
    ensures r.prev < low <= r.lsn <==>
              (Passes(Criteria(None, Some(low), None, None, None), names, RowOf(r)) !=
               Matches(Query(None, Some(low), None, None, None), r))
    ensures r.lsn <= high < r.nextLsn <==>
              (Passes(Criteria(None, None, Some(high), None, None), names, RowOf(r)) !=
               Matches(Query(None, None, Some(high), None, None), r))
  {
    assert ListOf(None) == [];
  }

  // ----- where search and filter agree -----

  /** A single resource manager name means the same to search and filter, for a record whose own name is
      known and fits its column. */
  lemma RmgrAgrees(names: map<string, string>, r: LogRecord, name: string)
    requires !r.partial && r.rmgr.Some? && |r.rmgr.value| < 32 && PlainToken(name)
    ensures Passes(Criteria(Some(name), None, None, None, None), names, RowOf(r)) <==>
            Matches(Query(Some(name), None, None, None, None), r)
  {
    hide PlainToken, Tokens;
    OneToken(name);
    var tokens := ListOf(Some(name));
    assert ListOf(None) == [];
    assert RmgrOk(tokens, RowOf(r)) <==> Lower(tokens[0]) == Lower(RowOf(r).rmgr);
  }

  /** A single transaction id means the same to search and filter. */
  lemma XidAgrees(names: map<string, string>, r: LogRecord, xid: U32)
    requires !r.partial
    ensures Passes(Criteria(None, None, None, Some(Digits(xid)), None), names, RowOf(r)) <==>
            Matches(Query(None, None, None, Some(xid), None), r)
  {
    hide Tokens, Digits, StrToUl, PlainToken, ListOf, Describes, RelationMatches;
    NoList();
    XidToken(xid);
    OneToken(Digits(xid));
    ScanDecimal(xid);
    var tokens := ListOf(Some(Digits(xid)));
    assert XidOk(tokens, RowOf(r)) <==> AtoU(tokens[0]) == RowOf(r).xid;
  }

  lemma XidToken(xid: U32)
    ensures PlainToken(Digits(xid))
  {
    hide Digits;
    PowersOfTen();
    DigitsLength(xid, 10);
  }
}
