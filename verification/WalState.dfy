/** The state of the WAL viewer (src/walinfo.c): loading, filtering, clearing, and what any run of
    these steps shows. */
module WalState {
  import opened Bytes
  import opened Text
  import opened LsnText
  import opened CsvTokens
  import opened WalView

  predicate Active(c: Criteria)
  {
    c.rmgr.Some? || c.startLsn.Some? || c.endLsn.Some? || c.xids.Some? || c.relation.Some?
  }

  function AsText(s: string): Option<string>
  {
    if |s| > 0 then Some(Print(s, 256)) else None
  }

  function AsLsn(s: string): Option<U64>
  {
    if |s| > 0 then Some(StringToLsn(s)) else None
  }

  /** The criteria of a submitted dialog. */
  function FromInputs(i: Inputs): Criteria
  {
    Criteria(AsText(i.rmgr), AsLsn(i.startLsn), AsLsn(i.endLsn), AsText(i.xids), AsText(i.relation))
  }

  /** The dialog as it opens on existing criteria. */
  function Prefill(c: Criteria): Inputs
  {
    Inputs(if c.rmgr.Some? then Print(c.rmgr.value, 256) else "",
           if c.startLsn.Some? then LsnToString(c.startLsn.value) else "",
           if c.endLsn.Some? then LsnToString(c.endLsn.value) else "",
           if c.xids.Some? then Print(c.xids.value, 256) else "",
           if c.relation.Some? then Print(c.relation.value, 256) else "")
  }

  lemma LsnAgain(s: string)
    ensures AsLsn(s).Some? ==> AsLsn(LsnToString(AsLsn(s).value)) == AsLsn(s)
  {
    hide StringToLsn;
    if AsLsn(s).Some? {
      LsnRoundTrip(AsLsn(s).value);
    }
  }

  /** Submitting the dialog as it opens keeps the criteria. */
  lemma ResubmitKeepsCriteria(i: Inputs)
    ensures FromInputs(Prefill(FromInputs(i))) == FromInputs(i)
  {
    hide AsLsn, LsnToString;
    LsnAgain(i.startLsn);
    LsnAgain(i.endLsn);
    NoLsn(i.startLsn);
    NoLsn(i.endLsn);
  }

  lemma NoLsn(s: string)
    ensures AsLsn(s).None? ==> AsLsn("") == AsLsn(s)
  {}

  // ----- the steps -----

  /** What the viewer holds: the content of the open file, the rows shown, the number of rows before
      filtering, the criteria and the index. */
  datatype Shown = Shown(file: seq<LogRecord>, rows: seq<Row>, unfiltered: nat, criteria: Criteria, index: set<string>)

  datatype Step = Load(file: seq<LogRecord>) | Submit(inputs: Inputs) | Clear

  ghost function Loaded(file: seq<LogRecord>, c: Criteria): Shown
  {
    Shown(file, Complete(file), |Complete(file)|, c, LsnIndex(Complete(file)))
  }

  ghost function Filtered(s: Shown, names: map<string, string>): Shown
  {
    var rows := Select(s.criteria, names, s.rows);
    s.(rows := rows, index := LsnIndex(rows))
  }

  ghost function After(s: Shown, step: Step, names: map<string, string>): Shown
  {
    match step
    case Load(file) => Loaded(file, s.criteria)
    case Submit(inputs) => Filtered(Loaded(s.file, FromInputs(inputs)), names)
    case Clear => Loaded(s.file, NO_CRITERIA)
  }

  /** The viewer.  `file` stands for what reading the open file yields. */
  class Viewer {
    var file: seq<LogRecord>
    var records: array<Row>
    var recordCount: nat
    var recordCountUnfiltered: nat
    var filters: Criteria
    var lsnArt: set<string>

    constructor ()
      ensures Valid() && fresh(records) && State() == Shown([], [], 0, NO_CRITERIA, {})
    {
      file, recordCount, recordCountUnfiltered, filters, lsnArt := [], 0, 0, NO_CRITERIA, {};
      records := new Row[0];
    }

    ghost predicate Valid()
      reads this
    {
      recordCount <= records.Length
    }

    ghost function State(): Shown
      requires Valid()
      reads this, records
    {
      Shown(file, records[..recordCount], recordCountUnfiltered, filters, lsnArt)
    }

    /** Builds the index anew from the visible rows. */
    method RebuildIndex()
      requires Valid()
      modifies `lsnArt
      ensures Valid() && lsnArt == LsnIndex(records[..recordCount])
    {
      hide LsnToString;
      lsnArt := {};
      for i := 0 to recordCount
        invariant Valid() && lsnArt == LsnIndex(records[..i])
      {
        IndexSnoc(records[..i], records[i]);
        assert records[..i + 1] == records[..i] + [records[i]];
        lsnArt := lsnArt + {LsnToString(records[i].startLsn)};
        lsnArt := lsnArt + {LsnToString(records[i].endLsn)};
      }
    }

    /** Reads the complete records of the open file into the array, which grows when it is too small. */
    method LoadRecords()
      requires Valid()
      modifies this, records
      ensures Valid() && (records == old(records) || fresh(records))
      ensures State() == Loaded(old(file), old(filters))
    {
      hide RowOf, LsnIndex;
      recordCount := 0;
      if |file| > records.Length {
        records := new Row[|file|];
      }
      for i := 0 to |file|
        invariant recordCount <= i && |file| <= records.Length && (records == old(records) || fresh(records))
        invariant file == old(file) && filters == old(filters)
        invariant records[..recordCount] == Complete(file[..i])
      {
        assert file[..i + 1][..i] == file[..i];
        if file[i].partial {
          continue;
        }
        records[recordCount] := RowOf(file[i]);
        recordCount := recordCount + 1;
      }
      assert file[..|file|] == file;
      recordCountUnfiltered := recordCount;
      RebuildIndex();
    }

    /** Moves every row that passes forward to the next free place. */
    method Compact(names: map<string, string>, rmgrs: seq<string>, xids: seq<string>, relations: seq<string>)
      requires Valid()
      requires rmgrs == ListOf(filters.rmgr) && xids == ListOf(filters.xids) && relations == ListOf(filters.relation)
      modifies `recordCount, records
      ensures Valid() && records[..recordCount] == Select(filters, names, old(records[..recordCount]))
    {
      hide Passes, ListOf, Select;
      ghost var rows := records[..recordCount];
      SelectNothing(filters, names);
      var newCount: nat := 0;
      for i := 0 to recordCount
        invariant newCount <= i && Valid() && recordCount == |rows|
        invariant records[..newCount] == Select(filters, names, rows[..i])
        invariant forall k :: i <= k < recordCount ==> records[k] == rows[k]
      {
        SelectNext(filters, names, rows, i);
        ghost var kept := records[..newCount];
        var matches := RowPasses(filters, names, records[i], rmgrs, xids, relations);
        if matches {
          if newCount != i {
            records[newCount] := records[i];
          }
          assert records[..newCount + 1] == kept + [rows[i]];
          newCount := newCount + 1;
        }
      }
      assert rows[..|rows|] == rows;
      recordCount := newCount;
    }

    /** Keeps the rows that pass, in place and in order. */
    method ApplyFilters(names: map<string, string>)
      requires Valid() && lsnArt == LsnIndex(records[..recordCount])
      modifies `recordCount, `lsnArt, records
      ensures Valid() && State() == Filtered(old(State()), names)
    {
      hide Passes, LsnIndex, Tokens;
      ghost var rows := records[..recordCount];
      if !Active(filters) {
        SelectInactive(filters, names, rows);
        return;
      }
      var rmgrs, xids, relations := [], [], [];
      if filters.rmgr.Some? {
        rmgrs := SplitCsvTrim(filters.rmgr.value, MAX_TOKENS);
      }
      if filters.xids.Some? {
        xids := SplitCsvTrim(filters.xids.value, MAX_TOKENS);
      }
      if filters.relation.Some? {
        relations := SplitCsvTrim(filters.relation.value, MAX_TOKENS);
      }
      Compact(names, rmgrs, xids, relations);
      RebuildIndex();
    }

    /** Opens another file: the criteria stay set but are not applied. */
    method LoadFile(content: seq<LogRecord>)
      requires Valid()
      modifies this
      ensures Valid() && fresh(records)
      ensures State() == After(old(State()), Load(content), map[])
    {
      recordCount := 0;
      records := new Row[1000];
      file := content;
      LoadRecords();
    }

    /** Submits the filter dialog: the open file is read again before the new criteria are applied. */
    method SubmitFilters(inputs: Inputs, names: map<string, string>)
      requires Valid()
      modifies this, records
      ensures Valid() && (records == old(records) || fresh(records))
      ensures State() == After(old(State()), Submit(inputs), names)
    {
      hide FromInputs;
      filters := FromInputs(inputs);
      LoadRecords();
      ApplyFilters(names);
    }

    /** Clears the criteria and reads the open file again. */
    method ClearFilters()
      requires Valid()
      modifies this, records
      ensures Valid() && (records == old(records) || fresh(records))
      ensures State() == After(old(State()), Clear, map[])
    {
      filters := NO_CRITERIA;
      LoadRecords();
    }
  }

  lemma IndexSnoc(rows: seq<Row>, row: Row)
    ensures LsnIndex(rows + [row]) == LsnIndex(rows) + {LsnToString(row.startLsn)} + {LsnToString(row.endLsn)}
  {
    hide LsnToString;
    var all := rows + [row];
    assert forall i :: 0 <= i < |rows| ==> all[i] == rows[i];
    assert all[|rows|] == row;
    assert LsnToString(row.startLsn) in LsnIndex(all) && LsnToString(row.endLsn) in LsnIndex(all);
    forall x | x in LsnIndex(rows)
      ensures x in LsnIndex(all)
    {
      var i :| 0 <= i < |rows| && (LsnToString(rows[i].startLsn) == x || LsnToString(rows[i].endLsn) == x);
      assert LsnToString(all[i].startLsn) == x || LsnToString(all[i].endLsn) == x;
    }
  }

  lemma {:induction false} SelectInactive(c: Criteria, names: map<string, string>, rows: seq<Row>)
    requires !Active(c)
    ensures Select(c, names, rows) == rows
  {
    if rows != [] {
      SelectInactive(c, names, rows[..|rows| - 1]);
      assert Passes(c, names, rows[|rows| - 1]);
    }
  }

  lemma SelectNothing(c: Criteria, names: map<string, string>)
    ensures Select(c, names, []) == []
  {}

  lemma SelectNext(c: Criteria, names: map<string, string>, rows: seq<Row>, i: nat)
    requires i < |rows|
    ensures Select(c, names, rows[..i + 1]) ==
            Select(c, names, rows[..i]) + if Passes(c, names, rows[i]) then [rows[i]] else []
  {
    assert rows[..i + 1][..i] == rows[..i];
  }

  /** Selecting is filtering: the row at position `i`, if it passes, comes behind the passing rows
      before it, and nothing else is selected. */
  lemma {:induction false} SelectAt(c: Criteria, names: map<string, string>, rows: seq<Row>, i: nat)
    requires i < |rows| && Passes(c, names, rows[i])
    ensures var k := |Select(c, names, rows[..i])|;
            k < |Select(c, names, rows)| && Select(c, names, rows)[k] == rows[i]
  {
    hide Passes;
    if i == |rows| - 1 {
      SelectNext(c, names, rows, i);
      assert rows[..|rows|] == rows;
    } else {
      var front := rows[..|rows| - 1];
      assert front[..i] == rows[..i];
      SelectAt(c, names, front, i);
    }
  }

  lemma {:induction false} SelectOnlyPassing(c: Criteria, names: map<string, string>, rows: seq<Row>, k: nat) returns (i: nat)
    requires k < |Select(c, names, rows)|
    ensures i < |rows| && Passes(c, names, rows[i]) && k == |Select(c, names, rows[..i])|
    ensures Select(c, names, rows)[k] == rows[i]
  {
    hide Passes;
    var front := rows[..|rows| - 1];
    if k < |Select(c, names, front)| {
      i := SelectOnlyPassing(c, names, front, k);
      assert front[..i] == rows[..i];
    } else {
      i := |rows| - 1;
    }
  }

  /** Everything is selected exactly if every row passes. */
  lemma {:induction false} SelectAll(c: Criteria, names: map<string, string>, rows: seq<Row>)
    ensures Select(c, names, rows) == rows <==> forall i :: 0 <= i < |rows| ==> Passes(c, names, rows[i])
  {
    hide Passes;
    if rows != [] {
      var front := rows[..|rows| - 1];
      SelectAll(c, names, front);
      if Select(c, names, rows) == rows {
        assert |Select(c, names, front)| == |front|;
        assert Select(c, names, front) == Select(c, names, rows)[..|front|];
      }
    }
  }

  // ----- whole runs -----

  const NOTHING_OPEN := Shown([], [], 0, NO_CRITERIA, {})

  /** What a run of steps shows. */
  ghost function Run(steps: seq<Step>, names: map<string, string>): Shown
  {
    if steps == [] then NOTHING_OPEN else After(Run(steps[..|steps| - 1], names), steps[|steps| - 1], names)
  }

  /** The file that was opened last. */
  function OpenFile(steps: seq<Step>): seq<LogRecord>
  {
    if steps == [] then []
    else if steps[|steps| - 1].Load? then steps[|steps| - 1].file
    else OpenFile(steps[..|steps| - 1])
  }

  /** The criteria that were submitted last, unless they were cleared since. */
  function Current(steps: seq<Step>): Criteria
  {
    if steps == [] then NO_CRITERIA
    else
      match steps[|steps| - 1]
      case Load(_) => Current(steps[..|steps| - 1])
      case Submit(inputs) => FromInputs(inputs)
      case Clear => NO_CRITERIA
  }

  /** After any run the criteria are the last ones, the unfiltered count is that of all complete records
      of the open file, and the index is that of the visible rows.  The visible rows are the complete
      records filtered by the current criteria alone, unless the last step opened a file: then they
      are all of them, so the view agrees with the criteria exactly if all records pass. */
  lemma {:induction false} RunMeaning(steps: seq<Step>, names: map<string, string>)
    ensures var s := Run(steps, names);
            var all := Complete(OpenFile(steps));
            && s.file == OpenFile(steps) && s.criteria == Current(steps)
            && s.unfiltered == |all| && s.index == LsnIndex(s.rows)
            && s.rows == (if steps != [] && steps[|steps| - 1].Load? then all else Select(Current(steps), names, all))
  {
    hide Passes, RowOf, FromInputs, LsnIndex;
    if steps == [] {
      assert LsnIndex([]) == {} by { NoIndex(); }
    } else {
      RunMeaning(steps[..|steps| - 1], names);
      if steps[|steps| - 1].Clear? {
        SelectInactive(NO_CRITERIA, names, Complete(OpenFile(steps)));
      }
    }
  }

  lemma NoIndex()
    ensures LsnIndex([]) == {}
  {}

  lemma ViewAgrees(steps: seq<Step>, names: map<string, string>)
    requires steps != []
    ensures var all := Complete(OpenFile(steps));
            Run(steps, names).rows == Select(Current(steps), names, all) <==>
            !steps[|steps| - 1].Load? || forall i :: 0 <= i < |all| ==> Passes(Current(steps), names, all[i])
  {
    hide Passes, Run, Complete, Current, OpenFile;
    RunMeaning(steps, names);
    SelectAll(Current(steps), names, Complete(OpenFile(steps)));
  }

  // ----- where the view does not agree -----

  const SMALL_RECORD := LogRecord(false, Some("Btree"), 1, 2, 3, 4, [], None)

  const HEAP_ONLY := Inputs("Heap", "", "", "", "")

  /** A Btree record is opened while the criteria ask for Heap records: it is shown although it does not
      pass. */
  lemma OpenIgnoresCriteria(names: map<string, string>)
    ensures var steps := [Load([SMALL_RECORD]), Submit(HEAP_ONLY), Load([SMALL_RECORD])];
            Run(steps, names).rows != Select(Current(steps), names, Complete(OpenFile(steps)))
  {
    hide Run, Tokens, PlainToken, StringToLsn;
    var steps := [Load([SMALL_RECORD]), Submit(HEAP_ONLY), Load([SMALL_RECORD])];
    assert steps[..2] == [Load([SMALL_RECORD]), Submit(HEAP_ONLY)];
    assert Current(steps) == FromInputs(HEAP_ONLY);
    var all := Complete(OpenFile(steps));
    assert OpenFile(steps) == [SMALL_RECORD];
    OneRow(SMALL_RECORD);
    HeapAlone();
    assert !RmgrOk(["Heap"], all[0]) by {
      assert |Lower("Heap")| != |Lower("Btree")|;
    }
    ViewAgrees(steps, names);
  }

  lemma OneRow(r: LogRecord)
    requires !r.partial
    ensures Complete([r]) == [RowOf(r)]
  {
    hide RowOf;
    assert [r][..0] == [];
    assert Complete([r][..0]) == [];
  }

  lemma HeapAlone()
    ensures ListOf(Some("Heap")) == ["Heap"]
  {
    OneToken("Heap");
  }
}
