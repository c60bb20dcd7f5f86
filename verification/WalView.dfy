/** The record view of the WAL viewer (src/walinfo.c): loading a file, filtering its records in place,
    and the index of their log sequence numbers. */
module WalView {
  import opened Bytes
  import opened Text
  import Kmp
  import opened LsnText
  import opened CsvTokens

  const MAX_TOKENS := 32

  /** A referenced block of a record. */
  datatype Block = Block(inUse: bool, relNumber: U32)

  /** A decoded record of a WAL file. */
  datatype LogRecord = LogRecord(partial: bool, rmgr: Option<string>, prev: U64, lsn: U64, nextLsn: U64,
                                 xid: U32, blocks: seq<Block>, description: Option<string>)

  /** A row of the view. */
  datatype Row = Row(rmgr: string, startLsn: U64, endLsn: U64, xid: U32, blocks: seq<Block>, description: string,
                     marked: bool)

  /** The filter criteria; None when a criterion is not set. */
  datatype Criteria = Criteria(rmgr: Option<string>, startLsn: Option<U64>, endLsn: Option<U64>,
                               xids: Option<string>, relation: Option<string>)

  const NO_CRITERIA := Criteria(None, None, None, None, None)

  /** The text fields of the filter dialog. */
  datatype Inputs = Inputs(rmgr: string, startLsn: string, endLsn: string, xids: string, relation: string)

  // ----- what is shown of a file -----

  function RowOf(r: LogRecord): Row
  {
    Row(Print(if r.rmgr.Some? then r.rmgr.value else "UNKNOWN", 32), r.prev, r.lsn, r.xid, r.blocks,
        Print(if r.description.Some? then r.description.value else "XID: " + Digits(r.xid), 512), false)
  }

  /** The rows of the complete records of a file. */
  function Complete(file: seq<LogRecord>): seq<Row>
  {
    if file == [] then []
    else
      var r := file[|file| - 1];
      Complete(file[..|file| - 1]) + if r.partial then [] else [RowOf(r)]
  }

  // ----- what the criteria ask for -----

  function AtoU(token: string): U32
  {
    Low32(StrToUl(token, 10).value)
  }

  /** The number of a relation: its name is looked up, and the whole text must be a number; 0 if not. */
  function RelationNumber(names: map<string, string>, token: string): U32
  {
    var n := StrToUl(if token in names then names[token] else token, 10);
    if n.rest != "" then 0 else Low32(n.value)
  }

  predicate Touches(row: Row, rel: U32)
  {
    exists i :: 0 <= i < |row.blocks| && row.blocks[i] == Block(true, rel)
  }

  /** The relation is referenced by number or mentioned in the description. */
  ghost predicate RelationMatches(names: map<string, string>, row: Row, token: string)
  {
    && token != ""
    && (|| (RelationNumber(names, token) > 0 && Touches(row, RelationNumber(names, token)))
        || exists k: nat :: Kmp.OccursAt(row.description, token, k))
  }

  /** The tokens of a list criterion; without a token the criterion asks for nothing. */
  function ListOf(list: Option<string>): seq<string>
  {
    if list.Some? then Tokens(list.value, MAX_TOKENS) else []
  }

  ghost predicate RmgrOk(tokens: seq<string>, row: Row)
  {
    tokens == [] || exists i :: 0 <= i < |tokens| && Lower(tokens[i]) == Lower(row.rmgr)
  }

  ghost predicate XidOk(tokens: seq<string>, row: Row)
  {
    tokens == [] || exists i :: 0 <= i < |tokens| && AtoU(tokens[i]) == row.xid
  }

  ghost predicate RelationOk(names: map<string, string>, tokens: seq<string>, row: Row)
  {
    tokens == [] || exists i :: 0 <= i < |tokens| && RelationMatches(names, row, tokens[i])
  }

  ghost predicate Passes(c: Criteria, names: map<string, string>, row: Row)
  {
    && RmgrOk(ListOf(c.rmgr), row)
    && (c.startLsn.Some? ==> c.startLsn.value <= row.startLsn)
    && (c.endLsn.Some? ==> row.endLsn <= c.endLsn.value)
    && XidOk(ListOf(c.xids), row)
    && RelationOk(names, ListOf(c.relation), row)
  }

  /** The rows that pass, in their order. */
  ghost function Select(c: Criteria, names: map<string, string>, rows: seq<Row>): (s: seq<Row>)
    ensures |s| <= |rows|
  {
    if rows == [] then []
    else
      var last := rows[|rows| - 1];
      Select(c, names, rows[..|rows| - 1]) + if Passes(c, names, last) then [last] else []
  }

  /** A plain token alone is the whole list. */
  lemma OneToken(t: string)
    requires PlainToken(t)
    ensures ListOf(Some(t)) == [t]
  {
    hide PlainToken;
    assert Join([t]) == t;
    PlainIsShort(t);
    SplitOfJoin([t], MAX_TOKENS);
  }

  lemma NoList()
    ensures ListOf(None) == []
  {}

  lemma PlainIsShort(t: string)
    requires PlainToken(t)
    ensures |t| < CSV_BUFFER
  {}

  // ----- the index -----

  /** The texts of the start and end positions of the rows. */
  ghost function LsnIndex(rows: seq<Row>): set<string>
  {
    (set i | 0 <= i < |rows| :: LsnToString(rows[i].startLsn)) + (set i | 0 <= i < |rows| :: LsnToString(rows[i].endLsn))
  }

  /** A position is in the index exactly if a visible row starts or ends there. */
  lemma IndexMeaning(rows: seq<Row>, lsn: U64)
    ensures LsnToString(lsn) in LsnIndex(rows) <==>
            exists i :: 0 <= i < |rows| && (rows[i].startLsn == lsn || rows[i].endLsn == lsn)
  {
    hide LsnToString;
    if LsnToString(lsn) in LsnIndex(rows) {
      var i :| 0 <= i < |rows|
               && (LsnToString(rows[i].startLsn) == LsnToString(lsn) || LsnToString(rows[i].endLsn) == LsnToString(lsn));
      LsnInjective(rows[i].startLsn, lsn);
      LsnInjective(rows[i].endLsn, lsn);
    }
    if i :| 0 <= i < |rows| && (rows[i].startLsn == lsn || rows[i].endLsn == lsn) {
      assert LsnToString(rows[i].startLsn) in LsnIndex(rows) && LsnToString(rows[i].endLsn) in LsnIndex(rows);
    }
  }

  // ----- the tests on one row -----

  method MatchesRmgr(row: Row, tokens: seq<string>) returns (ok: bool)
    requires tokens != []
    ensures ok <==> RmgrOk(tokens, row)
  {
    for t := 0 to |tokens|
      invariant forall i :: 0 <= i < t ==> Lower(tokens[i]) != Lower(row.rmgr)
    {
      if Lower(row.rmgr) == Lower(tokens[t]) {
        return true;
      }
    }
    return false;
  }

  method MatchesXid(row: Row, tokens: seq<string>) returns (ok: bool)
    requires tokens != []
    ensures ok <==> XidOk(tokens, row)
  {
    hide AtoU;
    for t := 0 to |tokens|
      invariant forall i :: 0 <= i < t ==> AtoU(tokens[i]) != row.xid
    {
      if row.xid == AtoU(tokens[t]) {
        return true;
      }
    }
    return false;
  }

  /** strstr */
  method Contains(text: string, pattern: string) returns (found: bool)
    ensures found <==> exists k: nat :: Kmp.OccursAt(text, pattern, k)
  {
    var k: nat := 0;
    while k + |pattern| <= |text|
      invariant forall l: nat :: l < k ==> !Kmp.OccursAt(text, pattern, l)
      decreases |text| - k
    {
      if text[k..k + |pattern|] == pattern {
        assert Kmp.OccursAt(text, pattern, k);
        return true;
      }
      k := k + 1;
    }
    return false;
  }

  method RelationTokenMatches(names: map<string, string>, row: Row, token: string) returns (ok: bool)
    ensures ok <==> RelationMatches(names, row, token)
  {
    hide RelationNumber, Kmp.OccursAt;
    if token == "" {
      return false;
    }
    var rel := RelationNumber(names, token);
    if rel > 0 {
      for b := 0 to |row.blocks|
        invariant forall i :: 0 <= i < b ==> row.blocks[i] != Block(true, rel)
      {
        if row.blocks[b].inUse && row.blocks[b].relNumber == rel {
          return true;
        }
      }
    }
    ok := Contains(row.description, token);
  }

  method MatchesRelation(names: map<string, string>, row: Row, tokens: seq<string>) returns (ok: bool)
    requires tokens != []
    ensures ok <==> RelationOk(names, tokens, row)
  {
    hide RelationMatches;
    for t := 0 to |tokens|
      invariant forall i :: 0 <= i < t ==> !RelationMatches(names, row, tokens[i])
    {
      var m := RelationTokenMatches(names, row, tokens[t]);
      if m {
        return true;
      }
    }
    return false;
  }

  /** One row against all criteria, given their tokens. */
  method RowPasses(c: Criteria, names: map<string, string>, row: Row,
                   rmgrs: seq<string>, xids: seq<string>, relations: seq<string>) returns (matches: bool)
    requires rmgrs == ListOf(c.rmgr) && xids == ListOf(c.xids) && relations == ListOf(c.relation)
    ensures matches <==> Passes(c, names, row)
  {
    hide Tokens, RmgrOk, XidOk, RelationOk;
    NoTokensAskNothing(names, row);
    matches := true;
    if c.rmgr.Some? && |rmgrs| > 0 {
      matches := MatchesRmgr(row, rmgrs);
    }
    if matches && c.startLsn.Some? && row.startLsn < c.startLsn.value {
      matches := false;
    }
    if matches && c.endLsn.Some? && row.endLsn > c.endLsn.value {
      matches := false;
    }
    if matches && c.xids.Some? && |xids| > 0 {
      matches := MatchesXid(row, xids);
    }
    if matches && c.relation.Some? && |relations| > 0 {
      matches := MatchesRelation(names, row, relations);
    }
  }

  lemma NoTokensAskNothing(names: map<string, string>, row: Row)
    ensures RmgrOk([], row) && XidOk([], row) && RelationOk(names, [], row)
  {}
}
