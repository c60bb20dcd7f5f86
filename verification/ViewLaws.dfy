/** What the filter dialog of the WAL viewer asks for (src/walinfo.c): from the texts that are typed to the rows
    that are shown of a file. */
module ViewLaws {
  import opened Bytes
  import opened Text
  import Kmp
  import opened LsnText
  import opened CsvTokens
  import opened WalView
  import opened WalState

  // ----- one field of the dialog -----

  /** A text that is typed: none, the text, or as much of it as fits 255 characters. */
  function TakenOver(s: string): Option<string>
  {
    if s == "" then None else if |s| <= 255 then Some(s) else Some(s[..255])
  }

  /** An empty field asks for nothing; a text is taken over, and a position is read. */
  lemma SubmittedFields(i: Inputs)
    ensures var c := FromInputs(i);
            && c.rmgr == TakenOver(i.rmgr) && c.xids == TakenOver(i.xids) && c.relation == TakenOver(i.relation)
            && (i.startLsn == "" ==> c.startLsn == None) && (i.endLsn == "" ==> c.endLsn == None)
    ensures forall l: U64 :: i.startLsn == LsnToString(l) ==> FromInputs(i).startLsn == Some(l)
    ensures forall l: U64 :: i.endLsn == LsnToString(l) ==> FromInputs(i).endLsn == Some(l)
  {
    hide LsnToString, StringToLsn;
    forall l: U64
      ensures StringToLsn(LsnToString(l)) == l && LsnToString(l) != ""
    {
      LsnRoundTrip(l);
      NotEmpty(l);
    }
  }

  lemma NotEmpty(l: U64)
    ensures LsnToString(l) != ""
  {}

  /** What is typed: lists of resource managers, transactions and relations, and positions. */
  datatype Typed = Typed(rmgrs: seq<string>, start: Option<U64>, end: Option<U64>, xids: seq<U32>, relations: seq<U32>)

  function NumberTexts(numbers: seq<U32>): (t: seq<string>)
    ensures |t| == |numbers| && forall i :: 0 <= i < |t| ==> t[i] == Digits(numbers[i])
  {
    seq(|numbers|, i requires 0 <= i < |numbers| => Digits(numbers[i]))
  }

  function LsnField(l: Option<U64>): string
  {
    if l.Some? then LsnToString(l.value) else ""
  }

  function InputsOf(t: Typed): Inputs
  {
    Inputs(Join(t.rmgrs), LsnField(t.start), LsnField(t.end), Join(NumberTexts(t.xids)), Join(NumberTexts(t.relations)))
  }

  ghost predicate FitsField(tokens: seq<string>)
  {
    |tokens| <= 32 && |Join(tokens)| < 256 && forall i :: 0 <= i < |tokens| ==> PlainToken(tokens[i])
  }

  /** The lists fit their fields, and no number of a relation is the name of another one. */
  ghost predicate Fits(t: Typed, names: map<string, string>)
  {
    && FitsField(t.rmgrs) && FitsField(NumberTexts(t.xids)) && FitsField(NumberTexts(t.relations))
    && forall i :: 0 <= i < |t.relations| ==> Digits(t.relations[i]) !in names
  }

  // ----- which records are asked for -----

  /** The manager that is shown for a record, and its description. */
  function ShownRmgr(r: LogRecord): string
  {
    if r.rmgr.None? then "UNKNOWN" else if |r.rmgr.value| < 32 then r.rmgr.value else r.rmgr.value[..31]
  }

  function ShownDescription(r: LogRecord): string
  {
    var d := if r.description.None? then "XID: " + Digits(r.xid) else r.description.value;
    if |d| < 512 then d else d[..511]
  }

  ghost predicate UsesRelation(r: LogRecord, n: U32)
  {
    n != 0 && exists b :: 0 <= b < |r.blocks| && r.blocks[b].inUse && r.blocks[b].relNumber == n
  }

  /** The characters of `part` stand in the text from place `k` on. */
  predicate StandsAt(text: string, part: string, k: nat)
  {
    k + |part| <= |text| && forall i :: 0 <= i < |part| ==> text[k + i] == part[i]
  }

  ghost predicate Mentions(text: string, part: string)
  {
    exists k: nat :: StandsAt(text, part, k)
  }

  /** The record uses a relation, or its description mentions the number. */
  ghost predicate Concerns(r: LogRecord, n: U32)
  {
    UsesRelation(r, n) || Mentions(ShownDescription(r), Digits(n))
  }

  /** The record is one of those that the dialog asks for. */
  ghost predicate Wanted(t: Typed, r: LogRecord)
  {
    && (t.rmgrs == [] || exists i :: 0 <= i < |t.rmgrs| && Lower(t.rmgrs[i]) == Lower(ShownRmgr(r)))
    && (t.start.Some? ==> t.start.value <= r.prev)
    && (t.end.Some? ==> r.lsn <= t.end.value)
    && (t.xids == [] || r.xid in t.xids)
    && (t.relations == [] || exists i :: 0 <= i < |t.relations| && Concerns(r, t.relations[i]))
  }

  // ----- lists -----

  /** A typed list is read as its tokens, and an empty field as no list. */
  lemma ListTyped(tokens: seq<string>)
    requires FitsField(tokens)
    ensures ListOf(AsText(Join(tokens))) == tokens
  {
    hide PlainToken, Tokens;
    if tokens == [] {
      NoList();
    } else {
      JoinedText(tokens);
      SplitOfJoin(tokens, MAX_TOKENS);
    }
  }

  /** Of more than 32 tokens the first 32 count. */
  lemma ListCut(tokens: seq<string>)
    requires 32 < |tokens| && |Join(tokens)| < 1024 && forall i :: 0 <= i < |tokens| ==> PlainToken(tokens[i])
    ensures ListOf(Some(Join(tokens))) == tokens[..32]
  {
    hide PlainToken, Kept, Fields, Join;
    SplitOfJoin(tokens, |tokens|);
  }

  lemma JoinedText(tokens: seq<string>)
    requires tokens != [] && PlainToken(tokens[0])
    ensures Join(tokens) != ""
  {}

  lemma RmgrWanted(tokens: seq<string>, r: LogRecord)
    ensures RmgrOk(tokens, RowOf(r)) <==>
            tokens == [] || exists i :: 0 <= i < |tokens| && Lower(tokens[i]) == Lower(ShownRmgr(r))
  {
    RowShows(r);
    hide RowOf, ShownRmgr;
  }

  /** What a row shows of its record. */
  lemma RowShows(r: LogRecord)
    ensures RowOf(r) == Row(ShownRmgr(r), r.prev, r.lsn, r.xid, r.blocks, ShownDescription(r), false)
  {}

  lemma XidWanted(xids: seq<U32>, r: LogRecord)
    ensures XidOk(NumberTexts(xids), RowOf(r)) <==> xids == [] || r.xid in xids
  {
    hide AtoU, Digits;
    RowShows(r);
    var tokens := NumberTexts(xids);
    forall i | 0 <= i < |xids|
      ensures AtoU(tokens[i]) == xids[i]
    {
      NumberRead(xids[i]);
    }
    if r.xid in xids {
      var i :| 0 <= i < |xids| && xids[i] == r.xid;
      assert AtoU(tokens[i]) == r.xid;
    }
  }

  lemma NumberRead(n: U32)
    ensures AtoU(Digits(n)) == n && Digits(n) != ""
  {
    hide Digits, StrToUl;
    ScanDecimal(n);
  }

  /** A typed transaction id: white space, a sign and what follows the digits do not matter, except that a minus
      counts down from 2^32. */
  lemma NumberTyped(a: string, sign: string, n: U32, rest: string)
    requires White(a) && sign in {"", "+", "-"} && (rest != "" ==> !('0' <= rest[0] <= '9'))
    ensures AtoU(a + (sign + (Digits(n) + rest))) == if sign == "-" then (0x1_0000_0000 - n) % 0x1_0000_0000 else n
  {
    hide Digits, StrToUl, White;
    ScanSigned(a, sign, n, rest);
  }

  lemma ScanSigned(a: string, sign: string, n: U32, rest: string)
    requires White(a) && sign in {"", "+", "-"} && (rest != "" ==> !('0' <= rest[0] <= '9'))
    ensures StrToUl(a + (sign + (Digits(n) + rest)), 10) == Scanned(true, Magnitude(n, sign == "-"), rest)
  {
    hide Digits, DigitPrefix, DigitsValue, AllSpace, White, TrimLeft, AllDigits, Magnitude, DigitValue, StrToUl, AfterSign;
    var d, u := Digits(n), Digits(n) + rest;
    WhiteIsSpace(a);
    BehindIsNoDigit(rest);
    DecimalValue(n);
    DigitPrefixIs(d, rest, 10);
    SignGone(sign, u);
    TrimLeftPadded(a, sign + u);
    ScanParts(a + (sign + u), sign + u, d, rest);
  }

  lemma SignGone(sign: string, u: string)
    requires sign in {"", "+", "-"} && u != "" && '0' <= u[0] <= '9'
    ensures AfterSign(sign + u) == u && ((sign + u)[0] == '-' <==> sign == "-") && !IsSpace((sign + u)[0])
  {
    assert (sign + u)[|sign|..] == u;
  }

  lemma ScanParts(s: string, t: string, d: string, rest: string)
    requires TrimLeft(s) == t && t != "" && AfterSign(t) == d + rest && d != "" && DigitPrefix(d + rest, 10) == |d|
    ensures StrToUl(s, 10) == Scanned(true, Magnitude(DigitsValue(d, 10), t[0] == '-'), rest)
  {
    hide DigitPrefix, DigitsValue, TrimLeft, Magnitude, DigitValue, AfterSign;
    assert (d + rest)[..|d|] == d && (d + rest)[|d|..] == rest;
  }

  lemma BehindIsNoDigit(rest: string)
    requires rest != "" ==> !('0' <= rest[0] <= '9')
    ensures rest != "" ==> DigitValue(rest[0]) >= 10
  {}

  lemma RelationRead(names: map<string, string>, token: string, n: U32)
    requires (if token in names then names[token] else token) == Digits(n)
    ensures RelationNumber(names, token) == n
  {
    hide Digits, StrToUl;
    ScanDecimal(n);
  }

  /** A text that only begins with a number is no number. */
  lemma NumberWithMore(names: map<string, string>, n: U32, rest: string)
    requires rest != "" && !('0' <= rest[0] <= '9') && Digits(n) + rest !in names
    ensures RelationNumber(names, Digits(n) + rest) == 0
  {
    hide Digits, StrToUl;
    ScanSigned("", "", n, rest);
    assert "" + ("" + (Digits(n) + rest)) == Digits(n) + rest;
  }

  /** A relation that is given by name or by number is looked for in the blocks, and its text in the description. */
  lemma RelationNamed(names: map<string, string>, token: string, n: U32, r: LogRecord)
    requires token != "" && (if token in names then names[token] else token) == Digits(n)
    ensures RelationMatches(names, RowOf(r), token) <==> UsesRelation(r, n) || Mentions(ShownDescription(r), token)
  {
    RelationRead(names, token, n);
    RowShows(r);
    hide Digits, RelationNumber, RowOf, ShownDescription, ShownRmgr;
    TouchesMeaning(RowOf(r), r, n);
    hide Touches, UsesRelation;
    MentionsMeaning(ShownDescription(r), token);
  }

  lemma RelationTokenWanted(names: map<string, string>, n: U32, r: LogRecord)
    requires Digits(n) !in names
    ensures RelationMatches(names, RowOf(r), Digits(n)) <==> Concerns(r, n)
  {
    hide Digits, RelationMatches, RowOf, ShownDescription;
    NumberRead(n);
    RelationNamed(names, Digits(n), n, r);
  }

  lemma TouchesMeaning(row: Row, r: LogRecord, n: U32)
    requires row.blocks == r.blocks
    ensures n > 0 && Touches(row, n) <==> UsesRelation(r, n)
  {
    if UsesRelation(r, n) {
      var b :| 0 <= b < |r.blocks| && r.blocks[b].inUse && r.blocks[b].relNumber == n;
      assert row.blocks[b] == Block(true, n);
    }
  }

  lemma MentionsMeaning(text: string, part: string)
    ensures Mentions(text, part) <==> exists k: nat :: Kmp.OccursAt(text, part, k)
  {
    forall k: nat
      ensures StandsAt(text, part, k) <==> Kmp.OccursAt(text, part, k)
    {
      SamePlace(text, part, k);
    }
    hide StandsAt, Kmp.OccursAt;
  }

  lemma SamePlace(text: string, part: string, k: nat)
    ensures StandsAt(text, part, k) <==> Kmp.OccursAt(text, part, k)
  {
    if Kmp.OccursAt(text, part, k) {
      var cut := text[k..k + |part|];
      assert forall i :: 0 <= i < |part| ==> cut[i] == text[k + i];
    }
  }

  lemma RelationWanted(names: map<string, string>, relations: seq<U32>, r: LogRecord)
    requires forall i :: 0 <= i < |relations| ==> Digits(relations[i]) !in names
    ensures RelationOk(names, NumberTexts(relations), RowOf(r)) <==>
            relations == [] || exists i :: 0 <= i < |relations| && Concerns(r, relations[i])
  {
    hide Digits, RowOf, Concerns, RelationMatches;
    var tokens, row := NumberTexts(relations), RowOf(r);
    forall i | 0 <= i < |relations|
      ensures RelationMatches(names, row, tokens[i]) <==> Concerns(r, relations[i])
    {
      RelationTokenWanted(names, relations[i], r);
    }
  }

  /** The submitted criteria let exactly the wanted records pass. */
  lemma PassesMeaning(t: Typed, names: map<string, string>, r: LogRecord)
    requires Fits(t, names)
    ensures Passes(FromInputs(InputsOf(t)), names, RowOf(r)) <==> Wanted(t, r)
  {
    ListTyped(t.rmgrs);
    ListTyped(NumberTexts(t.xids));
    ListTyped(NumberTexts(t.relations));
    RmgrWanted(t.rmgrs, r);
    XidWanted(t.xids, r);
    RelationWanted(names, t.relations, r);
    RowShows(r);
    LsnTyped(t.start);
    LsnTyped(t.end);
    hide RmgrOk, XidOk, RelationOk, ListOf, AsText, AsLsn, Join, LsnField, RowOf, ShownRmgr, ShownDescription;
    hide Concerns, FitsField, Digits;
  }

  lemma LsnTyped(l: Option<U64>)
    ensures AsLsn(LsnField(l)) == l
  {
    hide LsnToString, StringToLsn;
    if l.Some? {
      LsnRoundTrip(l.value);
      NotEmpty(l.value);
    }
  }

  // ----- what is shown -----

  /** The rows of the complete records that are asked for, in the order of the file. */
  ghost function Shows(t: Typed, file: seq<LogRecord>): seq<Row>
  {
    if file == [] then []
    else
      var r := file[|file| - 1];
      Shows(t, file[..|file| - 1])
      + if !r.partial && Wanted(t, r)
        then [Row(ShownRmgr(r), r.prev, r.lsn, r.xid, r.blocks, ShownDescription(r), false)] else []
  }

  lemma {:induction false} SelectShows(t: Typed, names: map<string, string>, file: seq<LogRecord>)
    requires Fits(t, names)
    ensures Select(FromInputs(InputsOf(t)), names, Complete(file)) == Shows(t, file)
  {
    hide Passes, Wanted, RowOf, FromInputs, InputsOf, Fits, ShownRmgr, ShownDescription;
    if file != [] {
      var front, r := file[..|file| - 1], file[|file| - 1];
      SelectShows(t, names, front);
      if !r.partial {
        PassesMeaning(t, names, r);
        RowShows(r);
        var rows := Complete(front);
        assert Complete(file) == rows + [RowOf(r)];
        assert (rows + [RowOf(r)])[..|rows|] == rows;
      } else {
        assert Complete(file) == Complete(front);
      }
    }
  }

  /** Opening a file and submitting the dialog shows the complete records that it asks for, each as a row of its
      own values, in the order of the file. */
  lemma SubmitShows(steps: seq<Step>, file: seq<LogRecord>, t: Typed, names: map<string, string>)
    requires Fits(t, names)
    ensures Run(steps + [Load(file), Submit(InputsOf(t))], names).rows == Shows(t, file)
  {
    hide Run, Shows, InputsOf, Fits, FromInputs;
    var loaded, all := steps + [Load(file)], steps + [Load(file), Submit(InputsOf(t))];
    assert all[..|all| - 1] == loaded;
    assert all[|all| - 1] == Submit(InputsOf(t)) && loaded[|loaded| - 1] == Load(file);
    RunMeaning(all, names);
    SelectShows(t, names, file);
  }
}
