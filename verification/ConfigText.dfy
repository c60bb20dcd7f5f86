/** The laws of the editor on the text of whole files (src/config.c), whatever their lines look like: the
    last one may be unterminated, a line may be longer than the buffer, and there may be more of them
    than the line table holds. */
module ConfigText {
  import opened Text
  import opened ConfigScan
  import opened ConfigEdit
  import opened ConfigLines
  import opened ConfigLaws
  import opened ConfigFile

  // ----- lines as fgets reads them -----

  /** A line that ends where it ends, whatever follows: at its newline, or because the buffer is full. */
  predicate Whole(line: string)
  {
    && 0 < |line| < MAX_LINE_LENGTH && '\n' !in line[..|line| - 1]
    && (line[|line| - 1] == '\n' || |line| == MAX_LINE_LENGTH - 1)
  }

  /** An unterminated line that does not fill the buffer. */
  predicate Open(line: string)
  {
    0 < |line| < MAX_LINE_LENGTH - 1 && '\n' !in line
  }

  predicate AllWhole(lines: seq<string>)
  {
    forall i :: 0 <= i < |lines| ==> Whole(lines[i])
  }

  /** At most the last line is open. */
  predicate Loose(lines: seq<string>)
  {
    forall i :: 0 <= i < |lines| ==> Whole(lines[i]) || (i == |lines| - 1 && Open(lines[i]))
  }

  /** The lines of a file that `set` and `del` work on. */
  function Kept(text: string): seq<string>
  {
    Take(Lines(text), MAX_LINES)
  }

  lemma WholeLength(line: string, rest: string)
    requires Whole(line)
    ensures LineLength(line + rest) == |line|
  {
    assert forall i :: 0 <= i < |line| - 1 ==> (line + rest)[i] == line[..|line| - 1][i];
    FgetsLength(line + rest, |line|);
  }

  /** A whole line is read as the first one. */
  lemma LinesCons(line: string, rest: string)
    requires Whole(line)
    ensures Lines(line + rest) == [line] + Lines(rest)
  {
    hide Whole, LineLength;
    WholeLength(line, rest);
    assert |line| > 0 by { WholeIsText(line); }
    assert (line + rest)[..|line|] == line && (line + rest)[|line|..] == rest;
  }

  lemma WholeIsText(line: string)
    requires Whole(line)
    ensures line != ""
  {}

  /** An open line is read alone only if nothing follows. */
  lemma OpenLength(last: string, rest: string)
    requires Open(last)
    ensures rest == "" ==> Lines(last + rest) == [last]
    ensures rest != "" ==> LineLength(last + rest) > |last|
  {
    hide IndexOf;
    var all := last + rest;
    if rest == "" {
      assert all == last;
      FgetsLength(last, |last|);
      assert last[..|last|] == last && last[|last|..] == "";
    } else {
      assert forall i :: 0 <= i < |last| ==> all[i] == last[i];
      assert IndexOf(all, '\n') >= |last|;
    }
  }

  lemma {:induction false} LinesAreLoose(text: string)
    ensures Loose(Lines(text))
  {
    if text != "" {
      var n := LineLength(text);
      var line, rest := text[..n], text[n..];
      LinesAreLoose(rest);
      FirstLine(text);
      assert rest == "" <==> Lines(rest) == [];
    }
  }

  lemma FirstLine(text: string)
    requires text != ""
    ensures var n := LineLength(text);
            Whole(text[..n]) || (n == |text| && Open(text[..n]))
  {
    hide IndexOf;
    var n, i := LineLength(text), IndexOf(text, '\n');
    assert '\n' !in text[..n][..n - 1] by {
      assert text[..n][..n - 1] == text[..i][..n - 1];
    }
    if i >= n {
      assert text[..n] == text[..i][..n];
    }
  }

  lemma KeptIsLoose(text: string)
    ensures Loose(Kept(text)) && |Kept(text)| <= MAX_LINES
  {
    hide Whole, Open, Lines;
    LinesAreLoose(text);
  }

  lemma {:induction false} ConcatBoth(a: seq<string>, b: seq<string>)
    ensures Concat(a + b) == Concat(a) + Concat(b)
  {
    if a == [] {
      assert a + b == b;
    } else {
      assert (a + b)[1..] == a[1..] + b;
      ConcatBoth(a[1..], b);
    }
  }

  /** Whole lines in front are read as they are. */
  lemma {:induction false} WholeInFront(front: seq<string>, rest: string)
    requires AllWhole(front)
    ensures Lines(Concat(front) + rest) == front + Lines(rest)
  {
    hide Lines, Whole;
    if front == [] {
      assert Concat(front) + rest == rest;
    } else {
      LinesCons(front[0], Concat(front[1..]) + rest);
      assert Concat(front) + rest == front[0] + (Concat(front[1..]) + rest);
      WholeInFront(front[1..], rest);
    }
  }

  /** Loose lines are read back as they were written. */
  lemma LooseReads(lines: seq<string>)
    requires Loose(lines)
    ensures Lines(Concat(lines)) == lines
  {
    hide Lines, Whole, Open, LineLength;
    NoLines();
    if lines != [] && !Whole(lines[|lines| - 1]) {
      var front, last := lines[..|lines| - 1], lines[|lines| - 1];
      assert lines == front + [last];
      ConcatBoth(front, [last]);
      OneConcat(last);
      WholeInFront(front, last);
      OpenLength(last, "");
      assert last + "" == last;
    } else {
      WholeInFront(lines, "");
      assert Concat(lines) + "" == Concat(lines);
    }
  }

  lemma NoLines()
    ensures Lines("") == []
  {}

  lemma OneConcat(line: string)
    ensures Concat([line]) == line
  {
    assert Concat([line]) == line + Concat([]);
  }

  /** Lines behind an open one are read back glued to it. */
  lemma UnterminatedLineGlues(front: seq<string>, last: string, more: seq<string>)
    requires AllWhole(front) && Open(last) && Concat(more) != ""
    ensures Lines(Concat(front + [last] + more)) == front + Lines(last + Concat(more))
    ensures Lines(Concat(front + [last] + more)) != front + [last] + more
  {
    hide Whole, Open, LineLength;
    var rest := last + Concat(more);
    assert front + [last] + more == front + ([last] + more);
    ConcatBoth(front, [last] + more);
    ConcatBoth([last], more);
    OneConcat(last);
    WholeInFront(front, rest);
    OpenLength(last, Concat(more));
    assert Lines(rest)[0] == rest[..LineLength(rest)];
    assert (front + Lines(rest))[|front|] == Lines(rest)[0];
    assert (front + [last] + more)[|front|] == last;
  }

  // ----- what `set` writes and what is read back -----

  predicate OneLine(section: string, key: string, value: string)
  {
    Writable(section, key, value) && '\n' !in section && '\n' !in key
  }

  /** The binding, or the header above it, is written directly behind an open line. */
  predicate Glued(lines: seq<string>, section: string, key: string)
  {
    lines != [] && Open(lines[|lines| - 1]) && |lines| <= |Above(lines, section, key)|
  }

  lemma WholeLine(body: string)
    requires '\n' !in body && |body| + 1 < MAX_LINE_LENGTH
    ensures Whole(body + "\n")
  {
    assert (body + "\n")[..|body|] == body;
  }

  lemma WrittenLinesWhole(section: string, key: string, value: string)
    requires OneLine(section, key, value)
    ensures Whole(KeyLine(key, value)) && Whole(HeaderLine(section)) && Whole("\n")
  {
    WholeLine(key + " = " + value);
    WholeLine("[" + section + "]");
    assert HeaderLine(section) == "[" + section + "]" + "\n";
    WholeLine("");
    assert "" + "\n" == "\n";
  }

  /** What `set` puts below all lines when it writes at the end. */
  function Added(lines: seq<string>, section: string): seq<string>
  {
    if SectionAt(lines, section).Some? then []
    else (if |lines| > 0 then ["\n"] else []) + [HeaderLine(section)]
  }

  /** The lines around the binding that `set` writes. */
  lemma AboveShape(lines: seq<string>, section: string, key: string)
    ensures var a := |Above(lines, section, key)|;
            if a < |lines| then
              && Above(lines, section, key) == lines[..a]
              && (Below(lines, section, key) == lines[a..] || Below(lines, section, key) == lines[a + 1..])
            else Above(lines, section, key) == lines + Added(lines, section) && Below(lines, section, key) == []
    ensures HasRoom(lines, section, key) && |lines| <= MAX_LINES ==>
              |Above(lines, section, key)| + 1 + |Below(lines, section, key)| <= MAX_LINES
  {
    hide HeaderLine, FirstKey, LastHeader, KeyAt, HeaderOf, Items, Classify, InsertAt, NextHeader;
  }

  /** Without an open line in front of it, what is written is loose again. */
  lemma WrittenIsLoose(lines: seq<string>, section: string, key: string, value: string)
    requires OneLine(section, key, value) && Loose(lines) && SetLines(lines, section, key, value).Some?
    requires !Glued(lines, section, key)
    ensures Loose(SetLines(lines, section, key, value).value)
  {
    hide OneLine, Whole, Open, KeyLine, HeaderLine, Above, Below, HasRoom, Items, HeaderOf, LastHeader, Classify;
    WrittenLinesWhole(section, key, value);
    AboveShape(lines, section, key);
  }

  /** What is written below an open line. */
  lemma WrittenBelow(lines: seq<string>, section: string, key: string, value: string)
    requires Glued(lines, section, key) && SetLines(lines, section, key, value).Some?
    ensures SetLines(lines, section, key, value).value == lines + (Added(lines, section) + [KeyLine(key, value)])
  {
    hide Open, KeyLine, Added, Above, Below, HasRoom;
    AboveShape(lines, section, key);
  }

  /** The file that `set` leaves consists of the lines it meant to write if and only if it did not write
      directly behind an open line; then that line is read together with what was written. */
  lemma SetFileLines(text: string, section: string, key: string, value: string)
    requires OneLine(section, key, value)
    ensures SetFile(Some(text), section, key, value).Some? <==> SetLines(Kept(text), section, key, value).Some?
    ensures SetFile(Some(text), section, key, value).Some? ==> (
              var lines, after := Kept(text), SetFile(Some(text), section, key, value).value;
              var written := SetLines(lines, section, key, value).value;
              && |written| <= MAX_LINES && after == Concat(written)
              && (Lines(after) == written <==> !Glued(lines, section, key))
              && (Glued(lines, section, key) ==>
                    var n := |lines|;
                    Lines(after) == lines[..n - 1] + Lines(lines[n - 1] + Concat(Added(lines, section) + [KeyLine(key, value)]))))
  {
    hide Whole, Open, KeyLine, Lines, Concat, Above, Below, HasRoom, Added, OneLine;
    var lines := Kept(text);
    KeptIsLoose(text);
    if SetLines(lines, section, key, value).Some? {
      AboveShape(lines, section, key);
      if Glued(lines, section, key) {
        var front, last, more := lines[..|lines| - 1], lines[|lines| - 1], Added(lines, section) + [KeyLine(key, value)];
        WrittenBelow(lines, section, key, value);
        assert lines == front + [last];
        ConcatBoth(Added(lines, section), [KeyLine(key, value)]);
        OneConcat(KeyLine(key, value));
        WrittenLinesWhole(section, key, value);
        WholeIsText(KeyLine(key, value));
        UnterminatedLineGlues(front, last, more);
      } else {
        WrittenIsLoose(lines, section, key, value);
        LooseReads(SetLines(lines, section, key, value).value);
      }
    }
  }

  // ----- an open line and what is written behind it -----

  /** The classification sees only the trimmed line. */
  lemma SameTrim(a: string, b: string)
    requires Trim(a) == Trim(b)
    ensures Classify(a) == Classify(b)
  {}

  lemma SpaceAround(a: string, line: string, b: string)
    requires AllSpace(a) && AllSpace(b)
    ensures Classify(a + line + b) == Classify(line)
  {
    hide Trim, IsSpace, Classify, Trimmed;
    var c, d := TrimShape(line);
    assert a + line + b == (a + c) + Trim(line) + (d + b);
    TrimPadded(a + c, Trim(line), d + b);
    SameTrim(a + line + b, line);
  }

  lemma {:induction false} IndexOfIn(s: string, rest: string, c: char)
    requires c in s
    ensures IndexOf(s + rest, c) == IndexOf(s, c) < |s|
  {
    if s[0] != c {
      assert (s + rest)[1..] == s[1..] + rest;
      IndexOfIn(s[1..], rest, c);
    }
  }

  /** A written binding behind other text binds another key, or none. */
  lemma JoinedIsOther(last: string, key: string, value: string)
    requires !AllSpace(last) && PlainKey(key) && Fits(key, value) && !IsKey(Classify(last), key)
    ensures !IsKey(Classify(last + KeyLine(key, value)), key)
  {
    hide Trim, IsSpace, IndexOf, Trimmed, AllSpace, KeyLine;
    var a, b := TrimShape(last);
    var c := Trim(last);
    var head, core, post := KeyLineShape(key, value);
    var pre := if key == "" then " " else "";
    var t := c + (b + pre + core);
    assert last + KeyLine(key, value) == a + t + post;
    SpaceOnly(last);
    JoinedTrimmed(c, b + pre, core);
    TrimPadded(a, t, post);
    if '=' in c {
      IndexOfIn(c, b + pre + core, '=');
      var e := IndexOf(c, '=');
      assert t[..e] == c[..e];
    } else {
      SpaceHasNoSign(b);
      JoinedSign(c, b + pre, head, core);
      assert b + pre + head == b + (pre + head);
      JoinedKey(c, b, key, head);
    }
  }

  /** The first `=` of the joined line is that of the binding. */
  lemma JoinedSign(c: string, b: string, head: string, core: string)
    requires '=' !in c && '=' !in b && '=' !in head
    requires |head| < |core| && core[..|head|] == head && core[|head|] == '='
    ensures var t := c + (b + core);
            IndexOf(t, '=') == |c| + |b| + |head| && t[..IndexOf(t, '=')] == c + (b + head)
  {
    hide IndexOf;
    var t, e := c + (b + core), |c| + |b| + |head|;
    assert t == (c + (b + head)) + core[|head|..];
    assert t[..e] == c + (b + head) && t[e] == core[|head|];
    IndexOfUnique(t, '=', e);
  }

  lemma SpaceOnly(s: string)
    ensures Trim(s) == "" ==> AllSpace(s)
  {
    var a, b := TrimShape(s);
    if Trim(s) == "" {
      assert s == a + b;
    }
  }

  lemma SpaceHasNoSign(b: string)
    requires AllSpace(b)
    ensures '=' !in b
  {}

  lemma JoinedTrimmed(c: string, b: string, core: string)
    requires Trimmed(c) && c != "" && Trimmed(core) && core != ""
    ensures Trimmed(c + (b + core))
  {}

  /** The key read from the joined line is longer than the written one. */
  lemma JoinedKey(c: string, b: string, key: string, head: string)
    requires Trimmed(c) && c != "" && AllSpace(b) && Trimmed(key)
    requires head == if key == "" then "" else key + " "
    ensures Trim(c + (b + (if key == "" then " " else "") + head)) != key
  {
    hide Trim, IsSpace, Trimmed, AllSpace;
    if key == "" {
      SpaceBehind(b);
      assert c + (b + " " + "") == "" + c + (b + " ");
      TrimPadded("", c, b + " ");
    } else {
      OneSpace();
      TrimmedEnds(c, b, key);
      assert c + (b + "" + (key + " ")) == "" + (c + b + key) + " ";
      TrimPadded("", c + b + key, " ");
      assert |c + b + key| > |key|;
    }
  }

  lemma OneSpace()
    ensures AllSpace("") && AllSpace(" ")
  {}

  lemma SpaceBehind(b: string)
    requires AllSpace(b)
    ensures AllSpace("") && AllSpace(b + " ")
  {}

  lemma TrimmedEnds(c: string, m: string, key: string)
    requires Trimmed(c) && c != "" && Trimmed(key) && key != ""
    ensures Trimmed(c + m + key)
  {
    hide IsSpace;
    var t := c + m + key;
    assert t[0] == c[0] && t[|t| - 1] == key[|key| - 1];
  }


  // ----- what is read after `set` -----

  /** The section exists, and its last piece reaches to the end of the lines. */
  lemma LastPiece(lines: seq<string>, section: string, key: string) returns (a: nat)
    requires Glued(lines, section, key) && SectionAt(lines, section).Some?
    ensures var items, h := Items(lines), HeaderOf(section);
            && a < |lines| && items[a] == Header(h) && (forall i :: a < i < |lines| ==> !items[i].Header?)
            && FirstKey(items, h, key, |lines|).None? && Above(lines, section, key) == lines && Below(lines, section, key) == []
  {
    hide Open, Items, HeaderOf, FirstKey, KeyAt, LastHeader, NextHeader, InsertAt, HeaderLine, Classify;
    a := SectionAt(lines, section).value;
    var e := NextHeader(Items(lines), a + 1);
    assert lines[..|lines|] == lines;
  }

  /** The binding fits the line buffer together with the open line in front of it. */
  predicate JoinFits(lines: seq<string>, key: string, value: string)
  {
    lines != [] ==> |lines[|lines| - 1]| + |KeyLine(key, value)| < MAX_LINE_LENGTH
  }

  /** The binding itself is written directly behind an open line. */
  predicate GluesBinding(lines: seq<string>, section: string, key: string)
  {
    Glued(lines, section, key) && SectionAt(lines, section).Some?
  }

  /** A binding written behind an open line in an existing section. */
  lemma GluedLines(lines: seq<string>, section: string, key: string, value: string)
    requires OneLine(section, key, value) && Loose(lines) && Glued(lines, section, key) && JoinFits(lines, key, value)
    ensures var last := lines[|lines| - 1];
            && Lines(last + KeyLine(key, value)) == [last + KeyLine(key, value)]
            && Items(lines[..|lines| - 1] + [last + KeyLine(key, value)])
               == Items(lines)[..|lines| - 1] + [Classify(last + KeyLine(key, value))]
  {
    hide Items, Classify, KeyLine, OneLine, Lines, Whole, Open, Above;
    var n, last, line := |lines| - 1, lines[|lines| - 1], KeyLine(key, value);
    WrittenLinesWhole(section, key, value);
    JoinedWhole(last, line);
    LinesCons(last + line, "");
    NoLines();
    assert last + line + "" == last + line;
    ItemsConcat(lines[..n], [last + line]);
    ItemsSplit(lines, n);
    OneItem(last + line);
  }

  lemma JoinedWhole(last: string, line: string)
    requires Open(last) && Whole(line) && |last| + |line| < MAX_LINE_LENGTH
    ensures Whole(last + line)
  {
    assert (last + line)[..|last + line| - 1] == last + line[..|line| - 1];
  }

  lemma OneItem(line: string)
    ensures Items([line]) == [Classify(line)]
  {
    hide Classify;
    assert [line][..0] == [] && Items([line]) == Items([]) + [Classify(line)];
  }

  /** Behind a blank open line the binding is read as if it stood alone. */
  lemma BehindBlank(before: seq<Item>, x: Item, h: string, a: nat, h': string, key: string)
    requires before != [] && before[|before| - 1] == Blank && x.Binding? && FirstKey(before, h, x.key, |before|).None?
    requires a < |before| && before[a] == Header(h) && forall i :: a < i < |before| ==> !before[i].Header?
    ensures var n := |before| - 1;
            var after := before[..n] + [x];
            && (Get(after, h, x.key) == Some(x.value) <==> Get(before, h, x.key).Some? || !Split(before, h))
            && (h' != h || key != x.key ==> Get(after, h', key) == Get(before, h', key))
            && FirstKey(after, h, x.key, |after|) == LastKey(after, h, x.key, |after|) == Some(n)
  {
    hide Owner, KeyAt, Hit, PhaseAt, FirstKey, LastKey, Split;
    var n := |before| - 1;
    var short := before[..n];
    var after := short + [x];
    OwnerInBlock(short, h, a, n);
    ShortKeys(before, n, h, x.key);
    assert Edited(short, after, n, n, x, h);
    ShortReads(before, h, x.key);
    ShortReads(before, h', key);
    ShortSplit(before, h);
    EditReadable(short, after, n, n, x, h);
    EditIsFirst(short, after, n, n, x, h);
    if h' != h || key != x.key {
      EditKeepsOthers(short, after, n, n, x, h, h', key);
    }
  }

  lemma ShortKeys(items: seq<Item>, n: nat, h: string, key: string)
    requires n <= |items| && FirstKey(items, h, key, |items|).None?
    ensures FirstKey(items[..n], h, key, n).None?
  {
    hide Owner, KeyAt, FirstKey;
    SamePrefixOwner(items[..n], items, n, h, key);
    var first := FirstKey(items[..n], h, key, n);
    assert forall i: nat :: i < n ==> !KeyAt(items, h, key, i);
  }

  lemma ShortReads(items: seq<Item>, h: string, key: string)
    requires items != [] && items[|items| - 1] == Blank
    ensures Get(items[..|items| - 1], h, key) == Get(items, h, key)
  {
    hide Owner, Hit, PhaseAt;
    var n := |items| - 1;
    AtStart(items, items[..n], h, key);
    SameTail(items, 0, n, items[..n], 0, h, key);
    BlanksChangeNothing(items, n, |items|, h, key);
  }

  lemma ShortSplit(items: seq<Item>, h: string)
    requires items != [] && items[|items| - 1] == Blank
    ensures Split(items[..|items| - 1], h) <==> Split(items, h)
  {
    var short := items[..|items| - 1];
    if Split(items, h) {
      var a: nat, b: nat, c: nat :| a < b < c < |items| && items[a] == Header(h)
        && items[b].Header? && items[b] != Header(h) && items[c] == Header(h);
      assert short[a] == items[a] && short[b] == items[b] && short[c] == items[c];
    }
  }

  /** Behind other text it is not read at all. */
  lemma BehindText(before: seq<Item>, y: Item, h: string, key: string)
    requires before != [] && FirstKey(before, h, key, |before|).None? && !IsKey(y, key)
    ensures var after := before[..|before| - 1] + [y];
            FirstKey(after, h, key, |after|).None? && LastKey(after, h, key, |after|).None? && Get(after, h, key).None?
  {
    var n := |before| - 1;
    var after := before[..n] + [y];
    HitIsFirst(after, h, key, |after|);
    SamePrefixOwner(after, before, n, h, key);
    hide Owner, FirstKey, LastKey, Hit;
    var first, last := FirstKey(after, h, key, |after|), LastKey(after, h, key, |after|);
    assert forall i: nat :: i < n ==> !KeyAt(before, h, key, i);
  }

  /** A new section behind an open line only completes that line. */
  lemma GluedSection(lines: seq<string>, section: string, key: string, value: string)
    requires OneLine(section, key, value) && Loose(lines) && Glued(lines, section, key)
    requires SectionAt(lines, section).None?
    ensures var n, last := |lines| - 1, lines[|lines| - 1];
            var read := lines[..n] + Lines(last + Concat(Added(lines, section) + [KeyLine(key, value)]));
            && Items(read) == Items(lines) + [Header(HeaderOf(section)), Binding(key, Trim(value))]
            && read == lines[..n] + [last + "\n", HeaderLine(section), KeyLine(key, value)]
  {
    hide Items, Classify, KeyLine, HeaderLine, Lines, Whole, Concat, Above, LastHeader, HeaderOf, PlainKey;
    hide PlainSection, Trim, Fits;
    var n, last, header, line := |lines| - 1, lines[|lines| - 1], HeaderLine(section), KeyLine(key, value);
    var three := [last + "\n", header, line];
    WrittenLinesWhole(section, key, value);
    WholeLine(last);
    assert Added(lines, section) + [line] == ["\n"] + [header, line] && three == [last + "\n"] + [header, line];
    ConcatBoth(["\n"], [header, line]);
    ConcatBoth([last + "\n"], [header, line]);
    OneConcat("\n");
    OneConcat(last + "\n");
    assert last + ("\n" + Concat([header, line])) == (last + "\n") + Concat([header, line]);
    LooseReads(three);
    SectionItems(lines, section, key, value, lines[..n] + three);
  }

  lemma SectionItems(lines: seq<string>, section: string, key: string, value: string, read: seq<string>)
    requires Writable(section, key, value) && lines != []
    requires read == lines[..|lines| - 1] + [lines[|lines| - 1] + "\n", HeaderLine(section), KeyLine(key, value)]
    ensures Items(read) == Items(lines) + [Header(HeaderOf(section)), Binding(key, Trim(value))]
  {
    hide Items, Classify, KeyLine, HeaderLine, HeaderOf, PlainKey, PlainSection, Trim, Fits, AllSpace;
    var n, last := |lines| - 1, lines[|lines| - 1];
    KeyLineReads(key, value);
    HeaderLineReads(section);
    SpacesAround("");
    SpaceAround("", last, "\n");
    assert "" + last + "\n" == last + "\n";
    LastItem(lines, last);
    ItemsConcat(lines[..n], [last + "\n", HeaderLine(section), KeyLine(key, value)]);
    ThreeItems(last + "\n", HeaderLine(section), KeyLine(key, value));
    Regroup(Items(lines[..n]), Classify(last), Header(HeaderOf(section)), Binding(key, Trim(value)));
  }

  lemma LastItem(lines: seq<string>, last: string)
    requires lines != [] && last == lines[|lines| - 1]
    ensures Items(lines) == Items(lines[..|lines| - 1]) + [Classify(last)]
  {
    hide Classify;
  }

  lemma ThreeItems(a: string, b: string, c: string)
    ensures Items([a, b, c]) == [Classify(a), Classify(b), Classify(c)]
  {
    hide Classify, Items;
    ItemAt([a, b, c], 0);
    ItemAt([a, b, c], 1);
    ItemAt([a, b, c], 2);
  }

  lemma Regroup(front: seq<Item>, a: Item, b: Item, c: Item)
    ensures front + [a, b, c] == (front + [a]) + [b, c]
  {}

  /** Nothing but a blank line stands in the way of the binding. */
  predicate Harmless(lines: seq<string>, section: string, key: string)
  {
    GluesBinding(lines, section, key) ==> AllSpace(lines[|lines| - 1])
  }

  /** What is read in the lines after a `set` behind an open line. */
  lemma GluedReads(lines: seq<string>, section: string, key: string, value: string, section': string, key': string)
    requires OneLine(section, key, value) && Loose(lines) && Glued(lines, section, key)
    requires SectionAt(lines, section).Some? ==> JoinFits(lines, key, value)
    ensures var n := |lines| - 1;
            var read := lines[..n] + Lines(lines[n] + Concat(Added(lines, section) + [KeyLine(key, value)]));
            && (Lookup(read, section, key) == Some(Trim(value)) <==>
                Harmless(lines, section, key) && (Lookup(lines, section, key).Some? || !Split(Items(lines), HeaderOf(section))))
            && (Harmless(lines, section, key) && (HeaderOf(section') != HeaderOf(section) || key' != key) ==>
                Lookup(read, section', key') == Lookup(lines, section', key'))
  {
    hide Items, Classify, KeyLine, HeaderLine, Lines, Whole, Open, Concat, Above, HeaderOf, Trim, Get, Split, OneLine;
    hide LastHeader, AllSpace;
    var items, h, x := Items(lines), HeaderOf(section), Binding(key, Trim(value));
    if LastHeader(items, h, |lines|).None? {
      GluedSection(lines, section, key, value);
      AppendedSection(items, items + [Header(h), x], x, h);
      AppendReads(items, items + [Header(h), x], x, h, HeaderOf(section'), key');
    } else {
      GluedBinding(lines, section, key, value, section', key');
    }
  }

  lemma AppendedSection(items: seq<Item>, after: seq<Item>, x: Item, h: string)
    requires after == items + [Header(h), x] && x.Binding? && LastHeader(items, h, |items|).None?
    ensures Appended(items, after, x, h)
  {}

  lemma GluedBinding(lines: seq<string>, section: string, key: string, value: string, section': string, key': string)
    requires OneLine(section, key, value) && Loose(lines) && Glued(lines, section, key) && JoinFits(lines, key, value)
    requires SectionAt(lines, section).Some?
    ensures var n, last := |lines| - 1, lines[|lines| - 1];
            var read, h := lines[..n] + [last + KeyLine(key, value)], HeaderOf(section);
            && read == lines[..n] + Lines(last + Concat(Added(lines, section) + [KeyLine(key, value)]))
            && (Lookup(read, section, key) == Some(Trim(value)) <==>
                AllSpace(last) && (Lookup(lines, section, key).Some? || !Split(Items(lines), h)))
            && (AllSpace(last) && (HeaderOf(section') != h || key' != key) ==>
                Lookup(read, section', key') == Lookup(lines, section', key'))
            && FirstKey(Items(read), h, key, |read|) == LastKey(Items(read), h, key, |read|)
               == (if AllSpace(last) then Some(n) else None)
  {
    hide Items, Classify, KeyLine, HeaderLine, Lines, Whole, Open, Above, HeaderOf, Trim, Get, Split, LastHeader;
    hide AllSpace, PlainKey, PlainSection, Fits;
    hide FirstKey, LastKey, KeyAt, Owner;
    var n, last, line := |lines| - 1, lines[|lines| - 1], KeyLine(key, value);
    var items, h, x := Items(lines), HeaderOf(section), Binding(key, Trim(value));
    var a := LastPiece(lines, section, key);
    GluedLines(lines, section, key, value);
    OneConcat(line);
    assert Added(lines, section) + [line] == [line];
    ItemAt(lines, n);
    KeyLineReads(key, value);
    if AllSpace(last) {
      SpacesAround(last);
      SpaceAround(last, line, "");
      assert last + line + "" == last + line;
      BlankItem(last);
      BehindBlank(items, x, h, a, HeaderOf(section'), key');
    } else {
      LastIsOther(items, h, key, a);
      JoinedIsOther(last, key, value);
      BehindText(items, Classify(last + line), h, key);
    }
  }

  lemma BlankItem(line: string)
    requires AllSpace(line)
    ensures Classify(line) == Blank
  {
    hide Trim;
    TrimPadded(line, "", "");
    assert line + "" + "" == line;
  }

  /** The last line of the section does not bind a key that is new in it. */
  lemma LastIsOther(items: seq<Item>, h: string, key: string, a: nat)
    requires a < |items| && items[a] == Header(h) && forall i :: a < i < |items| ==> !items[i].Header?
    requires FirstKey(items, h, key, |items|).None?
    ensures !IsKey(items[|items| - 1], key)
  {
    hide Owner, FirstKey;
    var n := |items| - 1;
    if a < n {
      OwnerInBlock(items, h, a, n);
      assert !KeyAt(items, h, key, n);
    }
  }

  /** What is read from the file after a successful `set`.  The new value is read if and only if the key
      could be read before or the section is in one piece, and no text stands unterminated at the end of
      the file where the binding is put; then every other lookup is unchanged. */
  lemma SetFileThenGet(text: string, section: string, key: string, value: string, section': string, key': string)
    requires OneLine(section, key, value) && SetFile(Some(text), section, key, value).Some?
    requires GluesBinding(Kept(text), section, key) ==> JoinFits(Kept(text), key, value)
    ensures var lines, after := Kept(text), SetFile(Some(text), section, key, value).value;
            && (Lookup(Lines(after), section, key) == Some(Trim(value)) <==>
                Harmless(lines, section, key) && (Lookup(lines, section, key).Some? || !Split(Items(lines), HeaderOf(section))))
            && (Harmless(lines, section, key) && (HeaderOf(section') != HeaderOf(section) || key' != key) ==>
                Lookup(Lines(after), section', key') == Lookup(lines, section', key'))
    ensures |Lines(text)| <= MAX_LINES ==> Kept(text) == Lines(text)
  {
    KeptIsText(text);
    hide Lines, Lookup, SetLines, SetFile, Writable, HeaderOf, Items, Classify, Split, Trim, Kept, Added, KeyLine;
    hide Loose, Open, Above;
    var lines := Kept(text);
    SetFileLines(text, section, key, value);
    KeptIsLoose(text);
    if Glued(lines, section, key) {
      GluedReads(lines, section, key, value, section', key');
    } else {
      SetThenGet(lines, section, key, value, section', key');
    }
  }

  // ----- the other laws -----

  /** Writing a file back unchanged gives the same file. */
  lemma {:induction false} ConcatOfLines(text: string)
    ensures Concat(Lines(text)) == text
  {
    if text != "" {
      var n := LineLength(text);
      ConcatOfLines(text[n..]);
      assert Lines(text)[1..] == Lines(text[n..]);
      assert text == text[..n] + text[n..];
    }
  }

  /** A file with so few lines as to fit the line table is kept as a whole. */
  lemma KeptIsText(text: string)
    ensures |Lines(text)| <= MAX_LINES ==> Kept(text) == Lines(text) && Concat(Kept(text)) == text
  {
    ConcatOfLines(text);
  }

  /** An answer that `get` finds in the lines that are kept is its answer for the whole file; an answer from
      further down is lost when the file is written. */
  lemma KeptAnswers(text: string, section: string, key: string)
    ensures Lookup(Kept(text), section, key).Some? ==> Lookup(Lines(text), section, key) == Lookup(Kept(text), section, key)
    ensures |Lines(text)| <= MAX_LINES ==> Lookup(Lines(text), section, key) == Lookup(Kept(text), section, key)
  {
    hide HeaderOf, Items, Lines;
    var lines, n := Lines(text), |Kept(text)|;
    assert Kept(text) == lines[..n];
    ItemsSplit(lines, n);
    FrontAnswers(Items(lines), HeaderOf(section), key, n);
  }

  lemma FrontAnswers(items: seq<Item>, h: string, key: string, n: nat)
    requires n <= |items|
    ensures Get(items[..n], h, key).Some? ==> Get(items, h, key) == Get(items[..n], h, key)
  {
    hide Owner, PhaseAt, Hit;
    AtStart(items[..n], items, h, key);
    SameTail(items[..n], 0, n, items, 0, h, key);
    if Get(items[..n], h, key).Some? {
      HitFrozen(items, h, key, n, |items|);
    }
  }

  /** The lines that a second command finds after a `set` that did not glue the binding: the binding at
      line `p`, and around it the text that was around it. */
  ghost predicate Found(read: seq<string>, p: nat, lines: seq<string>, section: string, key: string, value: string)
  {
    && p < |read| <= MAX_LINES && read[p] == KeyLine(key, value)
    && FirstAt(read, section, key) == Some(p)
    && Concat(read[..p]) == Concat(Above(lines, section, key)) && read[p + 1..] == Below(lines, section, key)
  }

  lemma ReadAgain(text: string, section: string, key: string, value: string) returns (p: nat)
    requires OneLine(section, key, value) && SetFile(Some(text), section, key, value).Some?
    requires !GluesBinding(Kept(text), section, key)
    ensures Found(Kept(SetFile(Some(text), section, key, value).value), p, Kept(text), section, key, value)
  {
    hide Lines, SetLines, Writable, HeaderOf, Items, Classify, Kept, Added, KeyLine, HeaderLine, Loose, Open;
    hide FirstKey, LastKey, LastHeader, Above, Below, Concat, KeyAt;
    var lines, after := Kept(text), SetFile(Some(text), section, key, value).value;
    SetFileLines(text, section, key, value);
    KeptIsLoose(text);
    KeptIsText(after);
    if Glued(lines, section, key) {
      WrittenBelow(lines, section, key, value);
      AddedSize(lines, section);
      p := FoundSection(lines, section, key, value, Lines(after));
    } else {
      p := FoundLine(lines, section, key, value);
    }
  }

  lemma AddedSize(lines: seq<string>, section: string)
    requires lines != [] && SectionAt(lines, section).None?
    ensures |Added(lines, section)| == 2
  {}

  lemma FoundLine(lines: seq<string>, section: string, key: string, value: string) returns (p: nat)
    requires OneLine(section, key, value) && SetLines(lines, section, key, value).Some? && |lines| <= MAX_LINES
    ensures Found(SetLines(lines, section, key, value).value, p, lines, section, key, value)
  {
    hide HeaderOf, Items, Classify, KeyLine, FirstKey, LastKey, Above, Below, Concat, KeyAt, HasRoom, Added, Whole;
    hide Open, PlainKey, PlainSection, Fits;
    AboveShape(lines, section, key);
    SetPlaces(lines, section, key, value);
    p := |Above(lines, section, key)|;
    var read := SetLines(lines, section, key, value).value;
    assert read[..p] == Above(lines, section, key) && read[p + 1..] == Below(lines, section, key);
  }

  lemma FoundSection(lines: seq<string>, section: string, key: string, value: string, read: seq<string>) returns (p: nat)
    requires OneLine(section, key, value) && Loose(lines) && Glued(lines, section, key)
    requires SectionAt(lines, section).None? && |lines| + 1 < MAX_LINES
    requires read == lines[..|lines| - 1] + Lines(lines[|lines| - 1] + Concat(Added(lines, section) + [KeyLine(key, value)]))
    ensures Found(read, p, lines, section, key, value)
  {
    hide HeaderOf, Items, Classify, KeyLine, HeaderLine, FirstKey, LastKey, Above, Below, KeyAt, Whole, Open, Lines;
    assert lines != [];
    hide LastHeader, Trim, Writable, Loose, Concat, Added;
    var n, last, header, h := |lines| - 1, lines[|lines| - 1], HeaderLine(section), HeaderOf(section);
    var items, x := Items(lines), Binding(key, Trim(value));
    GluedSection(lines, section, key, value);
    AppendedSection(items, items + [Header(h), x], x, h);
    AppendReads(items, items + [Header(h), x], x, h, h, key);
    p := n + 2;
    SectionAround(lines, section, key);
    SectionText(lines[..n], last, header);
    SectionParts(lines, last, header, KeyLine(key, value), read);
  }

  /** A new section goes below all lines. */
  lemma SectionAround(lines: seq<string>, section: string, key: string)
    requires Glued(lines, section, key) && SectionAt(lines, section).None?
    ensures Above(lines, section, key) == lines + ["\n", HeaderLine(section)] && Below(lines, section, key) == []
  {
    hide HeaderOf, Items, Classify, HeaderLine, KeyAt, Open;
    AboveShape(lines, section, key);
  }

  lemma SectionParts(lines: seq<string>, last: string, header: string, line: string, read: seq<string>)
    requires lines != [] && last == lines[|lines| - 1]
    requires read == lines[..|lines| - 1] + [last + "\n", header, line]
    ensures var n := |lines| - 1;
            && |read| == n + 3 && lines[..n] + [last] == lines && read[n + 2] == line && read[n + 3..] == []
            && read[..n + 2] == lines[..n] + [last + "\n", header]
  {
    var front := lines[..|lines| - 1];
    assert |front| == |lines| - 1 && front + [last] == lines;
    assert read == (front + [last + "\n", header]) + [line];
  }

  lemma SectionText(front: seq<string>, last: string, header: string)
    ensures Concat(front + [last + "\n", header]) == Concat((front + [last]) + ["\n", header])
  {
    hide Concat;
    ConcatBoth(front, [last + "\n", header]);
    ConcatBoth(front + [last], ["\n", header]);
    ConcatBoth(front, [last]);
    TwoLines(last, header);
  }

  lemma TwoLines(last: string, header: string)
    ensures Concat([last + "\n", header]) == Concat([last]) + Concat(["\n", header])
  {
    hide Concat;
    ConcatBoth([last + "\n"], [header]);
    ConcatBoth(["\n"], [header]);
    OneConcat(last);
    OneConcat("\n");
    OneConcat(last + "\n");
    assert [last + "\n"] + [header] == [last + "\n", header] && ["\n"] + [header] == ["\n", header];
  }


  /** How much text is written when the binding is new. */
  lemma NewText(lines: seq<string>, section: string, key: string, value: string)
    requires FirstAt(lines, section, key).None? && SetLines(lines, section, key, value).Some?
    ensures |Concat(SetLines(lines, section, key, value).value)| >= |Concat(lines)| + |KeyLine(key, value)|
  {
    hide HeaderOf, Items, Classify, KeyLine, HeaderLine, FirstKey, LastHeader, KeyAt, HasRoom, InsertAt, NextHeader;
    hide Concat;
    var a, k, b := Above(lines, section, key), KeyLine(key, value), Below(lines, section, key);
    ConcatBoth(a + [k], b);
    ConcatBoth(a, [k]);
    OneConcat(k);
    NewParts(lines, section, key);
  }

  lemma NewParts(lines: seq<string>, section: string, key: string)
    requires FirstAt(lines, section, key).None?
    ensures |Concat(Above(lines, section, key))| + |Concat(Below(lines, section, key))| >= |Concat(lines)|
  {
    hide HeaderOf, Items, Classify, HeaderLine, FirstKey, LastHeader, KeyAt, InsertAt, NextHeader, Concat;
    var a, b := Above(lines, section, key), Below(lines, section, key);
    if SectionAt(lines, section).Some? {
      assert a + b == lines;
      ConcatBoth(a, b);
    } else {
      var added := a[|lines|..];
      assert a == lines + added;
      ConcatBoth(lines, added);
    }
  }

  /** What a second command finds when the binding was glued to an open line. */
  lemma FoundGlued(text: string, section: string, key: string, value: string) returns (front: seq<string>, last: string)
    requires OneLine(section, key, value) && SetFile(Some(text), section, key, value).Some?
    requires GluesBinding(Kept(text), section, key) && JoinFits(Kept(text), key, value)
    ensures var read, h := Kept(SetFile(Some(text), section, key, value).value), HeaderOf(section);
            && Kept(text) == front + [last] && last != "" && read == front + [last + KeyLine(key, value)]
            && FirstKey(Items(read), h, key, |read|) == LastKey(Items(read), h, key, |read|)
               == (if AllSpace(last) then Some(|front|) else None)
  {
    hide Lines, SetLines, Writable, HeaderOf, Items, Classify, Kept, Added, KeyLine, HeaderLine, Loose, FirstKey;
    hide LastKey, LastHeader, Above, Below, Concat, KeyAt, AllSpace, Trim;
    var lines, after := Kept(text), SetFile(Some(text), section, key, value).value;
    front, last := lines[..|lines| - 1], lines[|lines| - 1];
    SetFileLines(text, section, key, value);
    KeptIsLoose(text);
    KeptIsText(after);
    GluedBinding(lines, section, key, value, section, key);
  }

  /** Setting twice is setting once with the last value, if and only if the binding is not written directly
      behind an open line. */
  lemma SetFileTwice(text: string, section: string, key: string, value: string, value': string)
    requires OneLine(section, key, value) && OneLine(section, key, value')
    requires SetFile(Some(text), section, key, value).Some?
    requires GluesBinding(Kept(text), section, key) ==> JoinFits(Kept(text), key, value)
    ensures SetFile(SetFile(Some(text), section, key, value), section, key, value') == SetFile(Some(text), section, key, value')
            <==> !GluesBinding(Kept(text), section, key)
  {
    hide Lines, SetLines, HasRoom, Writable, HeaderOf, Items, Classify, Kept, KeyLine, HeaderLine, Loose, Open;
    hide FirstKey, LastKey, LastHeader, Above, Below, KeyAt, AllSpace, GluesBinding, Concat;
    var lines, k, k' := Kept(text), KeyLine(key, value), KeyLine(key, value');
    SetFileIs(text, section, key, value);
    SetFileIs(text, section, key, value');
    SetFileIs(SetFile(Some(text), section, key, value).value, section, key, value');
    hide SetFile;
    SameRoom(lines, section, key, value, value');
    WrittenText(lines, section, key, value');
    var read := Kept(SetFile(Some(text), section, key, value).value);
    if GluesBinding(lines, section, key) {
      var front, last := FoundGlued(text, section, key, value);
      GluedTwice(lines, front, last, section, key, value, value');
    } else {
      var p := ReadAgain(text, section, key, value);
      SetAtFirst(read, section, key, value', p);
      TextAround(read, p, k');
    }
  }

  lemma SetFileIs(text: string, section: string, key: string, value: string)
    ensures var after := SetLines(Kept(text), section, key, value);
            SetFile(Some(text), section, key, value) == if after.None? then None else Some(Concat(after.value))
  {}

  lemma SameRoom(lines: seq<string>, section: string, key: string, value: string, value': string)
    ensures SetLines(lines, section, key, value).Some? <==> SetLines(lines, section, key, value').Some?
  {
    hide HasRoom, Above, Below, KeyLine;
  }

  lemma WrittenText(lines: seq<string>, section: string, key: string, value: string)
    requires SetLines(lines, section, key, value).Some?
    ensures Concat(SetLines(lines, section, key, value).value) ==
            Concat(Above(lines, section, key)) + KeyLine(key, value) + Concat(Below(lines, section, key))
  {
    hide HasRoom, Above, Below, KeyLine, Concat;
    var a, k, b := Above(lines, section, key), KeyLine(key, value), Below(lines, section, key);
    ConcatBoth(a + [k], b);
    ConcatBoth(a, [k]);
    OneConcat(k);
  }

  lemma TextAround(read: seq<string>, p: nat, line: string)
    requires p < |read|
    ensures Concat(read[p := line]) == Concat(read[..p]) + line + Concat(read[p + 1..])
  {
    hide Concat;
    assert read[p := line] == (read[..p] + [line]) + read[p + 1..];
    ConcatBoth(read[..p] + [line], read[p + 1..]);
    ConcatBoth(read[..p], [line]);
    OneConcat(line);
  }

  /** The second text is shorter or longer than the first. */
  lemma GluedTwice(lines: seq<string>, front: seq<string>, last: string, section: string, key: string, value: string,
                   value': string)
    requires GluesBinding(lines, section, key) && lines == front + [last] && last != ""
    requires SetLines(lines, section, key, value').Some?
    requires var read, h := front + [last + KeyLine(key, value)], HeaderOf(section);
             FirstKey(Items(read), h, key, |read|) == if AllSpace(last) then Some(|front|) else None
    ensures var read := front + [last + KeyLine(key, value)];
            SetLines(read, section, key, value').Some? ==>
              |Concat(SetLines(read, section, key, value').value)| != |Concat(SetLines(lines, section, key, value').value)|
  {
    hide Lines, SetLines, HasRoom, HeaderOf, Items, Classify, KeyLine, HeaderLine, Open, FirstKey, LastKey;
    hide LastHeader, KeyAt, AllSpace, Concat, Above, Below;
    var k, k' := KeyLine(key, value), KeyLine(key, value');
    var read := front + [last + k];
    WrittenText(lines, section, key, value');
    var a := LastPiece(lines, section, key);
    ConcatBoth(front, [last]);
    ConcatBoth(front, [last + k]);
    OneConcat(last);
    OneConcat(last + k);
    EmptyConcat();
    KeyLineIsText(key, value);
    if AllSpace(last) {
      SetAtFirst(read, section, key, value', |front|);
      TextAround(read, |front|, k');
      assert read[..|front|] == front && read[|front| + 1..] == [];
    } else if SetLines(read, section, key, value').Some? {
      NewText(read, section, key, value');
    }
  }

  lemma KeyLineIsText(key: string, value: string)
    ensures KeyLine(key, value) != ""
  {}

  // ----- `del` -----

  lemma DelFileIs(text: string, section: string, key: Option<string>)
    ensures var after := DelLines(Kept(text), section, key);
            DelFile(Some(text), section, key) == if after.None? then None else Some(Concat(after.value))
  {}

  /** Setting a new key in an existing section and deleting it gives back the text, if and only if the
      binding is not written directly behind an open line. */
  lemma SetFileThenDelete(text: string, section: string, key: string, value: string)
    requires OneLine(section, key, value) && SetFile(Some(text), section, key, value).Some?
    requires FirstAt(Kept(text), section, key).None?
    requires SectionAt(Kept(text), section).Some?
    requires GluesBinding(Kept(text), section, key) ==> JoinFits(Kept(text), key, value)
    ensures DelFile(SetFile(Some(text), section, key, value), section, Some(key)) == Some(Concat(Kept(text)))
            <==> !GluesBinding(Kept(text), section, key)
    ensures |Lines(text)| <= MAX_LINES ==> Concat(Kept(text)) == text
  {
    hide Lines, SetLines, HasRoom, Writable, HeaderOf, Items, Classify, Kept, KeyLine, HeaderLine, Loose, Open;
    hide FirstKey, LastKey, LastHeader, Above, Below, KeyAt, AllSpace, Concat, Added;
    var lines, after := Kept(text), SetFile(Some(text), section, key, value).value;
    KeptIsText(text);
    SetFileLines(text, section, key, value);
    KeptIsText(after);
    DelFileIs(after, section, Some(key));
    hide DelFile, SetFile;
    if GluesBinding(lines, section, key) {
      var front, last := FoundGlued(text, section, key, value);
      GluedThenDeleted(lines, front, last, section, key, value);
    } else {
      SetThenDelete(lines, section, key, value);
    }
  }

  lemma GluedThenDeleted(lines: seq<string>, front: seq<string>, last: string, section: string, key: string, value: string)
    requires lines == front + [last] && last != ""
    requires var read, h := front + [last + KeyLine(key, value)], HeaderOf(section);
             LastKey(Items(read), h, key, |read|) == if AllSpace(last) then Some(|front|) else None
    ensures var left := DelKeyLines(front + [last + KeyLine(key, value)], section, key);
            left.Some? ==> Concat(left.value) != Concat(lines)
  {
    hide HeaderOf, Items, Classify, KeyLine, LastKey, KeyAt, AllSpace, Concat;
    var read := front + [last + KeyLine(key, value)];
    assert read[..|front|] + read[|front| + 1..] == front;
    ConcatBoth(front, [last]);
    OneConcat(last);
  }

  /** The file that `del` leaves consists of exactly the lines that it kept. */
  lemma DelFileLines(text: string, section: string, key: Option<string>)
    ensures DelFile(Some(text), section, key).Some? <==> DelLines(Kept(text), section, key).Some?
    ensures DelFile(Some(text), section, key).Some? ==>
              Lines(DelFile(Some(text), section, key).value) == DelLines(Kept(text), section, key).value
  {
    hide HeaderOf, Items, Classify, LastKey, LastHeader, NextHeader, KeyAt, Concat, Lines, Whole, Open, Kept;
    KeptIsLoose(text);
    DelFileIs(text, section, key);
    if DelLines(Kept(text), section, key).Some? {
      LooseReads(DelLines(Kept(text), section, key).value);
    }
  }

  /** What is read from the file after `del` of a key; the lines that are kept are all of them when they fit the
      line table. */
  lemma DelFileKeyThenGet(text: string, section: string, key: string, section': string, key': string)
    requires DelFile(Some(text), section, Some(key)).Some?
    ensures var lines, after, h := Kept(text), DelFile(Some(text), section, Some(key)).value, HeaderOf(section);
            var only := FirstKey(Items(lines), h, key, |lines|) == LastKey(Items(lines), h, key, |lines|);
            && Lookup(Lines(after), section, key) == (if only then None else Lookup(lines, section, key))
            && (HeaderOf(section') != h || key' != key ==>
                Lookup(Lines(after), section', key') == Lookup(lines, section', key'))
    ensures |Lines(text)| <= MAX_LINES ==> Kept(text) == Lines(text)
  {
    KeptIsText(text);
    hide HeaderOf, Items, FirstKey, LastKey, Lines, Kept, Lookup, DelFile;
    DelFileLines(text, section, Some(key));
    DeleteKeyThenGet(Kept(text), section, key, section', key');
  }

  /** What is read from the file after `del` of a section, whose last block it is that goes. */
  lemma DelFileSectionThenGet(text: string, section: string, section': string, key: string)
    requires DelFile(Some(text), section, None).Some?
    ensures var lines, h, h' := Kept(text), HeaderOf(section), HeaderOf(section');
            var items := Items(lines);
            LastHeader(items, h, |lines|).Some? && (
              var a := LastHeader(items, h, |lines|).value;
              var e := NextHeader(items, a + 1);
              var after := Lines(DelFile(Some(text), section, None).value);
              && after == lines[..a] + lines[e..] && Lookup(after, section, key) == Lookup(lines[..a], section, key)
              && (h' != h ==>
                    Lookup(after, section', key) ==
                    if Merges(items, h', a, e) && Lookup(lines, section', key).None? then Lookup(lines[e..], section', key)
                    else Lookup(lines, section', key)))
    ensures |Lines(text)| <= MAX_LINES ==> Kept(text) == Lines(text)
  {
    KeptIsText(text);
    hide HeaderOf, Items, LastHeader, NextHeader, Lines, Kept, Lookup, Merges, Block, DelFile;
    DelFileLines(text, section, None);
    DeleteSectionThenGet(Kept(text), section, section', key);
  }
}
