/** The four commands of the editor on the text of a file, with the loops of src/config.c. */
module ConfigFile {
  import opened Text
  import opened ConfigScan
  import opened ConfigEdit
  import opened ConfigLines
  import opened ConfigLaws

  // ----- fgets and fputs -----

  /** The length of the next line that fgets reads into a buffer of MAX_LINE_LENGTH characters. */
  function LineLength(text: string): (n: nat)
    requires text != ""
    ensures 0 < n <= |text| && n < MAX_LINE_LENGTH
  {
    var i := IndexOf(text, '\n');
    var n := if i < |text| then i + 1 else |text|;
    if n < MAX_LINE_LENGTH then n else MAX_LINE_LENGTH - 1
  }

  function Lines(text: string): seq<string>
  {
    if text == "" then [] else [text[..LineLength(text)]] + Lines(text[LineLength(text)..])
  }

  function Concat(lines: seq<string>): string
  {
    if lines == [] then "" else lines[0] + Concat(lines[1..])
  }

  function Take(lines: seq<string>, n: nat): seq<string>
  {
    if |lines| <= n then lines else lines[..n]
  }

  lemma {:induction false} ConcatSnoc(lines: seq<string>, line: string)
    ensures Concat(lines + [line]) == Concat(lines) + line
  {
    if lines == [] {
      assert lines + [line] == [line];
      assert Concat([line]) == line + Concat([]);
    } else {
      assert (lines + [line])[1..] == lines[1..] + [line];
      ConcatSnoc(lines[1..], line);
    }
  }

  /** Reads the next line at `pos`. */
  method Fgets(text: string, pos: nat) returns (line: string)
    requires pos < |text|
    ensures line == text[pos..][..LineLength(text[pos..])]
    ensures line == text[pos..pos + |line|]
  {
    var n := 0;
    while n < MAX_LINE_LENGTH - 1 && pos + n < |text| && (n == 0 || text[pos + n - 1] != '\n')
      invariant n <= MAX_LINE_LENGTH - 1 && pos + n <= |text|
      invariant forall i :: pos <= i < pos + n - 1 ==> text[i] != '\n'
    {
      n := n + 1;
    }
    FgetsLength(text[pos..], n);
    line := text[pos..pos + n];
  }

  lemma FgetsLength(text: string, n: nat)
    requires 0 < n <= |text| && n < MAX_LINE_LENGTH
    requires forall i :: 0 <= i < n - 1 ==> text[i] != '\n'
    requires n == MAX_LINE_LENGTH - 1 || n == |text| || text[n - 1] == '\n'
    ensures LineLength(text) == n
  {
    var i := IndexOf(text, '\n');
    if text[n - 1] == '\n' {
      assert '\n' !in text[..n - 1];
      IndexOfUnique(text, '\n', n - 1);
    } else {
      assert i < |text| ==> text[i] == '\n';
    }
  }

  // ----- the commands -----

  lemma NextLine(text: string, pos: nat, lines: seq<string>, i: nat)
    requires pos < |text| && i <= |lines| && Lines(text[pos..]) == lines[i..]
    ensures i < |lines| && lines[i] == text[pos..][..LineLength(text[pos..])]
    ensures Lines(text[pos + |lines[i]|..]) == lines[i + 1..]
  {
    var rest := text[pos..];
    assert lines[i..][0] == lines[i] && lines[i..][1..] == lines[i + 1..];
    assert text[pos + |lines[i]|..] == rest[|lines[i]|..];
  }

  /** `config get`.  None is the failure exit: no such file, or no such key. */
  method ConfigGet(file: Option<string>, section: string, key: string) returns (r: Option<string>)
    ensures r == if file.None? then None else Lookup(Lines(file.value), section, key)
  {
    hide Lines, LineLength, Classify, Trim, PhaseAt, Hit, HeaderOf, Items;
    if file.None? {
      return None;
    }
    var text, header := file.value, HeaderOf(section);
    ghost var lines := Lines(text);
    ghost var items, i := Items(lines), 0;
    StateAtStart(items, header, key);
    assert text[0..] == text && lines[0..] == lines;
    var pos, inSection := 0, false;
    while pos < |text|
      invariant pos <= |text| && i <= |lines| && Lines(text[pos..]) == lines[i..]
      invariant PhaseAt(items, header, i) == (if inSection then In else Before)
      invariant Hit(items, header, key, i).None?
      decreases |text| - pos
    {
      NextLine(text, pos, lines, i);
      var line := Fgets(text, pos);
      pos := pos + |line|;
      i := i + 1;
      var trimmed := TrimInPlace(line);
      ItemAt(lines, i - 1);
      ClassifyCases(line, items[i - 1]);
      StateStep(items, header, key, i - 1);
      if trimmed == "" || trimmed[0] == '#' || trimmed[0] == ';' {
        continue;
      }
      if trimmed[0] == '[' {
        var bracket := IndexOf(trimmed, ']');
        var name := if bracket < |trimmed| then trimmed[..bracket + 1] else trimmed;
        if name == header {
          inSection := true;
        } else if inSection {
          HitFrozen(items, header, key, i, |items|);
          return None;
        }
        continue;
      }
      if inSection {
        var eq := IndexOf(trimmed, '=');
        if eq < |trimmed| {
          var foundKey := TrimInPlace(trimmed[..eq]);
          var foundValue := TrimInPlace(trimmed[eq + 1..]);
          foundValue := foundValue[..IndexOf(foundValue, '\n')];
          if foundKey == key {
            HitFrozen(items, header, key, i, |items|);
            return Some(foundValue);
          }
        }
      }
    }
    LinesOfNothing(text, pos, lines, i);
    return None;
  }

  lemma StateAtStart(items: seq<Item>, h: string, key: string)
    ensures At(items, h, key, 0) == (None, Before, None)
  {}

  lemma StateStep(items: seq<Item>, h: string, key: string, i: nat)
    requires i < |items|
    ensures items[i].Header? ==> Hit(items, h, key, i + 1) == Hit(items, h, key, i)
    ensures items[i].Header? && PhaseAt(items, h, i) != Done ==>
              PhaseAt(items, h, i + 1) ==
              (if items[i].text == h then In else if PhaseAt(items, h, i) == In then Done else Before)
    ensures !items[i].Header? ==> PhaseAt(items, h, i + 1) == PhaseAt(items, h, i)
    ensures !items[i].Header? && Hit(items, h, key, i).None? ==>
              Hit(items, h, key, i + 1) ==
              (if PhaseAt(items, h, i) == In && IsKey(items[i], key) then Some(items[i].value) else None)
  {}

  lemma LinesOfNothing(text: string, pos: nat, lines: seq<string>, i: nat)
    requires pos == |text| && i <= |lines| && Lines(text[pos..]) == lines[i..]
    ensures i == |lines|
  {}

  /** The branches of a scanner on one line. */
  lemma ClassifyCases(line: string, item: Item)
    requires item == Classify(line)
    ensures var t := Trim(line);
            if t == "" then item == Blank
            else if t[0] == '#' || t[0] == ';' then item == Comment
            else if t[0] == '[' then item == Header(CutAfterBracket(t))
            else if IndexOf(t, '=') == |t| then item == Junk
            else var v := Trim(t[IndexOf(t, '=') + 1..]);
                 item == Binding(Trim(t[..IndexOf(t, '=')]), v[..IndexOf(v, '\n')])
  {}

  /** The section names that `ls` prints: the headers that have a closing bracket. */
  function SectionNames(items: seq<Item>, i: nat): seq<string>
    requires i <= |items|
  {
    if i == 0 then []
    else
      var names := SectionNames(items, i - 1);
      match items[i - 1]
      case Header(text) => if Closed(text) then names + [text[1..|text| - 1]] else names
      case _ => names
  }

  predicate Closed(text: string)
  {
    1 < |text| && text[|text| - 1] == ']'
  }

  /** What `ls` prints: all section names, or the keys of one section. */
  function Listing(lines: seq<string>, section: Option<string>): seq<string>
  {
    match section
    case None => SectionNames(Items(lines), |lines|)
    case Some(s) => Keys(Items(lines), HeaderOf(s), |lines|)
  }

  lemma {:induction false} KeysFrozen(items: seq<Item>, h: string, i: nat, n: nat)
    requires i <= n <= |items| && PhaseAt(items, h, i) == Done
    ensures Keys(items, h, n) == Keys(items, h, i) && PhaseAt(items, h, n) == Done
  {
    if i < n {
      KeysFrozen(items, h, i, n - 1);
    }
  }

  lemma ListingStep(items: seq<Item>, h: string, i: nat)
    requires i < |items|
    ensures SectionNames(items, 0) == [] && Keys(items, h, 0) == []
    ensures SectionNames(items, i + 1) == SectionNames(items, i) +
            (if items[i].Header? && Closed(items[i].text) then [items[i].text[1..|items[i].text| - 1]] else [])
    ensures Keys(items, h, i + 1) == Keys(items, h, i) +
            (if items[i].Binding? && PhaseAt(items, h, i) == In then [items[i].key] else [])
  {}

  /** `config ls`.  None is the failure exit: no such file. */
  method ConfigLs(file: Option<string>, section: Option<string>) returns (r: Option<seq<string>>)
    ensures r == if file.None? then None else Some(Listing(Lines(file.value), section))
  {
    hide Lines, LineLength, Classify, Trim, PhaseAt, Hit, HeaderOf, Items, SectionNames, Keys;
    if file.None? {
      return None;
    }
    var text, header := file.value, if section.Some? then HeaderOf(section.value) else "";
    ghost var lines := Lines(text);
    ghost var items, i := Items(lines), 0;
    StateAtStart(items, header, "");
    assert text[0..] == text && lines[0..] == lines;
    var out := [];
    var pos, inSection := 0, false;
    ListingStart(items, header);
    while pos < |text|
      invariant pos <= |text| && i <= |lines| && Lines(text[pos..]) == lines[i..]
      invariant section.None? ==> out == SectionNames(items, i)
      invariant section.Some? ==> out == Keys(items, header, i)
      invariant section.Some? ==> PhaseAt(items, header, i) == (if inSection then In else Before)
      decreases |text| - pos
    {
      NextLine(text, pos, lines, i);
      var line := Fgets(text, pos);
      pos := pos + |line|;
      i := i + 1;
      var trimmed := TrimInPlace(line);
      ItemAt(lines, i - 1);
      ClassifyCases(line, items[i - 1]);
      StateStep(items, header, "", i - 1);
      ListingStep(items, header, i - 1);
      if trimmed == "" || trimmed[0] == '#' || trimmed[0] == ';' {
        continue;
      }
      if trimmed[0] == '[' {
        var bracket := IndexOf(trimmed, ']');
        BracketIsClosed(trimmed);
        var name := trimmed;
        if bracket < |trimmed| {
          if section.None? {
            out := out + [trimmed[1..bracket]];
            continue;
          }
          name := trimmed[..bracket + 1];
        }
        if section.Some? {
          if name == header {
            inSection := true;
          } else if inSection {
            KeysFrozen(items, header, i, |items|);
            assert out == Keys(items, header, i);
            return Some(out);
          }
        }
        continue;
      }
      if section.Some? && inSection {
        var eq := IndexOf(trimmed, '=');
        if eq < |trimmed| {
          var foundKey := TrimInPlace(trimmed[..eq]);
          out := out + [foundKey];
        }
      }
    }
    LinesOfNothing(text, pos, lines, i);
    return Some(out);
  }

  lemma HeaderTextShape(line: string)
    requires Classify(line).Header?
    ensures var text := Classify(line).text;
            Closed(text) ==> text == "[" + text[1..|text| - 1] + "]"
  {
    var t := Trim(line);
    assert t[0] == '[';
    hide Trim;
    BracketIsClosed(t);
  }

  lemma BracketedName(name: string)
    requires |name| + 2 < MISC_LENGTH
    ensures var h := HeaderOf(name);
            h == "[" + name + "]" && Closed(h) && h[1..|h| - 1] == name
  {}

  /** `ls` lists a section name exactly when `set` and `del` find that section. */
  lemma {:induction false} NamesAreHeaders(lines: seq<string>, section: string, i: nat)
    requires i <= |lines| && |section| + 2 < MISC_LENGTH
    ensures section in SectionNames(Items(lines), i) <==> LastHeader(Items(lines), HeaderOf(section), i).Some?
  {
    hide Classify, Items, HeaderOf, Closed;
    if 0 < i {
      NamesAreHeaders(lines, section, i - 1);
      BracketedName(section);
      ItemAt(lines, i - 1);
      if Classify(lines[i - 1]).Header? {
        HeaderTextShape(lines[i - 1]);
      }
    }
  }

  lemma ListingStart(items: seq<Item>, h: string)
    ensures SectionNames(items, 0) == [] && Keys(items, h, 0) == []
  {}

  lemma BracketIsClosed(t: string)
    requires t != "" && t[0] == '['
    ensures var b := IndexOf(t, ']');
            && Closed(CutAfterBracket(t)) == (b < |t|)
            && (b < |t| ==> 1 <= b && CutAfterBracket(t)[1..|CutAfterBracket(t)| - 1] == t[1..b])
  {
    var b := IndexOf(t, ']');
    if b == |t| && 1 < |t| {
      assert t[..b][|t| - 1] != ']';
    }
  }

  /** Reads the lines of a file, as many as the table holds. */
  method ReadLines(text: string, lines: array<string>) returns (count: nat)
    requires lines.Length == MAX_LINES
    modifies lines
    ensures count <= MAX_LINES && lines[..count] == Take(Lines(text), MAX_LINES)
  {
    hide Lines, LineLength;
    ghost var all := Lines(text);
    assert text[0..] == text && all[0..] == all;
    count := 0;
    var pos := 0;
    while pos < |text| && count < MAX_LINES
      invariant pos <= |text| && count <= |all| && count <= MAX_LINES
      invariant Lines(text[pos..]) == all[count..] && lines[..count] == all[..count]
      decreases |text| - pos
    {
      NextLine(text, pos, all, count);
      var line := Fgets(text, pos);
      lines[count] := line;
      assert lines[..count + 1] == all[..count] + [line];
      count := count + 1;
      pos := pos + |line|;
    }
    if pos == |text| {
      LinesOfNothing(text, pos, all, count);
    }
  }

  /** Writes all lines. */
  method WriteLines(lines: array<string>, count: nat) returns (text: string)
    requires count <= lines.Length
    ensures text == Concat(lines[..count])
  {
    text := "";
    for i := 0 to count
      invariant text == Concat(lines[..i])
    {
      ConcatSnoc(lines[..i], lines[i]);
      assert lines[..i] + [lines[i]] == lines[..i + 1];
      text := text + lines[i];
    }
  }

  /** What the scan of `set` and `del` knows after `i` lines: the last header `h`, where its section
      ends, and whether line `i` is still inside. */
  ghost predicate Scanned(items: seq<Item>, h: string, i: nat, found: bool, start: int, end: int)
    requires i <= |items|
  {
    && (found <==> LastHeader(items, h, i).Some?)
    && (found ==> LastHeader(items, h, i) == Some(start) && 0 <= start < i)
    && (found ==> start < end && (end < i || end == |items|))
    && (found ==> forall j :: start < j < (if end < i then end else i) ==> !items[j].Header?)
    && (found && end < i ==> items[end].Header?)
    && (Owner(items, i) == Some(h) <==> found && i <= end)
  }

  lemma ScanStart(items: seq<Item>, h: string)
    ensures Scanned(items, h, 0, false, -1, -1)
  {}

  lemma ScanItem(items: seq<Item>, h: string, i: nat, found: bool, start: int, end: int)
    requires i < |items| && Scanned(items, h, i, found, start, end)
    ensures items[i] == Header(h) ==> Scanned(items, h, i + 1, true, i, |items|)
    ensures items[i].Header? && items[i] != Header(h) ==>
              Scanned(items, h, i + 1, found, start, if found && end == |items| then i else end)
    ensures !items[i].Header? ==> Scanned(items, h, i + 1, found, start, end)
  {}

  lemma ScanEnd(items: seq<Item>, h: string, found: bool, start: int, end: int)
    requires Scanned(items, h, |items|, found, start, end)
    ensures found <==> LastHeader(items, h, |items|).Some?
    ensures found ==> LastHeader(items, h, |items|) == Some(start) && end == NextHeader(items, start + 1)
  {
    if found {
      NextHeaderUnique(items, start + 1, end);
    }
  }

  lemma {:induction false} NextHeaderUnique(items: seq<Item>, i: nat, e: nat)
    requires i <= e <= |items| && (e < |items| ==> items[e].Header?) && forall j :: i <= j < e ==> !items[j].Header?
    ensures NextHeader(items, i) == e
    decreases e - i
  {
    if i < e {
      NextHeaderUnique(items, i + 1, e);
    }
  }

  /** The line of the key after `i` lines, or -1: the first one for `set`, the last one for `del`. */
  ghost predicate KeyScanned(items: seq<Item>, h: string, key: string, i: nat, firstOnly: bool, keyLine: int)
    requires i <= |items|
  {
    var line := if firstOnly then FirstKey(items, h, key, i) else LastKey(items, h, key, i);
    if keyLine < 0 then keyLine == -1 && line.None? else line == Some(keyLine)
  }

  lemma KeyStart(items: seq<Item>, h: string, key: string, firstOnly: bool)
    ensures KeyScanned(items, h, key, 0, firstOnly, -1)
  {}

  lemma KeyItem(items: seq<Item>, h: string, key: string, i: nat, firstOnly: bool, keyLine: int)
    requires i < |items| && KeyScanned(items, h, key, i, firstOnly, keyLine)
    ensures KeyScanned(items, h, key, i + 1, firstOnly,
                       if KeyAt(items, h, key, i) && !(firstOnly && keyLine >= 0) then i else keyLine)
  {}

  lemma InSection(items: seq<Item>, h: string, i: nat, found: bool, start: int, end: int)
    requires i < |items| && Scanned(items, h, i, found, start, end)
    ensures Owner(items, i) == Some(h) <==> found && i > start && (end == |items| || i < end)
  {}

  /** The scanning loops of `set` (`firstOnly`) and `del`: find the section and the line of the key. */
  method ScanSection(lines: array<string>, count: nat, header: string, key: Option<string>, firstOnly: bool)
      returns (found: bool, start: int, end: int, keyLine: int)
    requires count <= lines.Length
    ensures var items := Items(lines[..count]);
            && (found <==> LastHeader(items, header, count).Some?)
            && (found ==> LastHeader(items, header, count) == Some(start) && end == NextHeader(items, start + 1))
            && (key.None? ==> keyLine == -1)
            && (key.Some? ==>
                KeyScanned(items, header, key.value, count, firstOnly, keyLine))
  {
    hide Classify, Trim, LastHeader, Owner, Scanned, Items, KeyScanned, NextHeader;
    ghost var items := Items(lines[..count]);
    found, start, end, keyLine := false, -1, -1, -1;
    ScanStart(items, header);
    KeyStart(items, header, if key.Some? then key.value else "", firstOnly);
    for i := 0 to count
      invariant Scanned(items, header, i, found, start, end)
      invariant key.None? ==> keyLine == -1
      invariant key.Some? ==> KeyScanned(items, header, key.value, i, firstOnly, keyLine)
    {
      var trimmed := TrimInPlace(lines[i]);
      ItemAt(lines[..count], i);
      ClassifyCases(lines[i], items[i]);
      ScanItem(items, header, i, found, start, end);
      InSection(items, header, i, found, start, end);
      if key.Some? {
        KeyItem(items, header, key.value, i, firstOnly, keyLine);
      }
      if trimmed == "" || trimmed[0] == '#' || trimmed[0] == ';' {
        continue;
      }
      if trimmed[0] == '[' {
        var bracket := IndexOf(trimmed, ']');
        var name := if bracket < |trimmed| then trimmed[..bracket + 1] else trimmed;
        if name == header {
          found, start, end := true, i, count;
        } else if found && end == count {
          end := i;
        }
      }
      if found && key.Some? && !(firstOnly && keyLine >= 0) && i > start && (end == count || i < end) {
        var keyTrimmed := TrimInPlace(lines[i]);
        if keyTrimmed != "" && keyTrimmed[0] != '#' && keyTrimmed[0] != ';' && keyTrimmed[0] != '[' {
          var eq := IndexOf(keyTrimmed, '=');
          if eq < |keyTrimmed| {
            var foundKey := TrimInPlace(keyTrimmed[..eq]);
            if foundKey == key.value {
              keyLine := i;
            }
          }
        }
      }
    }
    ScanEnd(items, header, found, start, end);
  }

  /** Where a new binding goes: below the last line of the section that is not blank. */
  method FindInsertLine(lines: array<string>, count: nat, start: nat, end: nat) returns (at: nat)
    requires start < end <= count <= lines.Length
    ensures at == InsertAt(Items(lines[..count]), start, end)
  {
    hide Classify, Trim, Items;
    ghost var items := Items(lines[..count]);
    at := end;
    var i := end - 1;
    while i > start
      invariant start <= i < end && at == end
      invariant forall j :: i < j < end ==> items[j] == Blank
    {
      var trimmed := TrimInPlace(lines[i]);
      ItemAt(lines[..count], i);
      ClassifyCases(lines[i], items[i]);
      if trimmed != "" {
        at := i + 1;
        break;
      }
      i := i - 1;
    }
    if i > start {
      LastContentUnique(items, start, end, i);
    }
  }

  lemma LastContentUnique(items: seq<Item>, start: nat, e: nat, i: nat)
    requires start < i < e <= |items| && items[i] != Blank && forall j :: i < j < e ==> items[j] == Blank
    ensures InsertAt(items, start, e) == i + 1
  {
    var last := LastContent(items, start, e);
  }

  function Inserted(lines: seq<string>, at: nat, line: string): seq<string>
    requires at <= |lines|
  {
    lines[..at] + [line] + lines[at..]
  }

  lemma InsertedAt(lines: seq<string>, at: nat, line: string, all: seq<string>)
    requires at <= |lines| && |all| == |lines| + 1 && all[at] == line
    requires forall k :: 0 <= k < at ==> all[k] == lines[k]
    requires forall k :: at < k < |all| ==> all[k] == lines[k - 1]
    ensures all == Inserted(lines, at, line)
  {}

  /** Shifts the lines from `at` on down by one and puts `line` there. */
  method InsertLine(lines: array<string>, count: nat, at: nat, line: string)
    requires at <= count < lines.Length
    modifies lines
    ensures lines[..count + 1] == Inserted(old(lines[..count]), at, line)
  {
    ghost var was := lines[..count];
    var i := count;
    while i > at
      invariant at <= i <= count
      invariant forall k :: 0 <= k < i ==> lines[k] == was[k]
      invariant forall k :: i < k <= count ==> lines[k] == was[k - 1]
    {
      lines[i] := lines[i - 1];
      i := i - 1;
    }
    lines[at] := line;
    InsertedAt(was, at, line, lines[..count + 1]);
  }

  /** What a command leaves in the file; None is the failure exit, which leaves the file alone. */
  function SetFile(file: Option<string>, section: string, key: string, value: string): Option<string>
  {
    var lines := if file.None? then [] else Take(Lines(file.value), MAX_LINES);
    var after := SetLines(lines, section, key, value);
    if after.None? then None else Some(Concat(after.value))
  }

  lemma PartsOfInsert(lines: seq<string>, section: string, key: string, a: nat)
    requires FirstAt(lines, section, key).None?
    requires SectionAt(lines, section) == Some(a)
    ensures var at := InsertAt(Items(lines), a, NextHeader(Items(lines), a + 1));
            && at <= |lines| && Above(lines, section, key) == lines[..at] && Below(lines, section, key) == lines[at..]
    ensures HasRoom(lines, section, key) <==> |lines| < MAX_LINES
  {
    hide FirstKey, LastHeader, KeyAt, HeaderOf, Items, InsertAt, NextHeader, Classify;
  }

  lemma SetInserts(lines: seq<string>, section: string, key: string, value: string, a: nat, at: nat)
    requires FirstAt(lines, section, key).None?
    requires SectionAt(lines, section) == Some(a)
    requires at == InsertAt(Items(lines), a, NextHeader(Items(lines), a + 1))
    ensures at <= |lines|
    ensures SetLines(lines, section, key, value) ==
            if |lines| >= MAX_LINES then None else Some(Inserted(lines, at, KeyLine(key, value)))
  {
    hide KeyLine, FirstKey, LastHeader, KeyAt, HeaderOf, Items, InsertAt, NextHeader, Classify, Above, Below, HasRoom;
    PartsOfInsert(lines, section, key, a);
  }

  lemma SetAppends(lines: seq<string>, section: string, key: string, value: string)
    requires FirstAt(lines, section, key).None?
    requires SectionAt(lines, section).None?
    ensures SetLines(lines, section, key, value) ==
            if |lines| + 3 >= MAX_LINES then None
            else Some(lines + (if |lines| > 0 then ["\n"] else []) + [HeaderLine(section), KeyLine(key, value)])
  {
    hide KeyLine, HeaderLine, FirstKey, LastHeader, KeyAt, HeaderOf, Items, Classify;
    if |lines| + 3 < MAX_LINES {
      var head := lines + (if |lines| > 0 then ["\n"] else []);
      assert head + [HeaderLine(section), KeyLine(key, value)] == head + [HeaderLine(section)] + [KeyLine(key, value)] + [];
    }
  }

  /** What the scan of `set` found decides where it writes. */
  lemma SetOutcome(lines: seq<string>, section: string, key: string, value: string, found: bool, start: int, end: int,
                   keyLine: int)
    requires found <==> SectionAt(lines, section).Some?
    requires found ==> SectionAt(lines, section) == Some(start)
    requires found ==> end == NextHeader(Items(lines), start + 1)
    requires KeyScanned(Items(lines), HeaderOf(section), key, |lines|, true, keyLine)
    ensures keyLine >= 0 ==> keyLine < |lines|
    ensures found ==> 0 <= start < end <= |lines|
    ensures SetLines(lines, section, key, value) ==
            if keyLine >= 0 then Some(lines[keyLine := KeyLine(key, value)])
            else if found then
              if |lines| >= MAX_LINES then None
              else Some(Inserted(lines, InsertAt(Items(lines), start, end), KeyLine(key, value)))
            else if |lines| + 3 >= MAX_LINES then None
            else Some(lines + (if |lines| > 0 then ["\n"] else []) + [HeaderLine(section), KeyLine(key, value)])
  {
    hide KeyLine, HeaderLine, FirstKey, LastHeader, LastKey, KeyAt, HeaderOf, Items, InsertAt, NextHeader, SetLines;
    hide Inserted, Classify;
    if keyLine >= 0 {
      SetAtFirst(lines, section, key, value, keyLine);
    } else if found {
      SetInserts(lines, section, key, value, start, InsertAt(Items(lines), start, end));
    } else {
      SetAppends(lines, section, key, value);
    }
  }

  /** Adds a blank line after other text, the header and the binding. */
  method AppendSection(lines: array<string>, count: nat, header: string, line: string) returns (total: nat)
    requires count + 3 < lines.Length
    modifies lines
    ensures total <= lines.Length
    ensures lines[..total] == old(lines[..count]) + (if count > 0 then ["\n"] else []) + [header, line]
  {
    total := count;
    if total > 0 {
      lines[total] := "\n";
      total := total + 1;
    }
    lines[total] := header;
    total := total + 1;
    lines[total] := line;
    total := total + 1;
  }

  /** `config set`: a file that cannot be opened counts as empty. */
  method ConfigSet(file: Option<string>, section: string, key: string, value: string) returns (r: Option<string>)
    ensures r == SetFile(file, section, key, value)
  {
    hide Lines, Items, FirstKey, LastHeader, LastKey, NextHeader, InsertAt, HeaderOf, KeyLine, HeaderLine, KeyAt;
    hide KeyScanned, SetLines, Inserted, Concat, Take, Classify;
    var lines := new string[MAX_LINES];
    var count := 0;
    if file.Some? {
      count := ReadLines(file.value, lines);
    }
    ghost var before := lines[..count];
    assert before == if file.None? then [] else Take(Lines(file.value), MAX_LINES);
    var found, start, end, keyLine := ScanSection(lines, count, HeaderOf(section), Some(key), true);
    SetOutcome(before, section, key, value, found, start, end, keyLine);
    if keyLine >= 0 {
      lines[keyLine] := KeyLine(key, value);
    } else if found {
      if count >= MAX_LINES {
        return None;
      }
      var at := FindInsertLine(lines, count, start, end);
      InsertLine(lines, count, at, KeyLine(key, value));
      count := count + 1;
    } else {
      if count + 3 >= MAX_LINES {
        return None;
      }
      count := AppendSection(lines, count, HeaderLine(section), KeyLine(key, value));
    }
    assert SetLines(before, section, key, value) == Some(lines[..count]);
    var text := WriteLines(lines, count);
    return Some(text);
  }

  function DelFile(file: Option<string>, section: string, key: Option<string>): Option<string>
  {
    if file.None? then None
    else
      var lines := Take(Lines(file.value), MAX_LINES);
      var after := DelLines(lines, section, key);
      if after.None? then None else Some(Concat(after.value))
  }

  function DelLines(lines: seq<string>, section: string, key: Option<string>): Option<seq<string>>
  {
    if key.Some? then DelKeyLines(lines, section, key.value) else DelSectionLines(lines, section)
  }

  lemma NoHeaderNoLastKey(items: seq<Item>, h: string, key: string)
    requires LastHeader(items, h, |items|).None?
    ensures LastKey(items, h, key, |items|).None?
  {
    hide KeyAt, LastKey, LastHeader;
    NoHeaderNoKey(items, h, key);
  }

  lemma ScannedLast(items: seq<Item>, h: string, key: string, keyLine: int)
    requires KeyScanned(items, h, key, |items|, false, keyLine)
    ensures LastKey(items, h, key, |items|) == if keyLine == -1 then None else Some(keyLine)
  {
    hide LastKey, KeyAt;
  }

  lemma DelKeyOutcome(lines: seq<string>, section: string, key: string, keyLine: int)
    requires LastAt(lines, section, key) == if keyLine == -1 then None else Some(keyLine)
    ensures keyLine != -1 ==> 0 <= keyLine < |lines|
    ensures DelKeyLines(lines, section, key) == if keyLine == -1 then None else Some(Without(lines, keyLine, keyLine + 1))
  {
    hide LastKey, KeyAt, HeaderOf, Items, Without, Classify;
  }

  /** What the scan of `del` found decides what is deleted. */
  lemma DelOutcome(lines: seq<string>, section: string, key: Option<string>, found: bool, start: int, end: int, keyLine: int)
    requires found <==> SectionAt(lines, section).Some?
    requires found ==> SectionAt(lines, section) == Some(start)
    requires found ==> end == NextHeader(Items(lines), start + 1)
    requires key.Some? ==> KeyScanned(Items(lines), HeaderOf(section), key.value, |lines|, false, keyLine)
    ensures found ==> 0 <= start < end <= |lines|
    ensures key.Some? && keyLine != -1 ==> 0 <= keyLine < |lines|
    ensures DelLines(lines, section, key) ==
            if !found || (key.Some? && keyLine == -1) then None
            else if key.None? then Some(Without(lines, start, end))
            else Some(Without(lines, keyLine, keyLine + 1))
  {
    hide FirstKey, LastHeader, LastKey, KeyAt, HeaderOf, Items, NextHeader, Without, KeyScanned, Classify;
    if key.Some? {
      hide DelKeyLines;
      ScannedLast(Items(lines), HeaderOf(section), key.value, keyLine);
      DelKeyOutcome(lines, section, key.value, keyLine);
      if !found {
        NoHeaderNoLastKey(Items(lines), HeaderOf(section), key.value);
        DelKeyNone(lines, section, key.value);
      }
    }
  }

  lemma DelKeyNone(lines: seq<string>, section: string, key: string)
    requires LastAt(lines, section, key).None?
    ensures DelKeyLines(lines, section, key).None?
  {
    hide LastKey, KeyAt, HeaderOf, Items, Classify;
  }

  /** The first `i` lines without the lines `a..e`. */
  ghost function KeptUpTo(all: seq<string>, a: nat, e: nat, i: nat): seq<string>
    requires a <= e <= |all| && i <= |all|
  {
    all[..if i < a then i else a] + (if i < e then [] else all[e..i])
  }

  lemma KeptNext(all: seq<string>, a: nat, e: nat, i: nat)
    requires a <= e <= |all| && i < |all|
    ensures KeptUpTo(all, a, e, 0) == []
    ensures KeptUpTo(all, a, e, i + 1) == KeptUpTo(all, a, e, i) + if a <= i < e then [] else [all[i]]
  {}

  lemma KeptAll(all: seq<string>, a: nat, e: nat)
    requires a <= e <= |all|
    ensures KeptUpTo(all, a, e, |all|) == Without(all, a, e) && KeptUpTo(all, a, e, 0) == []
  {}

  /** Writes the lines, leaving out those of the section, or the line of the key. */
  method WriteOtherLines(lines: array<string>, count: nat, section: bool, start: int, end: int, keyLine: int)
      returns (text: string)
    requires count <= lines.Length
    requires section ==> 0 <= start <= end <= count
    requires !section ==> 0 <= keyLine < count
    ensures var a, e := if section then start else keyLine, if section then end else keyLine + 1;
            text == Concat(Without(lines[..count], a, e))
  {
    hide Concat, KeptUpTo, Without;
    ghost var all := lines[..count];
    ghost var a, e := if section then start else keyLine, if section then end else keyLine + 1;
    ghost var kept: seq<string> := [];
    text := "";
    EmptyConcat();
    KeptAll(all, a, e);
    for i := 0 to count
      invariant text == Concat(kept)
      invariant kept == KeptUpTo(all, a, e, i)
    {
      KeptNext(all, a, e, i);
      if section {
        if i >= start && i < end {
          continue;
        }
      } else if i == keyLine {
        continue;
      }
      ConcatSnoc(kept, lines[i]);
      text := text + lines[i];
      kept := kept + [lines[i]];
    }
  }

  lemma EmptyConcat()
    ensures Concat([]) == ""
  {}

  /** `config del` of a key or of a whole section. */
  method ConfigDel(file: Option<string>, section: string, key: Option<string>) returns (r: Option<string>)
    ensures r == DelFile(file, section, key)
  {
    hide Lines, Items, FirstKey, LastHeader, LastKey, NextHeader, HeaderOf, KeyAt, KeyScanned, Without, Concat, Take;
    hide DelLines, Classify;
    if file.None? {
      return None;
    }
    var lines := new string[MAX_LINES];
    var count := ReadLines(file.value, lines);
    ghost var before := lines[..count];
    var found, start, end, keyLine := ScanSection(lines, count, HeaderOf(section), key, false);
    DelOutcome(before, section, key, found, start, end, keyLine);
    if !found {
      return None;
    }
    if key.Some? && keyLine == -1 {
      return None;
    }
    var text := WriteOtherLines(lines, count, key.None?, start, end, keyLine);
    return Some(text);
  }
}
