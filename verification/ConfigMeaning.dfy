/** The editor (src/config.c) in literal characters, lengths and line numbers: how one line is read, which
    lines a file has, which line each command writes or removes, and what is printed. */
module ConfigMeaning {
  import opened Text
  import opened ConfigScan
  import opened ConfigEdit
  import opened ConfigLines
  import opened ConfigLaws
  import opened ConfigFile
  import opened ConfigText

  // ----- one line -----

  predicate KeyText(key: string)
  {
    Solid(key) && '=' !in key && (key != "" ==> key[0] !in {'#', ';', '['})
  }

  /** What stands before the sign: nothing, or text that begins like a key. */
  predicate Head(head: string)
  {
    '=' !in head && (head != "" ==> head[0] !in WHITE && head[0] !in {'#', ';', '['})
  }

  /** What stands behind it, up to the end of the value. */
  predicate Tail(tail: string)
  {
    tail != "" ==> tail[|tail| - 1] !in WHITE
  }

  lemma CoreReads(pre: string, head: string, tail: string, post: string)
    requires White(pre) && White(post) && Head(head) && Tail(tail)
    ensures var v := Trim(tail);
            Classify(pre + (head + "=" + tail) + post) == Binding(Trim(head), v[..IndexOf(v, '\n')])
  {
    hide Classify, Trim, IndexOf, White;
    var core := head + "=" + tail;
    WhiteIsSpace(pre);
    WhiteIsSpace(post);
    assert Solid(core);
    WhiteIsSpace(core);
    assert core[..|head|] == head && core[|head| + 1..] == tail;
    hide Solid, Trimmed, AllSpace;
    ClassifyBinding(pre + core + post, pre, core, post, |head|);
  }

  /** The white space behind a key belongs to the text before the sign, the one before an empty key to the
      start of the line. */
  lemma HeadOf(a: string, key: string, b: string) returns (pre: string, head: string)
    requires White(a) && White(b) && KeyText(key)
    ensures a + key + b == pre + head && White(pre) && Head(head) && Trim(head) == key
  {
    hide Trim;
    if key == "" {
      pre, head := a + b, "";
      TrimMeaning("", "", "");
      assert "" + "" + "" == "";
    } else {
      pre, head := a, key + b;
      TrimMeaning("", key, b);
      assert "" + key + b == head;
    }
  }

  lemma TailOf(c: string, value: string, d: string) returns (tail: string, post: string)
    requires White(c) && White(d) && Solid(value)
    ensures c + value + d == tail + post && White(post) && Tail(tail) && Trim(tail) == value
  {
    hide Trim;
    if value == "" {
      tail, post := "", c + d;
      TrimMeaning("", "", "");
      assert "" + "" + "" == "";
    } else {
      tail, post := c + value, d;
      TrimMeaning(c, value, "");
      assert c + value + "" == tail;
    }
  }

  /** White space around key, sign and value is no part of them. */
  lemma BindingReads(a: string, key: string, b: string, c: string, value: string, d: string)
    requires White(a) && White(b) && White(c) && White(d) && KeyText(key) && Solid(value) && '\n' !in value
    ensures Classify(a + key + b + "=" + c + value + d) == Binding(key, value)
  {
    hide Classify, Trim, IndexOf, White, KeyText, Solid, Head, Tail;
    var pre, head := HeadOf(a, key, b);
    var tail, post := TailOf(c, value, d);
    CoreReads(pre, head, tail, post);
    CutAtAbsent(value, '\n');
    assert a + key + b + "=" + c + value + d == (a + key + b) + "=" + (c + value + d);
    assert pre + (head + "=" + tail) + post == (pre + head) + "=" + (tail + post);
  }

  /** A line of white space is blank, and only such a line is. */
  lemma BlankReads(line: string)
    ensures Classify(line) == Blank <==> White(line)
  {
    WhiteIsSpace(line);
    if White(line) {
      TrimMeaning(line, "", "");
      assert line + "" + "" == line;
    } else if Trim(line) == "" {
      AllSpaceValue(line);
      assert forall i :: 0 <= i < |line| ==> line[i] == (" " + line + "\n")[i + 1];
    }
  }

  /** The first other character decides what the rest of the line is. */
  lemma MarkReads(a: string, core: string, b: string)
    requires White(a) && core != "" && Solid(core) && White(b)
    ensures Classify(a + core + b) == Comment <==> core[0] in {'#', ';'}
    ensures Classify(a + core + b).Header? <==> core[0] == '['
    ensures Classify(a + core + b) == Junk <==> core[0] !in {'#', ';', '['} && '=' !in core
  {
    TrimMeaning(a, core, b);
    IsAbsent(core, '=');
    hide Trim, IndexOf;
  }

  lemma IsAbsent(s: string, c: char)
    ensures IndexOf(s, c) == |s| <==> c !in s
  {
    var i := IndexOf(s, c);
    assert i == |s| ==> s[..i] == s;
  }

  /** A header is read up to its first bracket. */
  lemma HeaderReads(a: string, name: string, rest: string)
    requires White(a) && ']' !in name
    ensures Classify(a + "[" + name + "]" + rest) == Header("[" + name + "]")
  {
    hide Trim, IsSpace;
    var line := a + "[" + name + "]" + rest;
    var t, b := BracketCore(a, "[" + name + "]", rest);
    assert line == a + t + b;
    TrimMeaning(a, t, b);
    IndexOfUnique(t, ']', |name| + 1);
    assert t[..|name| + 2] == "[" + name + "]";
  }

  /** A header with the text behind it, without the white space that ends the line. */
  lemma BracketCore(a: string, h: string, rest: string) returns (t: string, b: string)
    requires White(a) && Solid(h) && h != ""
    ensures a + h + rest == a + t + b && White(b) && Solid(t) && h <= t
  {
    hide TrimRight, White, AllSpace;
    TrimRightShape(rest);
    var r := TrimRight(rest);
    b := rest[|r|..];
    assert AllSpace(b) by { EndIsSpace(rest, |r|); }
    WhiteIsSpace(b);
    assert rest == r + b;
    t := h + r;
    WhiteIsSpace(h);
    WhiteIsSpace(t);
  }

  lemma EndIsSpace(s: string, n: nat)
    requires n <= |s| && forall i :: n <= i < |s| ==> IsSpace(s[i])
    ensures AllSpace(s[n..])
  {}

  // ----- the lines of a file -----

  /** A newline stands at the end of a line only, a line has at most 4095 characters, and one that has
      fewer ends with its newline, unless it is the last. */
  predicate AreLines(lines: seq<string>)
  {
    forall i :: 0 <= i < |lines| ==>
      && 0 < |lines[i]| <= 4095
      && (forall j :: 0 <= j < |lines[i]| - 1 ==> lines[i][j] != '\n')
      && (i < |lines| - 1 ==> lines[i][|lines[i]| - 1] == '\n' || |lines[i]| == 4095)
  }

  lemma AreLinesLoose(lines: seq<string>)
    ensures AreLines(lines) <==> Loose(lines)
  {
    forall i | 0 <= i < |lines|
      ensures '\n' in lines[i] <==> exists j :: 0 <= j < |lines[i]| && lines[i][j] == '\n'
      ensures |lines[i]| > 0 ==>
                ('\n' !in lines[i][..|lines[i]| - 1] <==> forall j :: 0 <= j < |lines[i]| - 1 ==> lines[i][j] != '\n')
    {
      if |lines[i]| > 0 {
        var front := lines[i][..|lines[i]| - 1];
        assert forall j :: 0 <= j < |front| ==> front[j] == lines[i][j];
      }
    }
  }

  /** The lines of a file are the one way to cut it up like that. */
  lemma LinesMeaning(text: string, lines: seq<string>)
    ensures Lines(text) == lines <==> Concat(lines) == text && AreLines(lines)
  {
    AreLinesLoose(lines);
    hide AreLines, Loose, Lines, Concat;
    if Lines(text) == lines {
      ConcatOfLines(text);
      LinesAreLoose(text);
    } else if Concat(lines) == text && AreLines(lines) {
      LooseReads(lines);
    }
  }

  // ----- what is written -----

  predicate ShortName(section: string)
  {
    |section| <= 125
  }

  predicate ShortBinding(key: string, value: string)
  {
    |key| + |value| + 4 <= 4095
  }

  /** A name of at most 125 characters is not cut, and neither is a binding of at most 4095; longer ones are. */
  lemma WrittenTexts(section: string, key: string, value: string)
    ensures ShortName(section) ==>
              HeaderOf(section) == "[" + section + "]" && HeaderLine(section) == "[" + section + "]\n"
    ensures !ShortName(section) ==> HeaderOf(section) == ("[" + section)[..127]
    ensures ShortBinding(key, value) ==> KeyLine(key, value) == key + " = " + value + "\n"
    ensures !ShortBinding(key, value) ==> KeyLine(key, value) == (key + " = " + value + "\n")[..4095]
  {}

  // ----- one binding in a file -----

  /** White space within a line. */
  predicate Gap(s: string)
  {
    White(s) && '\n' !in s
  }

  lemma LineIsWhole(line: string)
    requires |line| < 4095 && '\n' !in line
    ensures Whole(line + "\n")
  {
    assert (line + "\n")[..|line|] == line;
  }

  /** Two lines and the rest of a text. */
  lemma TwoInFront(first: string, second: string, rest: string)
    requires |first| < 4095 && '\n' !in first && |second| < 4095 && '\n' !in second
    ensures Lines(first + "\n" + second + "\n" + rest) == [first + "\n", second + "\n"] + Lines(rest)
  {
    hide Lines, Whole;
    LineIsWhole(first);
    LineIsWhole(second);
    LinesCons(second + "\n", rest);
    LinesCons(first + "\n", second + "\n" + rest);
    assert first + "\n" + second + "\n" + rest == (first + "\n") + (second + "\n" + rest);
  }

  /** What the scanners find in lines that begin with a header and a binding. */
  lemma FirstBinding(items: seq<Item>, h: string, key: string, value: string)
    requires 2 <= |items| && items[0] == Header(h) && items[1] == Binding(key, value)
    ensures Get(items, h, key) == Some(value)
    ensures FirstKey(items, h, key, |items|) == Some(1)
    ensures |items| == 2 ==> LastKey(items, h, key, |items|) == Some(1)
  {
    assert PhaseAt(items, h, 0) == Before && Hit(items, h, key, 0) == None;
    assert PhaseAt(items, h, 1) == In && Hit(items, h, key, 1) == None;
    KeyInRun(items, h, key, 1);
    assert KeyAt(items, h, key, 1) && !KeyAt(items, h, key, 0);
    hide KeyAt, FirstKey, LastKey;
    var first, last := FirstKey(items, h, key, |items|), LastKey(items, h, key, |items|);
  }

  /** The lines of a text that begins with a header and a binding. */
  lemma FrontLines(section: string, binding: string, rest: string, lines: seq<string>, key: string, value: string)
    requires ShortName(section) && ']' !in section && '\n' !in section
    requires |binding| < 4095 && '\n' !in binding && Classify(binding + "\n") == Binding(key, value)
    requires lines == ["[" + section + "]\n", binding + "\n"] + Lines(rest)
    ensures Lines("[" + section + "]\n" + binding + "\n" + rest) == lines
    ensures Lookup(lines, section, key) == Some(value) && FirstAt(lines, section, key) == Some(1)
    ensures |lines| == 2 ==> LastAt(lines, section, key) == Some(1)
  {
    hide Lines, Classify, Items, HeaderOf, Get, FirstKey, LastKey;
    TwoInFront("[" + section + "]", binding, rest);
    assert "[" + section + "]" + "\n" == "[" + section + "]\n";
    assert White("");
    HeaderReads("", section, "\n");
    assert "" + "[" + section + "]" + "\n" == "[" + section + "]\n";
    WrittenTexts(section, "", "");
    ItemAt(lines, 0);
    ItemAt(lines, 1);
    FirstBinding(Items(lines), HeaderOf(section), key, value);
  }

  /** However a binding is spaced: `get` prints its value, and `set` and `del` find it, write its line anew and
      remove it. */
  lemma BindingInFile(section: string, a: string, key: string, b: string, c: string, value: string, d: string,
                      rest: string, value': string)
    requires ShortName(section) && ']' !in section && '\n' !in section
    requires Gap(a) && Gap(b) && Gap(c) && Gap(d) && KeyText(key) && '\n' !in key && Solid(value) && '\n' !in value
    requires |a + key + b + "=" + c + value + d| < 4095
    ensures var text := "[" + section + "]\n" + (a + key + b + "=" + c + value + d) + "\n" + rest;
            && Lookup(Lines(text), section, key) == Some(value)
            && (ShortBinding(key, value') && |Lines(rest)| <= 8190 ==>
                SetFile(Some(text), section, key, value')
                == Some("[" + section + "]\n" + (key + " = " + value' + "\n") + rest))
            && (rest == "" ==> DelFile(Some(text), section, Some(key)) == Some("[" + section + "]\n"))
  {
    hide Lines, Classify, Items, HeaderOf, Get, FirstKey, LastKey, SetLines, White, KeyText, Solid, Concat;
    var binding, header := a + key + b + "=" + c + value + d, "[" + section + "]\n";
    var text, lines := header + binding + "\n" + rest, [header, binding + "\n"] + Lines(rest);
    NewlineIsWhite(d);
    BindingReads(a, key, b, c, value, d + "\n");
    assert binding + "\n" == a + key + b + "=" + c + value + (d + "\n");
    FrontLines(section, binding, rest, lines, key, value);
    if ShortBinding(key, value') && |Lines(rest)| <= 8190 {
      SetAtFirst(lines, section, key, value', 1);
      WrittenTexts(section, key, value');
      FrontText(header, KeyLine(key, value'), rest, lines[1 := KeyLine(key, value')]);
    }
    if rest == "" {
      NoLines();
      assert Without(lines, 1, 2) == [header];
      OneConcat(header);
    }
  }

  lemma NewlineIsWhite(d: string)
    requires White(d)
    ensures White(d + "\n")
  {}

  lemma FrontText(first: string, second: string, rest: string, lines: seq<string>)
    requires lines == [first, second] + Lines(rest)
    ensures Concat(lines) == first + second + rest
  {
    hide Lines;
    assert lines[1..] == [second] + Lines(rest) && lines[1..][1..] == Lines(rest);
    ConcatOfLines(rest);
  }

  // ----- which line `set` writes and `del` removes -----

  /** Line `a` is the last header above line `i`, and it names the section. */
  predicate Heads(items: seq<Item>, section: string, a: nat, i: nat)
  {
    && a < i <= |items| && items[a] == Header("[" + section + "]")
    && forall j :: a < j < i ==> !items[j].Header?
  }

  /** Line `i` binds the key in the section. */
  predicate Binds(items: seq<Item>, section: string, key: string, i: nat)
  {
    && i < |items| && items[i].Binding? && items[i].key == key
    && exists a: nat :: a < i && Heads(items, section, a, i)
  }

  lemma {:induction false} OwnerMeaning(items: seq<Item>, section: string, i: nat)
    requires i <= |items|
    ensures Owner(items, i) == Some("[" + section + "]") <==> exists a: nat :: a < i && Heads(items, section, a, i)
  {
    var h := "[" + section + "]";
    if 0 < i {
      OwnerMeaning(items, section, i - 1);
      if items[i - 1] == Header(h) {
        assert Heads(items, section, i - 1, i);
      } else if !items[i - 1].Header? && Owner(items, i) == Some(h) {
        var a: nat :| a < i - 1 && Heads(items, section, a, i - 1);
        assert Heads(items, section, a, i);
      } else if a: nat :| a < i && Heads(items, section, a, i) {
        assert Heads(items, section, a, i - 1);
      }
    }
  }

  lemma BindsMeaning(lines: seq<string>, section: string, key: string, i: nat)
    requires ShortName(section) && i < |lines|
    ensures KeyAt(Items(lines), HeaderOf(section), key, i) <==> Binds(Items(lines), section, key, i)
  {
    WrittenTexts(section, "", "");
    hide Items, Owner, Classify, HeaderOf;
    OwnerMeaning(Items(lines), section, i);
    hide Heads;
  }

  /** None of the lines `p..q` binds the key. */
  predicate Unbound(items: seq<Item>, section: string, key: string, p: nat, q: nat)
  {
    forall i: nat :: p <= i < q ==> !Binds(items, section, key, i)
  }

  /** The binding that `set` replaces and the one that `del` removes. */
  lemma WhichBinding(lines: seq<string>, section: string, key: string, i: nat)
    requires ShortName(section) && i < |lines| && Binds(Items(lines), section, key, i)
    ensures Unbound(Items(lines), section, key, 0, i) ==> FirstAt(lines, section, key) == Some(i)
    ensures Unbound(Items(lines), section, key, i + 1, |lines|) ==> LastAt(lines, section, key) == Some(i)
  {
    hide Binds, Items, KeyAt, FirstKey, LastKey, HeaderOf, Classify;
    BindsMeaning(lines, section, key, i);
    var first, last := FirstAt(lines, section, key), LastAt(lines, section, key);
    BindsMeaning(lines, section, key, first.value);
    BindsMeaning(lines, section, key, last.value);
  }

  lemma UnboundMeaning(lines: seq<string>, section: string, key: string)
    requires ShortName(section) && Unbound(Items(lines), section, key, 0, |lines|)
    ensures FirstAt(lines, section, key).None? && LastAt(lines, section, key).None?
  {
    hide Binds, Items, KeyAt, FirstKey, LastKey, HeaderOf, Classify;
    forall i: nat | i < |lines|
      ensures !KeyAt(Items(lines), HeaderOf(section), key, i)
    {
      BindsMeaning(lines, section, key, i);
    }
  }

  /** The lines `a..e` are the last piece of the section. */
  predicate LastPieceOf(items: seq<Item>, section: string, a: nat, e: nat)
  {
    && Heads(items, section, a, e) && (e < |items| ==> items[e].Header?)
    && forall i :: e <= i < |items| ==> items[i] != Header("[" + section + "]")
  }

  lemma PieceMeaning(lines: seq<string>, section: string, a: nat, e: nat)
    requires ShortName(section) && LastPieceOf(Items(lines), section, a, e)
    ensures SectionAt(lines, section) == Some(a) && NextHeader(Items(lines), a + 1) == e && e <= |lines|
  {
    WrittenTexts(section, "", "");
    hide Items, LastHeader, NextHeader, HeaderOf, Classify;
    PieceOfItems(Items(lines), section, a, e);
  }

  lemma PieceOfItems(items: seq<Item>, section: string, a: nat, e: nat)
    requires LastPieceOf(items, section, a, e)
    ensures a < e <= |items|
    ensures LastHeader(items, "[" + section + "]", |items|) == Some(a) && NextHeader(items, a + 1) == e
  {
    hide LastHeader, NextHeader;
    NextHeaderUnique(items, a + 1, e);
    var last := LastHeader(items, "[" + section + "]", |items|);
  }

  predicate Unnamed(lines: seq<string>, section: string)
  {
    forall i: nat :: i < |lines| ==> Items(lines)[i] != Header("[" + section + "]")
  }

  lemma UnnamedMeaning(lines: seq<string>, section: string)
    requires ShortName(section) && Unnamed(lines, section)
    ensures SectionAt(lines, section).None?
    ensures forall key :: Unbound(Items(lines), section, key, 0, |lines|)
  {
    WrittenTexts(section, "", "");
    hide Items, LastHeader, HeaderOf, Classify;
    var last := SectionAt(lines, section);
  }

  /** A bound key: the first line that binds it is written anew, whatever the number of lines. */
  lemma SetReplaces(lines: seq<string>, section: string, key: string, value: string, i: nat)
    requires ShortName(section) && ShortBinding(key, value) && Binds(Items(lines), section, key, i)
    requires Unbound(Items(lines), section, key, 0, i)
    ensures i < |lines|
    ensures SetLines(lines, section, key, value) == Some(lines[..i] + [key + " = " + value + "\n"] + lines[i + 1..])
  {
    hide Binds, Unbound, Items, SetLines, FirstKey, HeaderOf, KeyLine, KeyAt, Classify;
    BindsInside(Items(lines), section, key, i);
    WhichBinding(lines, section, key, i);
    SetAtFirst(lines, section, key, value, i);
    WrittenTexts(section, key, value);
    Replaced(lines, i, key + " = " + value + "\n");
  }

  lemma Replaced(lines: seq<string>, i: nat, line: string)
    requires i < |lines|
    ensures lines[i := line] == lines[..i] + [line] + lines[i + 1..]
  {}

  lemma BindsInside(items: seq<Item>, section: string, key: string, i: nat)
    requires Binds(items, section, key, i)
    ensures i < |items|
  {}

  /** Lines `p..e` are blank, and line `p - 1` is not, unless it is the header: then all of the piece is blank
      and `p` is its end. */
  predicate BehindContent(items: seq<Item>, a: nat, e: nat, p: nat)
    requires a < e <= |items|
  {
    && a < p <= e
    && (forall j :: p <= j < e ==> items[j] == Blank)
    && (if p - 1 > a && items[p - 1] != Blank then true else p == e && forall j :: a < j < e ==> items[j] == Blank)
  }

  /** A new key of a section: its line is inserted in the last piece, behind the last line that is not blank, and
      at the end of a piece of blank lines; in 8192 lines there is no room. */
  lemma SetInsertsBehind(lines: seq<string>, section: string, key: string, value: string, a: nat, e: nat, p: nat)
    requires ShortName(section) && ShortBinding(key, value) && Unbound(Items(lines), section, key, 0, |lines|)
    requires LastPieceOf(Items(lines), section, a, e) && BehindContent(Items(lines), a, e, p)
    ensures p <= |lines|
    ensures SetLines(lines, section, key, value) ==
            if |lines| >= 8192 then None
            else Some(lines[..p] + [key + " = " + value + "\n"] + lines[p..])
  {
    hide Unbound, Items, SetLines, FirstKey, LastHeader, NextHeader, HeaderOf, KeyLine, Classify;
    UnboundMeaning(lines, section, key);
    PieceMeaning(lines, section, a, e);
    hide LastPieceOf;
    InsertMeaning(Items(lines), a, e, p);
    hide InsertAt, BehindContent;
    SetInserts(lines, section, key, value, a, p);
    WrittenTexts(section, key, value);
  }

  lemma InsertMeaning(items: seq<Item>, a: nat, e: nat, p: nat)
    requires a < e <= |items| && BehindContent(items, a, e, p)
    ensures InsertAt(items, a, e) == p
  {
    if p - 1 > a && items[p - 1] != Blank {
      LastContentUnique(items, a, e, p - 1);
    }
  }

  /** A new section: an empty line behind other text, the header and the binding are added at the end; 8189 lines
      are too many. */
  lemma SetAddsSection(lines: seq<string>, section: string, key: string, value: string)
    requires ShortName(section) && ShortBinding(key, value) && Unnamed(lines, section)
    ensures SetLines(lines, section, key, value) ==
            if |lines| >= 8189 then None
            else Some(lines + (if lines == [] then [] else ["\n"])
                      + ["[" + section + "]\n", key + " = " + value + "\n"])
  {
    hide Unbound, Unnamed, Items, SetLines, FirstKey, LastHeader, HeaderOf, KeyLine, HeaderLine, Classify;
    UnnamedMeaning(lines, section);
    UnboundMeaning(lines, section, key);
    SetAppends(lines, section, key, value);
    WrittenTexts(section, key, value);
  }

  /** `del` of a key removes the last line that binds it and no other; without one it fails. */
  lemma DelRemoves(lines: seq<string>, section: string, key: string, i: nat)
    requires ShortName(section)
    ensures Unbound(Items(lines), section, key, 0, |lines|) ==> DelKeyLines(lines, section, key).None?
    ensures Binds(Items(lines), section, key, i) && Unbound(Items(lines), section, key, i + 1, |lines|) ==>
              i < |lines| && DelKeyLines(lines, section, key) == Some(lines[..i] + lines[i + 1..])
  {
    hide Binds, Unbound, Items, LastKey, KeyAt, HeaderOf, Classify;
    if Unbound(Items(lines), section, key, 0, |lines|) {
      UnboundMeaning(lines, section, key);
    }
    if Binds(Items(lines), section, key, i) {
      BindsInside(Items(lines), section, key, i);
      WhichBinding(lines, section, key, i);
    }
  }

  /** `del` of a section removes its last piece, from the header to the next header, and no other line; without a
      piece it fails. */
  lemma DelRemovesPiece(lines: seq<string>, section: string, a: nat, e: nat)
    requires ShortName(section)
    ensures Unnamed(lines, section) ==> DelSectionLines(lines, section).None?
    ensures LastPieceOf(Items(lines), section, a, e) ==>
              a < e <= |lines| && DelSectionLines(lines, section) == Some(lines[..a] + lines[e..])
  {
    hide Items, LastHeader, NextHeader, HeaderOf, Classify, Unbound;
    if Unnamed(lines, section) {
      UnnamedMeaning(lines, section);
    }
    if LastPieceOf(Items(lines), section, a, e) {
      PieceMeaning(lines, section, a, e);
    }
  }

  /** The text of a file that `set` adds a section to. */
  lemma SectionIsAppended(text: string, section: string, key: string, value: string)
    requires ShortName(section) && ShortBinding(key, value)
    requires Unnamed(Lines(text), section) && |Lines(text)| < 8189
    ensures SetFile(Some(text), section, key, value) ==
            Some(text + (if text == "" then "" else "\n") + "[" + section + "]\n" + key + " = " + value + "\n")
  {
    hide Lines, Items, SetLines, Concat, Unnamed, HeaderOf, KeyLine, HeaderLine, Classify;
    var lines, header, binding := Lines(text), "[" + section + "]\n", key + " = " + value + "\n";
    SetAddsSection(lines, section, key, value);
    EmptyConcat();
    ConcatOfLines(text);
    AppendedText(lines, text, header, binding);
    NoLines();
    assert lines == [] <==> text == "";
    var sep := if text == "" then "" else "\n";
    assert text + sep + header + binding == text + sep + "[" + section + "]\n" + key + " = " + value + "\n";
  }

  /** The file that `set` makes. */
  lemma FileIsMade(section: string, key: string, value: string)
    requires ShortName(section) && ShortBinding(key, value)
    ensures SetFile(None, section, key, value) == Some("[" + section + "]\n" + key + " = " + value + "\n")
  {
    hide SetLines, Concat;
    var header, binding := "[" + section + "]\n", key + " = " + value + "\n";
    OnlyLines(section, key, value);
    OnlySection(header, binding);
    assert header + binding == "[" + section + "]\n" + key + " = " + value + "\n";
  }

  lemma OnlyLines(section: string, key: string, value: string)
    requires ShortName(section) && ShortBinding(key, value)
    ensures SetLines([], section, key, value) == Some(["[" + section + "]\n", key + " = " + value + "\n"])
  {
    hide SetLines;
    var none: seq<string> := [];
    SetAddsSection(none, section, key, value);
    assert none + [] + ["[" + section + "]\n", key + " = " + value + "\n"]
        == ["[" + section + "]\n", key + " = " + value + "\n"];
  }

  lemma OnlySection(header: string, binding: string)
    ensures Concat([header, binding]) == header + binding
  {
    OneConcat(header);
    ConcatSnoc([header], binding);
    assert [header] + [binding] == [header, binding];
  }

  lemma AppendedText(lines: seq<string>, text: string, header: string, binding: string)
    requires Concat(lines) == text
    ensures Concat(lines + (if lines == [] then [] else ["\n"]) + [header, binding])
            == text + (if lines == [] then "" else "\n") + header + binding
  {
    hide Concat;
    var all := lines + (if lines == [] then [] else ["\n"]);
    if lines != [] {
      ConcatSnoc(lines, "\n");
    } else {
      assert all == lines;
    }
    ConcatSnoc(all, header);
    ConcatSnoc(all + [header], binding);
    assert all + [header] + [binding] == all + [header, binding];
  }

  // ----- what `ls` prints -----

  /** Of a section its keys are printed, in their order. */
  lemma {:induction false} KeysInOrder(items: seq<Item>, h: string, keys: seq<string>, i: nat)
    requires 0 < i <= |items| && |items| == |keys| + 1 && items[0] == Header(h)
    requires forall j :: 0 < j < |items| ==> items[j].Binding? && items[j].key == keys[j - 1]
    ensures PhaseAt(items, h, i) == In && Keys(items, h, i) == keys[..i - 1]
  {
    if i == 1 {
      assert PhaseAt(items, h, 0) == Before && Keys(items, h, 0) == [];
    } else {
      KeysInOrder(items, h, keys, i - 1);
      assert keys[..i - 1] == keys[..i - 2] + [keys[i - 2]];
    }
  }

  /** Of a file its section names are printed, in their order. */
  lemma {:induction false} NamesInOrder(items: seq<Item>, names: seq<string>, i: nat)
    requires i <= |items| && |items| == |names|
    requires forall j :: 0 <= j < |names| ==> items[j] == Header("[" + names[j] + "]")
    ensures SectionNames(items, i) == names[..i]
  {
    if 0 < i {
      NamesInOrder(items, names, i - 1);
      var text := "[" + names[i - 1] + "]";
      assert text[1..|text| - 1] == names[i - 1];
      assert names[..i] == names[..i - 1] + [names[i - 1]];
    }
  }

  /** A file of headers, and a file of one header and bindings. */
  lemma ListingMeaning(names: seq<string>, section: string, keys: seq<string>, lines: seq<string>)
    ensures |lines| == |names| && (forall j :: 0 <= j < |names| ==> Items(lines)[j] == Header("[" + names[j] + "]")) ==>
              Listing(lines, None) == names
    ensures && ShortName(section) && |lines| == |keys| + 1 && Items(lines)[0] == Header("[" + section + "]")
            && (forall j :: 0 < j < |lines| ==> Items(lines)[j].Binding? && Items(lines)[j].key == keys[j - 1]) ==>
              Listing(lines, Some(section)) == keys
  {
    WrittenTexts(section, "", "");
    hide Items, SectionNames, Keys, HeaderOf, Classify;
    if |lines| == |names| && forall j :: 0 <= j < |names| ==> Items(lines)[j] == Header("[" + names[j] + "]") {
      NamesInOrder(Items(lines), names, |lines|);
      assert names[..|lines|] == names;
    }
    if && ShortName(section) && |lines| == |keys| + 1 && Items(lines)[0] == Header("[" + section + "]")
       && forall j :: 0 < j < |lines| ==> Items(lines)[j].Binding? && Items(lines)[j].key == keys[j - 1] {
      KeysInOrder(Items(lines), HeaderOf(section), keys, |lines|);
      assert keys[..|lines| - 1] == keys;
    }
  }
}
