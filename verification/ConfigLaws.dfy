/** The laws of the editor: what `get` sees after `set` and `del`, and how the edits compose. */
module ConfigLaws {
  import opened Text
  import opened ConfigScan
  import opened ConfigEdit
  import opened ConfigLines

  /** The arguments name one binding on one line. */
  predicate Writable(section: string, key: string, value: string)
  {
    PlainKey(key) && Fits(key, value) && PlainSection(section) && |section| + 3 < MAX_LINE_LENGTH
  }

  lemma {:induction false} OwnerInBlock(items: seq<Item>, h: string, a: nat, p: nat)
    requires a < p <= |items| && items[a] == Header(h) && forall i :: a < i < p ==> !items[i].Header?
    ensures Owner(items, p) == Some(h)
  {
    if a + 1 < p {
      OwnerInBlock(items, h, a, p - 1);
    }
  }

  /** The line at which `set` writes the binding. */
  ghost function Place(lines: seq<string>, section: string, key: string): nat
  {
    |Above(lines, section, key)|
  }

  lemma Put(a: seq<string>, x: string, y: string, b: seq<string>)
    ensures (a + [x] + b)[|a| := y] == a + [y] + b
    ensures (a + [x] + b)[..|a|] + (a + [x] + b)[|a| + 1..] == a + b
  {}

  /** `set` edits line `p`, or it appends a section. */
  predicate Edits(lines: seq<string>, section: string, key: string)
  {
    || FirstAt(lines, section, key).Some?
    || SectionAt(lines, section).Some?
  }

  /** What `set` does to the meanings of the lines; `q` is the first line kept below the binding. */
  lemma SetShape(lines: seq<string>, section: string, key: string, value: string) returns (q: nat)
    requires Writable(section, key, value) && SetLines(lines, section, key, value).Some?
    ensures var before, after := Items(lines), Items(SetLines(lines, section, key, value).value);
            var x, h, p := Binding(key, Trim(value)), HeaderOf(section), Place(lines, section, key);
            var first := FirstKey(before, h, key, |before|);
            if Edits(lines, section, key) then
              && Edited(before, after, p, q, x, h) && FirstKey(before, h, key, p).None?
              && (q == p ==> first.None? && forall i :: p <= i < |before| ==> before[i] != Header(h))
              && (q == p + 1 ==> first == Some(p))
            else
              Appended(before, after, x, h) && p == |after| - 1
  {
    hide Classify, KeyLine, HeaderLine, HeaderOf, PlainKey, PlainSection, Owner, Trim, FirstKey, LastHeader;
    hide InsertAt, NextHeader, KeyAt, Edited, Appended, Items, Fits, Classify;
    KeyLineReads(key, value);
    HeaderLineReads(section);
    var before, h, p := Items(lines), HeaderOf(section), Place(lines, section, key);
    var first := FirstKey(before, h, key, |before|);
    var written := SetLines(lines, section, key, value).value;
    q := if first.Some? then p + 1 else p;
    var line, x := KeyLine(key, value), Binding(key, Trim(value));
    if first.Some? {
      FirstIsFirst(before, h, key);
      ItemsAround(lines, p, line, p + 1, written);
      ReplaceShape(before, Items(written), x, h, p);
    } else if LastHeader(before, h, |before|).Some? {
      var a := LastHeader(before, h, |before|).value;
      FirstKeyNone(before, h, key, p);
      ItemsAround(lines, p, line, p, written);
      InsertShape(before, Items(written), x, h, a, p);
    } else {
      NewSection(lines, HeaderLine(section), line, written);
      AppendShape(before, Items(written), x, h);
    }
  }

  lemma FirstIsFirst(items: seq<Item>, h: string, key: string)
    requires FirstKey(items, h, key, |items|).Some?
    ensures FirstKey(items, h, key, FirstKey(items, h, key, |items|).value).None?
    ensures KeyAt(items, h, key, FirstKey(items, h, key, |items|).value)
  {
    hide FirstKey, KeyAt;
    var first := FirstKey(items, h, key, |items|).value;
    var earlier := FirstKey(items, h, key, first);
  }

  lemma FirstKeyNone(items: seq<Item>, h: string, key: string, p: nat)
    requires p <= |items| && FirstKey(items, h, key, |items|).None?
    ensures FirstKey(items, h, key, p).None?
  {
    hide FirstKey, KeyAt;
    var earlier := FirstKey(items, h, key, p);
  }

  lemma ReplaceShape(before: seq<Item>, after: seq<Item>, x: Item, h: string, p: nat)
    requires p < |before| && x.Binding? && KeyAt(before, h, x.key, p) && Around(before, after, p, p + 1, x)
    ensures Edited(before, after, p, p + 1, x, h)
  {
    hide Owner;
  }

  lemma InsertShape(before: seq<Item>, after: seq<Item>, x: Item, h: string, a: nat, p: nat)
    requires a < p <= |before| && x.Binding? && before[a] == Header(h) && Around(before, after, p, p, x)
    requires forall i :: a < i < p ==> !before[i].Header?
    ensures Edited(before, after, p, p, x, h)
  {
    hide Owner;
    OwnerInBlock(before, h, a, p);
  }

  /** The lines of a new section and what they mean. */
  lemma NewSection(lines: seq<string>, header: string, line: string, written: seq<string>)
    requires written == lines + (if |lines| > 0 then ["\n"] else []) + [header] + [line] + []
    ensures Items(written) == Items(lines) + (if |lines| > 0 then [Blank] else []) + [Classify(header), Classify(line)]
  {
    BlankLine();
    hide Classify, Items;
    forall i | 0 <= i < |written|
      ensures Items(written)[i] == Classify(written[i])
    {
      ItemAt(written, i);
    }
    forall i | 0 <= i < |lines|
      ensures Items(lines)[i] == Items(written)[i]
    {
      ItemAt(lines, i);
    }
  }

  lemma AppendShape(before: seq<Item>, after: seq<Item>, x: Item, h: string)
    requires after == before + (if |before| > 0 then [Blank] else []) + [Header(h), x] && x.Binding?
    requires forall i :: 0 <= i < |before| ==> before[i] != Header(h)
    ensures Appended(before, after, x, h)
  {}

  lemma BlankLine()
    ensures Classify("\n") == Blank
  {
    SpacesAround("");
    TrimPadded("", "", "\n");
    assert "" + "" + "\n" == "\n";
  }

  /** After a successful `set`, `get` reads the trimmed value exactly when it could read the key
      before, or the section is not split by another one; every other lookup is unchanged. */
  lemma SetThenGet(lines: seq<string>, section: string, key: string, value: string, section': string, key': string)
    requires Writable(section, key, value) && SetLines(lines, section, key, value).Some?
    ensures var after := SetLines(lines, section, key, value).value;
            && (Lookup(after, section, key) == Some(Trim(value)) <==>
                Lookup(lines, section, key).Some? || !Split(Items(lines), HeaderOf(section)))
            && (HeaderOf(section') != HeaderOf(section) || key' != key ==>
                Lookup(after, section', key') == Lookup(lines, section', key'))
  {
    var q := SetShape(lines, section, key, value);
    var before, after := Items(lines), Items(SetLines(lines, section, key, value).value);
    var x, h, p := Binding(key, Trim(value)), HeaderOf(section), Place(lines, section, key);
    hide Get, FirstKey, LastHeader, SetLines, Split, Edited, Appended, HeaderOf, Trim, Writable, Edits, Place;
    if Edits(lines, section, key) {
      EditReadable(before, after, p, q, x, h);
      if HeaderOf(section') != h || key' != key {
        EditKeepsOthers(before, after, p, q, x, h, HeaderOf(section'), key');
      }
    } else {
      AppendReads(before, after, x, h, HeaderOf(section'), key');
    }
  }

  lemma SplitItems(items: seq<Item>, h: string, h': string, key: string)
    requires |items| == 3 && items[0] == items[2] == Header(h) && items[1] == Header(h') && h != h'
    ensures Split(items, h) && FirstKey(items, h, key, 3).None? && Get(items, h, key).None?
  {
    HitIsFirst(items, h, key, 3);
    hide Owner, PhaseAt, Hit, FirstKey;
    assert forall j: nat :: j < 3 ==> !KeyAt(items, h, key, j);
  }

  /** A split section does lose a new key: `set` writes it below the second header, where `get`
      no longer looks. */
  lemma SplitSectionHidesKey(section: string, other: string, key: string, value: string)
    requires Writable(section, key, value) && Writable(other, key, value) && HeaderOf(section) != HeaderOf(other)
    ensures var lines := [HeaderLine(section), HeaderLine(other), HeaderLine(section)];
            var after := SetLines(lines, section, key, value);
            after.Some? && Lookup(after.value, section, key) != Some(Trim(value))
  {
    var lines := [HeaderLine(section), HeaderLine(other), HeaderLine(section)];
    HeaderLineReads(section);
    HeaderLineReads(other);
    hide Classify, HeaderLine, HeaderOf, Trim, FirstKey, LastHeader, Fits, PlainKey, Above, Below, Split, Get;
    hide PlainSection, KeyAt, KeyLine, Items;
    var items := Items(lines);
    ItemAt(lines, 0);
    ItemAt(lines, 1);
    ItemAt(lines, 2);
    SplitItems(items, HeaderOf(section), HeaderOf(other), key);
    assert HasRoom(lines, section, key);
    hide HasRoom;
    SetThenGet(lines, section, key, value, section, key);
  }

  /** After `set`, the key stands first at the line written, and last too if it was new. */
  lemma SetPlaces(lines: seq<string>, section: string, key: string, value: string)
    requires Writable(section, key, value) && SetLines(lines, section, key, value).Some?
    ensures var after, h, p := SetLines(lines, section, key, value).value, HeaderOf(section), Place(lines, section, key);
            && FirstKey(Items(after), h, key, |after|) == Some(p)
            && (FirstKey(Items(lines), h, key, |lines|).None? ==> LastKey(Items(after), h, key, |after|) == Some(p))
  {
    var q := SetShape(lines, section, key, value);
    var before, after := Items(lines), Items(SetLines(lines, section, key, value).value);
    var x, h, p := Binding(key, Trim(value)), HeaderOf(section), Place(lines, section, key);
    hide Get, SetLines, HeaderOf, Trim, Writable, KeyAt, FirstKey, LastHeader, LastKey, Edits, Place, Appended;
    if Edits(lines, section, key) {
      EditIsFirst(before, after, p, q, x, h);
    } else {
      AppendReads(before, after, x, h, h, key);
    }
  }

  lemma SetAtFirst(lines: seq<string>, section: string, key: string, value: string, p: nat)
    requires FirstAt(lines, section, key) == Some(p)
    ensures SetLines(lines, section, key, value) == Some(lines[p := KeyLine(key, value)])
  {
    hide KeyLine, FirstKey, KeyAt, HeaderOf, Items, LastHeader, Classify;
    assert lines[p := KeyLine(key, value)] == lines[..p] + [KeyLine(key, value)] + lines[p + 1..];
  }

  /** Two settings of one key leave what the second alone would leave. */
  lemma SetTwice(lines: seq<string>, section: string, key: string, value: string, value': string)
    requires Writable(section, key, value) && SetLines(lines, section, key, value).Some?
    ensures SetLines(SetLines(lines, section, key, value).value, section, key, value')
            == SetLines(lines, section, key, value')
  {
    hide FirstKey, LastKey, KeyAt, HeaderOf, KeyLine, Writable, Items, Above, Below, HasRoom, Classify;
    SetPlaces(lines, section, key, value);
    SetAtFirst(SetLines(lines, section, key, value).value, section, key, value', Place(lines, section, key));
    Put(Above(lines, section, key), KeyLine(key, value), KeyLine(key, value'), Below(lines, section, key));
  }

  lemma AroundNewKey(lines: seq<string>, section: string, key: string)
    requires FirstAt(lines, section, key).None?
    requires SectionAt(lines, section).Some?
    ensures Above(lines, section, key) + Below(lines, section, key) == lines
  {
    hide FirstKey, LastHeader, HeaderOf, Items, InsertAt, NextHeader, KeyAt, HeaderLine, Classify;
  }

  /** Setting a new key in an existing section and deleting it again restores the lines. */
  lemma SetThenDelete(lines: seq<string>, section: string, key: string, value: string)
    requires Writable(section, key, value) && SetLines(lines, section, key, value).Some?
    requires FirstAt(lines, section, key).None?
    requires SectionAt(lines, section).Some?
    ensures DelKeyLines(SetLines(lines, section, key, value).value, section, key) == Some(lines)
  {
    hide FirstKey, LastHeader, LastKey, HeaderOf, KeyLine, Writable, Items, KeyAt, HasRoom, Above, Below, Classify;
    SetPlaces(lines, section, key, value);
    Put(Above(lines, section, key), KeyLine(key, value), "", Below(lines, section, key));
    AroundNewKey(lines, section, key);
  }

  lemma RemovedItems(lines: seq<string>, p: nat, left: seq<string>)
    requires p < |lines| && left == lines[..p] + lines[p + 1..]
    ensures Removed(Items(lines), Items(left), p)
  {
    hide Items, Classify;
    forall i | 0 <= i < |left|
      ensures Items(left)[i] == Items(lines)[if i < p then i else i + 1]
    {
      ItemAt(left, i);
      ItemAt(lines, if i < p then i else i + 1);
    }
  }

  /** `del` of a key removes its last binding: a later `get` fails if that was the only one and
      answers as before otherwise; every other lookup is unchanged. */
  lemma DeleteKeyThenGet(lines: seq<string>, section: string, key: string, section': string, key': string)
    requires DelKeyLines(lines, section, key).Some?
    ensures var after, h := DelKeyLines(lines, section, key).value, HeaderOf(section);
            var only := FirstKey(Items(lines), h, key, |lines|) == LastKey(Items(lines), h, key, |lines|);
            && Lookup(after, section, key) == (if only then None else Lookup(lines, section, key))
            && (HeaderOf(section') != h || key' != key ==>
                Lookup(after, section', key') == Lookup(lines, section', key'))
  {
    var before, after := Items(lines), Items(DelKeyLines(lines, section, key).value);
    var h := HeaderOf(section);
    hide Classify, HeaderOf, FirstKey, LastKey, KeyAt, Get;
    var p := LastKey(before, h, key, |before|).value;
    assert KeyAt(before, h, key, p);
    RemovedItems(lines, p, DelKeyLines(lines, section, key).value);
    hide Removed, Items, DelKeyLines, Classify;
    RemoveLast(before, after, p, h, key);
    if HeaderOf(section') != h || key' != key {
      RemoveKeepsOthers(before, after, p, h, key, HeaderOf(section'), key');
    }
  }

  /** The lines that `del` of a section leaves out, and what the others mean. */
  lemma DeletedBlock(lines: seq<string>, section: string) returns (a: nat, e: nat)
    requires DelSectionLines(lines, section).Some?
    ensures SectionAt(lines, section) == Some(a) && e == NextHeader(Items(lines), a + 1)
    ensures Block(Items(lines), HeaderOf(section), a, e)
    ensures DelSectionLines(lines, section) == Some(lines[..a] + lines[e..])
    ensures Items(lines[..a] + lines[e..]) == Items(lines)[..a] + Items(lines)[e..]
    ensures Items(lines[..a]) == Items(lines)[..a] && Items(lines[e..]) == Items(lines)[e..]
    ensures forall i :: e <= i < |lines| ==> Items(lines)[i] != Header(HeaderOf(section))
  {
    hide Classify, Items, HeaderOf, LastHeader, NextHeader;
    a := SectionAt(lines, section).value;
    e := NextHeader(Items(lines), a + 1);
    ItemsConcat(lines[..a], lines[e..]);
    ItemsSplit(lines, a);
    ItemsSplit(lines, e);
  }

  /** `del` of a section removes its last block of lines.  What can be read in the section afterwards is
      what the lines above that block say, so nothing if it was the only one.  In another section nothing
      changes unless the block kept `get` from reading on in a further block of that section. */
  lemma DeleteSectionThenGet(lines: seq<string>, section: string, section': string, key: string)
    requires DelSectionLines(lines, section).Some?
    ensures var items, h, h' := Items(lines), HeaderOf(section), HeaderOf(section');
            var a := LastHeader(items, h, |items|).value;
            var e := NextHeader(items, a + 1);
            var after := DelSectionLines(lines, section).value;
            && Block(items, h, a, e) && after == lines[..a] + lines[e..]
            && Lookup(after, section, key) == Lookup(lines[..a], section, key)
            && ((forall i :: 0 <= i < |items| && i != a ==> items[i] != Header(h)) ==>
                Lookup(after, section, key).None?)
            && (h' != h && !Merges(items, h', a, e) ==> Lookup(after, section', key) == Lookup(lines, section', key))
            && (h' != h && Merges(items, h', a, e) ==>
                Lookup(after, section', key) == (if Lookup(lines, section', key).Some? then Lookup(lines, section', key)
                                                 else Lookup(lines[e..], section', key)))
  {
    hide Classify, Items, HeaderOf, LastHeader, NextHeader, Get, Merges, Block, DelSectionLines;
    var items, h, h' := Items(lines), HeaderOf(section), HeaderOf(section');
    var a, e := DeletedBlock(lines, section);
    BlockPrefix(items, h, a, e, key);
    if forall i :: 0 <= i < |items| && i != a ==> items[i] != Header(h) {
      BlockGone(items, h, a, e, key);
    }
    if h' != h {
      if Merges(items, h', a, e) {
        BlockMerges(items, h, a, e, h', key);
      } else {
        BlockKeepsOthers(items, h, a, e, h', key);
      }
    }
  }

  /** The two names are those of different sections, and the rest names one binding. */
  predicate TwoSections(section: string, other: string, key: string, value: string)
  {
    Writable(section, key, value) && Writable(other, key, value) && HeaderOf(section) != HeaderOf(other)
  }

  /** A section in two pieces stays readable after `del`. */
  lemma DeletedSectionStays(section: string, other: string, key: string, value: string)
    requires TwoSections(section, other, key, value)
    ensures var lines := [HeaderLine(section), KeyLine(key, value), HeaderLine(other), HeaderLine(section)];
            var after := DelSectionLines(lines, section);
            after == Some(lines[..3]) && Lookup(after.value, section, key) == Some(Trim(value))
  {
    var lines := [HeaderLine(section), KeyLine(key, value), HeaderLine(other), HeaderLine(section)];
    HeaderLineReads(section);
    HeaderLineReads(other);
    KeyLineReads(key, value);
    hide Classify, HeaderLine, KeyLine, HeaderOf, Trim, Items, PlainKey, PlainSection, Fits;
    FourItems(lines);
    assert lines[..3] + lines[4..] == lines[..3];
    ItemsSplit(lines, 3);
    PieceReads(Items(lines), HeaderOf(section), HeaderOf(other), key, Trim(value));
  }

  lemma FourItems(lines: seq<string>)
    requires |lines| == 4
    ensures Items(lines) == [Classify(lines[0]), Classify(lines[1]), Classify(lines[2]), Classify(lines[3])]
  {
    hide Classify, Items;
    ItemAt(lines, 0);
    ItemAt(lines, 1);
    ItemAt(lines, 2);
    ItemAt(lines, 3);
  }

  lemma PieceReads(items: seq<Item>, h: string, h': string, key: string, value: string)
    requires items == [Header(h), Binding(key, value), Header(h'), Header(h)] && h != h'
    ensures LastHeader(items, h, 4) == Some(3) && NextHeader(items, 4) == 4
    ensures Get(items[..3], h, key) == Some(value)
  {
    var above := items[..3];
    assert PhaseAt(above, h, 1) == In && Hit(above, h, key, 1) == None;
    assert Hit(above, h, key, 2) == Some(value);
    HitFrozen(above, h, key, 2, 3);
  }

  /** `del` of another section can bring a binding to light that `get` did not reach. */
  lemma DeletedSectionUncovers(section: string, other: string, key: string, value: string)
    requires TwoSections(section, other, key, value)
    ensures var lines := [HeaderLine(section), HeaderLine(other), HeaderLine(section), KeyLine(key, value)];
            var after := DelSectionLines(lines, other);
            && after == Some(lines[..1] + lines[2..])
            && Lookup(lines, section, key).None? && Lookup(after.value, section, key) == Some(Trim(value))
  {
    var lines := [HeaderLine(section), HeaderLine(other), HeaderLine(section), KeyLine(key, value)];
    HeaderLineReads(section);
    HeaderLineReads(other);
    KeyLineReads(key, value);
    hide Classify, HeaderLine, KeyLine, HeaderOf, Trim, Items, PlainKey, PlainSection, Fits;
    FourItems(lines);
    ItemsConcat(lines[..1], lines[2..]);
    ItemsSplit(lines, 1);
    ItemsSplit(lines, 2);
    Uncovered(Items(lines), HeaderOf(section), HeaderOf(other), key, Trim(value));
  }

  lemma Uncovered(items: seq<Item>, h: string, h': string, key: string, value: string)
    requires items == [Header(h), Header(h'), Header(h), Binding(key, value)] && h != h'
    ensures LastHeader(items, h', 4) == Some(1) && NextHeader(items, 2) == 2
    ensures Get(items, h, key) == None && Get(items[..1] + items[2..], h, key) == Some(value)
  {
    assert PhaseAt(items, h, 1) == In && PhaseAt(items, h, 2) == Done && Hit(items, h, key, 1) == None;
    assert Hit(items, h, key, 2) == None;
    HitFrozen(items, h, key, 2, 4);
    var after := items[..1] + items[2..];
    assert after == [Header(h), Header(h), Binding(key, value)];
    assert PhaseAt(after, h, 1) == In && PhaseAt(after, h, 2) == In;
    assert Hit(after, h, key, 0) == None && !IsKey(after[1], key);
    assert Hit(after, h, key, 1) == None;
    assert Hit(after, h, key, 2) == None;
  }
}
