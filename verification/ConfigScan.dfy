/** What one line of a configuration file means to src/config.c, and the state that its
    four scanners carry from line to line. */
module ConfigScan {
  import opened Text

  datatype Item =
    | Blank
    | Comment
    | Header(text: string)              // up to and including the first ']', if there is one
    | Binding(key: string, value: string)
    | Junk                              // neither header nor comment, and no '='

  function CutAfterBracket(t: string): string
  {
    var i := IndexOf(t, ']');
    if i < |t| then t[..i + 1] else t
  }

  function Classify(line: string): Item
  {
    var t := Trim(line);
    if t == "" then Blank
    else if t[0] == '#' || t[0] == ';' then Comment
    else if t[0] == '[' then Header(CutAfterBracket(t))
    else
      var e := IndexOf(t, '=');
      if e == |t| then Junk
      else
        var v := Trim(t[e + 1..]);
        Binding(Trim(t[..e]), v[..IndexOf(v, '\n')])
  }

  /** The meanings of the lines of a file. */
  function Items(lines: seq<string>): (items: seq<Item>)
    ensures |items| == |lines|
  {
    if lines == [] then [] else Items(lines[..|lines| - 1]) + [Classify(lines[|lines| - 1])]
  }

  lemma {:induction false} ItemAt(lines: seq<string>, i: nat)
    requires i < |lines|
    ensures Items(lines)[i] == Classify(lines[i])
  {
    hide Classify;
    if i < |lines| - 1 {
      ItemAt(lines[..|lines| - 1], i);
    }
  }

  lemma {:induction false} ItemsConcat(a: seq<string>, b: seq<string>)
    ensures Items(a + b) == Items(a) + Items(b)
  {
    hide Classify;
    if b == [] {
      assert a + b == a;
    } else {
      assert (a + b)[..|a + b| - 1] == a + b[..|b| - 1];
      ItemsConcat(a, b[..|b| - 1]);
    }
  }

  /** The meanings of the lines above and below a place. */
  lemma ItemsSplit(lines: seq<string>, i: nat)
    requires i <= |lines|
    ensures Items(lines[..i]) == Items(lines)[..i] && Items(lines[i..]) == Items(lines)[i..]
  {
    hide Items;
    ItemsConcat(lines[..i], lines[i..]);
    assert lines[..i] + lines[i..] == lines;
  }

  /** `after` is `before` with `x` in place of the lines `a..e`. */
  ghost predicate Around(before: seq<Item>, after: seq<Item>, a: nat, e: nat, x: Item)
  {
    && a <= e <= |before| && |after| == a + 1 + |before| - e && after[a] == x
    && (forall i :: 0 <= i < a ==> after[i] == before[i])
    && forall i :: a < i < |after| ==> after[i] == before[i + e - a - 1]
  }

  /** The meanings when a line stands in place of others. */
  lemma ItemsAround(lines: seq<string>, a: nat, line: string, e: nat, all: seq<string>)
    requires a <= e <= |lines| && all == lines[..a] + [line] + lines[e..]
    ensures Around(Items(lines), Items(all), a, e, Classify(line))
  {
    hide Classify, Items;
    ItemAt(all, a);
    forall i | 0 <= i < a
      ensures Items(all)[i] == Items(lines)[i]
    {
      ItemAt(all, i);
      ItemAt(lines, i);
    }
    forall i | a < i < |all|
      ensures Items(all)[i] == Items(lines)[i + e - a - 1]
    {
      ItemAt(all, i);
      ItemAt(lines, i + e - a - 1);
    }
  }

  predicate IsKey(item: Item, key: string)
  {
    item.Binding? && item.key == key
  }

  // ----- the state after the first `i` lines -----

  /** The header under which line `i` stands: the last one above it. */
  function Owner(items: seq<Item>, i: nat): Option<string>
    requires i <= |items|
  {
    if i == 0 then None
    else if items[i - 1].Header? then Some(items[i - 1].text)
    else Owner(items, i - 1)
  }

  /** `get` and `ls` are before, inside or past the run of lines that they read. */
  datatype Phase = Before | In | Done

  function PhaseAt(items: seq<Item>, h: string, i: nat): Phase
    requires i <= |items|
  {
    if i == 0 then Before
    else
      var ph := PhaseAt(items, h, i - 1);
      if !items[i - 1].Header? || ph == Done then ph
      else if items[i - 1].text == h then In
      else if ph == In then Done
      else Before
  }

  /** The value that `get` has found in the first `i` lines. */
  function Hit(items: seq<Item>, h: string, key: string, i: nat): Option<string>
    requires i <= |items|
  {
    if i == 0 then None
    else if Hit(items, h, key, i - 1).Some? then Hit(items, h, key, i - 1)
    else if PhaseAt(items, h, i - 1) == In && IsKey(items[i - 1], key) then Some(items[i - 1].value)
    else None
  }

  function Get(items: seq<Item>, h: string, key: string): Option<string>
  {
    Hit(items, h, key, |items|)
  }

  /** The keys that `ls` prints for a section. */
  function Keys(items: seq<Item>, h: string, i: nat): seq<string>
    requires i <= |items|
  {
    if i == 0 then []
    else if PhaseAt(items, h, i - 1) == In && items[i - 1].Binding? then
      Keys(items, h, i - 1) + [items[i - 1].key]
    else Keys(items, h, i - 1)
  }

  /** Line `i` binds `key` under some header `h`: what `set` and `del` look for. */
  predicate KeyAt(items: seq<Item>, h: string, key: string, i: nat)
    requires i < |items|
  {
    IsKey(items[i], key) && Owner(items, i) == Some(h)
  }

  /** The first such line among the first `i`: the one that `set` replaces. */
  function FirstKey(items: seq<Item>, h: string, key: string, i: nat): (r: Option<nat>)
    requires i <= |items|
    ensures r.Some? ==> r.value < i && KeyAt(items, h, key, r.value)
    ensures r.Some? ==> forall j: nat :: j < r.value ==> !KeyAt(items, h, key, j)
    ensures r.None? ==> forall j: nat :: j < i ==> !KeyAt(items, h, key, j)
  {
    if i == 0 then None
    else if FirstKey(items, h, key, i - 1).Some? then FirstKey(items, h, key, i - 1)
    else if KeyAt(items, h, key, i - 1) then Some(i - 1)
    else None
  }

  /** The last such line among the first `i`: the one that `del` removes. */
  function LastKey(items: seq<Item>, h: string, key: string, i: nat): (r: Option<nat>)
    requires i <= |items|
    ensures r.Some? ==> r.value < i && KeyAt(items, h, key, r.value)
    ensures r.Some? ==> forall j: nat :: r.value < j < i ==> !KeyAt(items, h, key, j)
    ensures r.None? ==> forall j: nat :: j < i ==> !KeyAt(items, h, key, j)
  {
    if i == 0 then None
    else if KeyAt(items, h, key, i - 1) then Some(i - 1)
    else LastKey(items, h, key, i - 1)
  }

  /** The last line among the first `i` that carries the header `h`. */
  function LastHeader(items: seq<Item>, h: string, i: nat): (r: Option<nat>)
    requires i <= |items|
    ensures r.Some? ==> r.value < i && items[r.value] == Header(h)
    ensures r.Some? ==> forall j: nat :: r.value < j < i ==> items[j] != Header(h)
    ensures r.None? ==> forall j: nat :: j < i ==> items[j] != Header(h)
  {
    if i == 0 then None
    else if items[i - 1] == Header(h) then Some(i - 1)
    else LastHeader(items, h, i - 1)
  }

  /** The first header line at or after `i`, or the end of the file. */
  function NextHeader(items: seq<Item>, i: nat): (e: nat)
    requires i <= |items|
    ensures i <= e <= |items| && (e < |items| ==> items[e].Header?)
    ensures forall j :: i <= j < e ==> !items[j].Header?
    decreases |items| - i
  {
    if i == |items| || items[i].Header? then i else NextHeader(items, i + 1)
  }

  /** Just below the last line of `(start, e)` that is not blank, or `e` when all of them are. */
  function InsertAt(items: seq<Item>, start: nat, e: nat): (p: nat)
    requires start < e <= |items|
    ensures start < p <= e
  {
    if exists j :: start < j < e && items[j] != Blank then LastContent(items, start, e) + 1 else e
  }

  function LastContent(items: seq<Item>, start: nat, e: nat): (j: nat)
    requires start < e <= |items| && exists j :: start < j < e && items[j] != Blank
    ensures start < j < e && items[j] != Blank
    ensures forall l :: j < l < e ==> items[l] == Blank
  {
    if items[e - 1] != Blank && start < e - 1 then e - 1 else LastContent(items, start, e - 1)
  }

  // ----- what the states mean -----

  /** The section `h` comes in pieces separated by other sections. */
  ghost predicate Split(items: seq<Item>, h: string)
  {
    exists a: nat, b: nat, c: nat ::
      && a < b < c < |items| && items[a] == Header(h)
      && items[b].Header? && items[b] != Header(h) && items[c] == Header(h)
  }

  /** The three phases, without the scanner. */
  lemma {:induction false} PhaseMeaning(items: seq<Item>, h: string, i: nat)
    requires i <= |items|
    ensures PhaseAt(items, h, i) == Before <==> forall a: nat :: a < i ==> items[a] != Header(h)
    ensures PhaseAt(items, h, i) == Done <==>
              (exists a: nat, b: nat ::
                 a < b < i && items[a] == Header(h) && items[b].Header? && items[b] != Header(h))
    ensures PhaseAt(items, h, i) == In ==> Owner(items, i) == Some(h)
    ensures Owner(items, i) == Some(h) ==> exists a: nat :: a < i && items[a] == Header(h)
  {
    if 0 < i {
      PhaseMeaning(items, h, i - 1);
    }
  }

  /** Past the readable run, a line is under header `h` again only in a split section. */
  lemma {:induction false} OwnedPastTheRun(items: seq<Item>, h: string, i: nat)
    requires i <= |items| && PhaseAt(items, h, i) == Done && Owner(items, i) == Some(h)
    ensures Split(items, h)
  {
    PhaseMeaning(items, h, i - 1);
    if !items[i - 1].Header? {
      OwnedPastTheRun(items, h, i - 1);
    }
  }
}
