/** How the scanners react to editing one line: inserting or replacing a binding, deleting
    a binding, deleting a section. */
module ConfigEdit {
  import opened Text
  import opened ConfigScan

  /** Everything the scanners remember after `i` lines. */
  ghost function At(items: seq<Item>, h: string, key: string, i: nat): (Option<string>, Phase, Option<string>)
    requires i <= |items|
  {
    (Owner(items, i), PhaseAt(items, h, i), Hit(items, h, key, i))
  }

  /** Equal owners stay equal over equal lines, `d` lines further on in `b`. */
  lemma {:induction false} SameOwner(a: seq<Item>, p: nat, n: nat, b: seq<Item>, d: int, h: string, key: string)
    requires p <= n <= |a| && 0 <= p + d && n + d <= |b| && forall i :: p <= i < n ==> a[i] == b[i + d]
    requires Owner(a, p) == Owner(b, p + d)
    ensures Owner(a, n) == Owner(b, n + d)
    ensures forall i :: p <= i < n ==> KeyAt(a, h, key, i) == KeyAt(b, h, key, i + d)
  {
    if p < n {
      SameOwner(a, p, n - 1, b, d, h, key);
    }
  }

  lemma {:induction false} SamePrefixOwner(a: seq<Item>, b: seq<Item>, n: nat, h: string, key: string)
    requires n <= |a| && n <= |b| && forall i :: 0 <= i < n ==> a[i] == b[i]
    ensures Owner(a, n) == Owner(b, n)
    ensures forall i :: 0 <= i < n ==> KeyAt(a, h, key, i) == KeyAt(b, h, key, i)
  {
    if 0 < n {
      SamePrefixOwner(a, b, n - 1, h, key);
    }
  }

  /** Equal states stay equal over equal lines. */
  lemma {:induction false} SameTail(a: seq<Item>, p: nat, n: nat, b: seq<Item>, d: int, h: string, key: string)
    requires p <= n <= |a| && 0 <= p + d && n + d <= |b| && forall i :: p <= i < n ==> a[i] == b[i + d]
    requires At(a, h, key, p) == At(b, h, key, p + d)
    ensures At(a, h, key, n) == At(b, h, key, n + d)
  {
    if p < n {
      SameTail(a, p, n - 1, b, d, h, key);
    }
  }

  lemma AtStart(a: seq<Item>, b: seq<Item>, h: string, key: string)
    ensures At(a, h, key, 0) == At(b, h, key, 0)
  {}

  /** Once found, or once past the run, the answer of `get` does not change. */
  lemma {:induction false} HitFrozen(items: seq<Item>, h: string, key: string, i: nat, n: nat)
    requires i <= n <= |items| && (PhaseAt(items, h, i) == Done || Hit(items, h, key, i).Some?)
    ensures Hit(items, h, key, n) == Hit(items, h, key, i)
    ensures PhaseAt(items, h, i) == Done ==> PhaseAt(items, h, n) == Done
  {
    if i < n {
      HitFrozen(items, h, key, i, n - 1);
    }
  }

  /** `get` answers with the first binding of the section, unless it stops before reaching it. */
  lemma {:induction false} HitIsFirst(items: seq<Item>, h: string, key: string, i: nat)
    requires i <= |items|
    ensures var f := FirstKey(items, h, key, i);
            && (Hit(items, h, key, i).Some? ==> f.Some? && Hit(items, h, key, i).value == items[f.value].value)
            && (PhaseAt(items, h, i) != Done && Hit(items, h, key, i).None? ==> f.None?)
  {
    if 0 < i {
      HitIsFirst(items, h, key, i - 1);
      PhaseMeaning(items, h, i - 1);
    }
  }

  /** `after` is `before` with the binding `x` put in at line `p`, in place of the lines `p..q`. */
  ghost predicate Edited(before: seq<Item>, after: seq<Item>, p: nat, q: nat, x: Item, h: string)
  {
    && p <= q <= p + 1 && q <= |before| && |after| == p + 1 + |before| - q
    && (forall i :: 0 <= i < p ==> after[i] == before[i])
    && (forall i :: p < i < |after| ==> after[i] == before[i + q - p - 1])
    && after[p] == x && x.Binding?
    && (q == p + 1 ==> IsKey(before[p], x.key))
    && Owner(before, p) == Some(h)
  }

  lemma EditPrefix(before: seq<Item>, after: seq<Item>, p: nat, q: nat, x: Item, h: string, h': string, key: string)
    requires Edited(before, after, p, q, x, h)
    ensures At(after, h', key, p) == At(before, h', key, p)
  {
    hide Owner, PhaseAt, Hit;
    AtStart(after, before, h', key);
    SameTail(after, 0, p, before, 0, h', key);
  }

  /** The edited line itself changes no state of another lookup. */
  lemma EditStep(before: seq<Item>, after: seq<Item>, p: nat, q: nat, x: Item, h: string, h': string, key: string)
    requires Edited(before, after, p, q, x, h) && (h' != h || key != x.key)
    ensures At(after, h', key, p + 1) == At(before, h', key, q)
  {
    EditPrefix(before, after, p, q, x, h, h', key);
    PhaseMeaning(before, h', p);
  }

  /** Such an edit is invisible to every other lookup. */
  lemma EditKeepsOthers(before: seq<Item>, after: seq<Item>, p: nat, q: nat, x: Item, h: string, h': string, key: string)
    requires Edited(before, after, p, q, x, h) && (h' != h || key != x.key)
    ensures Get(after, h', key) == Get(before, h', key)
  {
    hide Owner, PhaseAt, Hit;
    EditStep(before, after, p, q, x, h, h', key);
    SameTail(after, p + 1, |after|, before, q - p - 1, h', key);
  }

  lemma EditOwners(before: seq<Item>, after: seq<Item>, p: nat, q: nat, x: Item, h: string)
    requires Edited(before, after, p, q, x, h)
    ensures Owner(after, p) == Owner(before, p) && Owner(after, p + 1) == Owner(before, q)
    ensures forall i :: 0 <= i < p ==> KeyAt(after, h, x.key, i) == KeyAt(before, h, x.key, i)
  {
    if q == p + 1 { OwnerStep(before, p); }
    OwnerStep(after, p);
    hide Owner, KeyAt;
    SamePrefixOwner(after, before, p, h, x.key);
  }

  lemma OwnerStep(items: seq<Item>, i: nat)
    requires i < |items|
    ensures Owner(items, i + 1) == if items[i].Header? then Some(items[i].text) else Owner(items, i)
  {}

  lemma EditKeys(before: seq<Item>, after: seq<Item>, p: nat, q: nat, x: Item, h: string)
    requires Edited(before, after, p, q, x, h)
    ensures KeyAt(after, h, x.key, p)
    ensures forall i :: 0 <= i < p ==> KeyAt(after, h, x.key, i) == KeyAt(before, h, x.key, i)
    ensures forall i :: p < i < |after| ==> KeyAt(after, h, x.key, i) == KeyAt(before, h, x.key, i + q - p - 1)
  {
    EditOwners(before, after, p, q, x, h);
    hide Owner;
    assert KeyAt(after, h, x.key, p);
    hide KeyAt;
    SameOwner(after, p + 1, |after|, before, q - p - 1, h, x.key);
  }

  /** The edited binding is the first one of its key, and the last one too if the key was new. */
  lemma EditIsFirst(before: seq<Item>, after: seq<Item>, p: nat, q: nat, x: Item, h: string)
    requires Edited(before, after, p, q, x, h) && FirstKey(before, h, x.key, p).None?
    ensures FirstKey(after, h, x.key, |after|) == Some(p)
    ensures FirstKey(before, h, x.key, |before|).None? ==> LastKey(after, h, x.key, |after|) == Some(p)
  {
    EditKeys(before, after, p, q, x, h);
    hide Owner, KeyAt, FirstKey, LastKey;
    var first, last := FirstKey(after, h, x.key, |after|), LastKey(after, h, x.key, |after|);
  }

  /** A binding inside the run that `get` reads is found there, unless an earlier one was. */
  lemma KeyInRun(items: seq<Item>, h: string, key: string, p: nat)
    requires p < |items| && PhaseAt(items, h, p) == In && IsKey(items[p], key)
    ensures Get(items, h, key) ==
            if Hit(items, h, key, p).Some? then Hit(items, h, key, p) else Some(items[p].value)
  {
    HitFrozen(items, h, key, p + 1, |items|);
  }

  /** The new value is read exactly when `get` is inside its run at line `p`. */
  lemma EditValue(before: seq<Item>, after: seq<Item>, p: nat, q: nat, x: Item, h: string)
    requires Edited(before, after, p, q, x, h) && FirstKey(before, h, x.key, p).None?
    ensures PhaseAt(before, h, p) == In ==> Get(after, h, x.key) == Some(x.value)
    ensures PhaseAt(before, h, p) == Done ==> Get(after, h, x.key) == Get(before, h, x.key) == None
    ensures PhaseAt(before, h, p) != Before
  {
    EditPrefix(before, after, p, q, x, h, h, x.key);
    HitIsFirst(before, h, x.key, p);
    PhaseMeaning(before, h, p);
    hide Owner, PhaseAt, FirstKey, Hit;
    if PhaseAt(before, h, p) == In {
      KeyInRun(after, h, x.key, p);
    } else {
      HitFrozen(after, h, x.key, p, |after|);
      HitFrozen(before, h, x.key, p, |before|);
    }
  }

  /** A binding put at the end of the last piece of its section can be read there exactly when
      the key could be read before or the section is in one piece. */
  lemma EditReadable(before: seq<Item>, after: seq<Item>, p: nat, q: nat, x: Item, h: string)
    requires Edited(before, after, p, q, x, h) && FirstKey(before, h, x.key, p).None?
    requires q == p ==> FirstKey(before, h, x.key, |before|).None? && forall i :: p <= i < |before| ==> before[i] != Header(h)
    ensures Get(after, h, x.key) == Some(x.value) <==> Get(before, h, x.key).Some? || !Split(before, h)
  {
    EditValue(before, after, p, q, x, h);
    HitIsFirst(before, h, x.key, |before|);
    hide Owner, PhaseAt, FirstKey, Hit, Split;
    if PhaseAt(before, h, p) == Done {
      OwnedPastTheRun(before, h, p);
    } else if q == p {
      InNotSplit(before, h, p);
    } else {
      KeyInRun(before, h, x.key, p);
    }
  }

  lemma InNotSplit(items: seq<Item>, h: string, p: nat)
    requires p <= |items| && PhaseAt(items, h, p) != Done
    requires forall i :: p <= i < |items| ==> items[i] != Header(h)
    ensures !Split(items, h)
  {
    PhaseMeaning(items, h, p);
  }

  // ----- the reference meaning of `get` and `ls` -----

  /** No other section comes between the first header `h` and line `i`. */
  ghost predicate Reachable(items: seq<Item>, h: string, i: nat)
    requires i <= |items|
  {
    !exists a: nat, b: nat :: a < b < i && items[a] == Header(h) && items[b].Header? && items[b] != Header(h)
  }

  /** `get` answers with the first binding of the key under its header, and only if no other
      section comes in between; the same holds of the keys that `ls` prints. */
  lemma GetMeaning(items: seq<Item>, h: string, key: string)
    ensures Get(items, h, key) ==
            match FirstKey(items, h, key, |items|)
            case Some(i) => if Reachable(items, h, i) then Some(items[i].value) else None
            case None => None
    ensures key in Keys(items, h, |items|) <==> Get(items, h, key).Some?
  {
    HitIsFirst(items, h, key, |items|);
    KeysAreHits(items, h, key, |items|);
    var f := FirstKey(items, h, key, |items|);
    if f.Some? {
      var i := f.value;
      PhaseMeaning(items, h, i);
      HitIsFirst(items, h, key, i);
      hide Owner, FirstKey, Hit, PhaseAt;
      if Reachable(items, h, i) {
        KeyInRun(items, h, key, i);
      } else {
        HitFrozen(items, h, key, i, |items|);
      }
    }
  }

  lemma {:induction false} KeysAreHits(items: seq<Item>, h: string, key: string, i: nat)
    requires i <= |items|
    ensures key in Keys(items, h, i) <==> Hit(items, h, key, i).Some?
  {
    if 0 < i {
      KeysAreHits(items, h, key, i - 1);
    }
  }

  // ----- appending a section -----

  ghost predicate Appended(before: seq<Item>, after: seq<Item>, x: Item, h: string)
  {
    && |before| + 2 <= |after| && x.Binding?
    && (forall i :: 0 <= i < |before| ==> after[i] == before[i])
    && (forall i :: |before| <= i < |after| - 2 ==> after[i] == Blank)
    && after[|after| - 2] == Header(h) && after[|after| - 1] == x
    && forall i :: 0 <= i < |before| ==> before[i] != Header(h)
  }

  lemma {:induction false} BlanksChangeNothing(items: seq<Item>, i: nat, n: nat, h: string, key: string)
    requires i <= n <= |items| && forall j :: i <= j < n ==> items[j] == Blank
    ensures At(items, h, key, n) == At(items, h, key, i)
  {
    if i < n {
      BlanksChangeNothing(items, i, n - 1, h, key);
    }
  }

  lemma AppendPrefix(before: seq<Item>, after: seq<Item>, x: Item, h: string, h': string, key: string)
    requires Appended(before, after, x, h)
    ensures At(after, h', key, |after| - 2) == At(before, h', key, |before|)
  {
    hide Owner, PhaseAt, Hit;
    AtStart(after, before, h', key);
    SameTail(after, 0, |before|, before, 0, h', key);
    BlanksChangeNothing(after, |before|, |after| - 2, h', key);
  }

  lemma AppendKeys(before: seq<Item>, after: seq<Item>, x: Item, h: string)
    requires Appended(before, after, x, h)
    ensures forall i: nat :: i < |after| - 1 ==> !KeyAt(after, h, x.key, i)
  {
    NoHeaderNoKey(after[..|after| - 2], h, x.key);
    SameOwner(after, 0, |after| - 2, after[..|after| - 2], 0, h, x.key);
  }

  /** A new section at the end is read back, and disturbs no other lookup. */
  lemma AppendReads(before: seq<Item>, after: seq<Item>, x: Item, h: string, h': string, key: string)
    requires Appended(before, after, x, h)
    ensures Get(after, h, x.key) == Some(x.value) && Get(before, h, x.key).None? && !Split(before, h)
    ensures FirstKey(after, h, x.key, |after|) == LastKey(after, h, x.key, |after|) == Some(|after| - 1)
    ensures h' != h || key != x.key ==> Get(after, h', key) == Get(before, h', key)
  {
    AppendPrefix(before, after, x, h, h, x.key);
    PhaseMeaning(before, h, |before|);
    HitIsFirst(before, h, x.key, |before|);
    NoHeaderNoKey(before, h, x.key);
    AppendPrefix(before, after, x, h, h', key);
    PhaseMeaning(before, h', |before|);
    hide FirstKey, LastKey;
    var n := |after|;
    assert PhaseAt(after, h, n - 1) == In && Hit(after, h, x.key, n - 1).None?;
    assert Hit(after, h', key, n - 1) == Hit(before, h', key, |before|);
    AppendKeys(before, after, x, h);
    assert KeyAt(after, h, x.key, n - 1);
  }

  lemma NoHeaderNoKey(items: seq<Item>, h: string, key: string)
    requires forall i :: 0 <= i < |items| ==> items[i] != Header(h)
    ensures forall i :: 0 <= i < |items| ==> !KeyAt(items, h, key, i)
  {
    forall i | 0 <= i < |items|
      ensures !KeyAt(items, h, key, i)
    {
      PhaseMeaning(items, h, i);
    }
  }

  // ----- deleting a binding -----

  ghost predicate Removed(before: seq<Item>, after: seq<Item>, p: nat)
  {
    && p < |before| && |after| == |before| - 1
    && (forall i :: 0 <= i < p ==> after[i] == before[i])
    && (forall i :: p <= i < |after| ==> after[i] == before[i + 1])
  }

  lemma RemovePrefix(before: seq<Item>, after: seq<Item>, p: nat, h: string, key: string)
    requires Removed(before, after, p)
    ensures At(after, h, key, p) == At(before, h, key, p)
  {
    hide Owner, PhaseAt, Hit;
    AtStart(after, before, h, key);
    SameTail(after, 0, p, before, 0, h, key);
  }

  /** Deleting a binding is invisible to every other lookup. */
  lemma RemoveKeepsOthers(before: seq<Item>, after: seq<Item>, p: nat, h: string, key: string, h': string, key': string)
    requires Removed(before, after, p) && KeyAt(before, h, key, p) && (h' != h || key' != key)
    ensures Get(after, h', key') == Get(before, h', key')
  {
    RemovePrefix(before, after, p, h', key');
    PhaseMeaning(before, h', p);
    assert At(before, h', key', p + 1) == At(after, h', key', p);
    hide Owner, PhaseAt, Hit;
    SameTail(after, p, |after|, before, 1, h', key');
  }

  /** Deleting the last binding of a key makes `get` fail if it was the only one, and otherwise
      changes no answer. */
  lemma RemoveLast(before: seq<Item>, after: seq<Item>, p: nat, h: string, key: string)
    requires Removed(before, after, p) && LastKey(before, h, key, |before|) == Some(p)
    ensures Get(after, h, key) ==
            if FirstKey(before, h, key, |before|) == Some(p) then None else Get(before, h, key)
  {
    var f := FirstKey(before, h, key, |before|).value;
    RemovedKeys(before, after, p, h, key);
    GetMeaning(before, h, key);
    GetMeaning(after, h, key);
    hide Owner, PhaseAt, Hit, KeyAt, Keys;
    if f < p {
      assert Reachable(before, h, f) == Reachable(after, h, f);
    }
  }

  lemma RemovedOwners(before: seq<Item>, after: seq<Item>, p: nat, h: string, key: string)
    requires Removed(before, after, p) && KeyAt(before, h, key, p)
    ensures Owner(before, p + 1) == Owner(after, p)
    ensures forall i :: 0 <= i < p ==> KeyAt(after, h, key, i) == KeyAt(before, h, key, i)
  {
    OwnerStep(before, p);
    assert IsKey(before[p], key);
    hide Owner, KeyAt;
    SamePrefixOwner(after, before, p, h, key);
  }

  lemma RemovedKeyAt(before: seq<Item>, after: seq<Item>, p: nat, h: string, key: string)
    requires Removed(before, after, p) && KeyAt(before, h, key, p)
    ensures forall i :: 0 <= i < p ==> KeyAt(after, h, key, i) == KeyAt(before, h, key, i)
    ensures forall i :: p <= i < |after| ==> KeyAt(after, h, key, i) == KeyAt(before, h, key, i + 1)
  {
    RemovedOwners(before, after, p, h, key);
    hide Owner, KeyAt;
    SameOwner(after, p, |after|, before, 1, h, key);
  }

  /** Above the last binding nothing changes, and below it there is none. */
  lemma RemovedLastKey(before: seq<Item>, after: seq<Item>, p: nat, h: string, key: string)
    requires Removed(before, after, p) && LastKey(before, h, key, |before|) == Some(p)
    ensures forall i :: 0 <= i < p ==> KeyAt(after, h, key, i) == KeyAt(before, h, key, i)
    ensures forall i :: p <= i < |after| ==> !KeyAt(after, h, key, i)
  {
    RemovedKeyAt(before, after, p, h, key);
    hide KeyAt, LastKey;
  }

  lemma RemovedKeys(before: seq<Item>, after: seq<Item>, p: nat, h: string, key: string)
    requires Removed(before, after, p) && LastKey(before, h, key, |before|) == Some(p)
    ensures var f := FirstKey(before, h, key, |before|).value;
            FirstKey(after, h, key, |after|) == if f == p then None else Some(f)
  {
    var f := FirstKey(before, h, key, |before|).value;
    RemovedLastKey(before, after, p, h, key);
    hide Owner, FirstKey, LastKey, KeyAt, Removed;
    if f < p {
      FirstStays(before, after, p, h, key, f);
    } else {
      FirstGone(before, after, p, h, key);
    }
  }

  lemma FirstStays(before: seq<Item>, after: seq<Item>, p: nat, h: string, key: string, f: nat)
    requires f < p <= |after| && p <= |before| && FirstKey(before, h, key, |before|) == Some(f)
    requires forall i :: 0 <= i < p ==> KeyAt(after, h, key, i) == KeyAt(before, h, key, i)
    ensures FirstKey(after, h, key, |after|) == Some(f)
  {
    hide FirstKey, KeyAt;
    var g := FirstKey(after, h, key, |after|);
    assert KeyAt(after, h, key, f);
    assert g.Some? && g.value <= f;
    assert KeyAt(before, h, key, g.value);
  }

  lemma FirstGone(before: seq<Item>, after: seq<Item>, p: nat, h: string, key: string)
    requires p <= |after| && p < |before| && FirstKey(before, h, key, |before|) == Some(p)
    requires forall i :: 0 <= i < p ==> KeyAt(after, h, key, i) == KeyAt(before, h, key, i)
    requires forall i :: p <= i < |after| ==> !KeyAt(after, h, key, i)
    ensures FirstKey(after, h, key, |after|) == None
  {
    hide FirstKey, KeyAt;
    forall i: nat | i < |after|
      ensures !KeyAt(after, h, key, i)
    {
      if i < p { assert !KeyAt(before, h, key, i); }
    }
  }

  // ----- deleting a section -----

  /** The lines `a..e` are one header `h` with everything up to the next header. */
  ghost predicate Block(items: seq<Item>, h: string, a: nat, e: nat)
  {
    && a < e <= |items| && items[a] == Header(h)
    && (forall i :: a < i < e ==> !items[i].Header?)
    && (e < |items| ==> items[e].Header?)
  }

  /** The block hides from `get` a continuation of the section `h'` that it reads. */
  ghost predicate Merges(items: seq<Item>, h': string, a: nat, e: nat)
    requires a <= e <= |items|
  {
    PhaseAt(items, h', a) == In && e < |items| && items[e] == Header(h')
  }

  lemma {:induction false} BlockState(items: seq<Item>, h: string, a: nat, e: nat, n: nat, h': string, key: string)
    requires Block(items, h, a, e) && a < n <= e && h' != h
    ensures At(items, h', key, n) ==
            (Some(h), if PhaseAt(items, h', a) == In then Done else PhaseAt(items, h', a), Hit(items, h', key, a))
  {
    if a + 1 < n {
      BlockState(items, h, a, e, n - 1, h', key);
    }
  }

  /** Deleting a block leaves every lookup in another section as it was, unless the two parts of
      that section around the block merge. */
  lemma BlockKeepsOthers(before: seq<Item>, h: string, a: nat, e: nat, h': string, key: string)
    requires Block(before, h, a, e) && h' != h && !Merges(before, h', a, e)
    ensures Get(before[..a] + before[e..], h', key) == Get(before, h', key)
  {
    var after := before[..a] + before[e..];
    AtStart(after, before, h', key);
    SameTail(after, 0, a, before, 0, h', key);
    BlockState(before, h, a, e, e, h', key);
    if e < |before| {
      assert At(after, h', key, a + 1) == At(before, h', key, e + 1);
      hide Owner, PhaseAt, Hit;
      SameTail(after, a + 1, |after|, before, e - a, h', key);
    }
  }

  /** When they merge, `get` reads on in the second part. */
  lemma BlockMerges(before: seq<Item>, h: string, a: nat, e: nat, h': string, key: string)
    requires Block(before, h, a, e) && h' != h && Merges(before, h', a, e)
    ensures Get(before[..a] + before[e..], h', key) ==
            if Get(before, h', key).Some? then Get(before, h', key) else Get(before[e..], h', key)
  {
    var after, rest := before[..a] + before[e..], before[e..];
    AtStart(after, before, h', key);
    SameTail(after, 0, a, before, 0, h', key);
    BlockState(before, h, a, e, e, h', key);
    HitFrozen(before, h', key, e, |before|);
    if Hit(before, h', key, a).Some? {
      HitFrozen(after, h', key, a, |after|);
    } else {
      assert after[a] == before[e] == rest[0];
      assert PhaseAt(rest, h', 0) == Before && Hit(rest, h', key, 0) == None;
      assert PhaseAt(after, h', a) == In && Hit(after, h', key, a) == None;
      assert Owner(after, a + 1) == Owner(rest, 1);
      assert PhaseAt(after, h', a + 1) == PhaseAt(rest, h', 1);
      assert Hit(after, h', key, a + 1) == Hit(rest, h', key, 1);
      var d: int := 0 - a;
      hide Owner, PhaseAt, Hit;
      SameTail(after, a + 1, |after|, rest, d, h', key);
    }
  }

  /** Deleting the only piece of a section leaves nothing to read in it. */
  lemma BlockGone(before: seq<Item>, h: string, a: nat, e: nat, key: string)
    requires Block(before, h, a, e) && forall i :: 0 <= i < |before| && i != a ==> before[i] != Header(h)
    ensures Get(before[..a] + before[e..], h, key).None?
  {
    var after := before[..a] + before[e..];
    HitIsFirst(after, h, key, |after|);
    NoHeaderNoKey(after, h, key);
  }

  /** Before the first header `h`, and without one, `get` finds nothing more. */
  lemma {:induction false} NothingMore(items: seq<Item>, h: string, key: string, i: nat, n: nat)
    requires i <= n <= |items| && PhaseAt(items, h, i) == Before && forall j :: i <= j < n ==> items[j] != Header(h)
    ensures PhaseAt(items, h, n) == Before && Hit(items, h, key, n) == Hit(items, h, key, i)
  {
    if i < n {
      NothingMore(items, h, key, i, n - 1);
    }
  }

  /** Without its last block, a section reads as the lines above that block. */
  lemma BlockPrefix(before: seq<Item>, h: string, a: nat, e: nat, key: string)
    requires Block(before, h, a, e) && forall i :: e <= i < |before| ==> before[i] != Header(h)
    ensures Get(before[..a] + before[e..], h, key) == Get(before[..a], h, key)
  {
    var after, above := before[..a] + before[e..], before[..a];
    AtStart(after, above, h, key);
    SameTail(after, 0, a, above, 0, h, key);
    if PhaseAt(after, h, a) == Before {
      NothingMore(after, h, key, a, |after|);
    } else if e < |before| {
      assert after[a] == before[e];
      assert PhaseAt(after, h, a + 1) == Done && Hit(after, h, key, a + 1) == Hit(after, h, key, a);
      HitFrozen(after, h, key, a + 1, |after|);
    }
  }
}
