/** The positions that Tab completion offers in the dialogs of the WAL viewer (src/walinfo.c): they are looked
    up anew at every press, cut off, and then compared with the other position field. */
module Candidates {
  import opened Bytes
  import opened Text
  import opened LsnText
  import opened Completion

  const MAX_CANDIDATES := 64
  const START_FIELD := 1
  const END_FIELD := 2

  /** What the other position field asks for. */
  datatype Bound = Free | Over(lsn: U64) | Under(lsn: U64)

  predicate Inside(v: string, b: Bound)
  {
    match b
    case Free => true
    case Over(lsn) => StringToLsn(v) > lsn
    case Under(lsn) => StringToLsn(v) < lsn
  }

  /** A field that is blank or holds no position other than zero asks for nothing. */
  function BoundOf(field: nat, start: string, end: string): Bound
  {
    if field == END_FIELD && !AllSpace(start) && StringToLsn(start) != 0 then Over(StringToLsn(start))
    else if field == START_FIELD && !AllSpace(end) && StringToLsn(end) != 0 then Under(StringToLsn(end))
    else Free
  }

  predicate HasPrefix(v: string, prefix: string)
  {
    |prefix| <= |v| && v[..|prefix|] == prefix
  }

  predicate AllHave(keys: seq<string>, prefix: string)
  {
    forall i :: 0 <= i < |keys| ==> HasPrefix(keys[i], prefix)
  }

  /** The keys with a prefix, in the order of the index. */
  function Prefixed(keys: seq<string>, prefix: string): (r: seq<string>)
    ensures |r| <= |keys|
  {
    if keys == [] then []
    else
      var last := keys[|keys| - 1];
      Prefixed(keys[..|keys| - 1], prefix) + if HasPrefix(last, prefix) then [last] else []
  }

  /** The keys within the bound. */
  function Bounded(keys: seq<string>, b: Bound): (r: seq<string>)
    ensures |r| <= |keys|
  {
    if keys == [] then []
    else
      var last := keys[|keys| - 1];
      Bounded(keys[..|keys| - 1], b) + if Inside(last, b) then [last] else []
  }

  function Firsts(s: seq<string>, n: nat): (r: seq<string>)
    ensures |r| <= n && |r| <= |s|
  {
    if |s| <= n then s else s[..n]
  }

  /** What the index is searched for. */
  function PrefixOf(partial: string): string
  {
    Upper(Print(partial, 256))
  }

  /** The candidates for a partial text: of the first keys with its prefix, those within the bound. */
  function Offers(keys: seq<string>, b: Bound, partial: string): seq<string>
  {
    Bounded(Firsts(Prefixed(keys, PrefixOf(partial)), MAX_CANDIDATES), b)
  }

  /** Without any key there is no list at all. */
  function Known(keys: seq<string>, b: Bound, partial: string): Option<seq<string>>
  {
    if keys == [] then None else Some(Offers(keys, b, partial))
  }

  // ----- the lookup -----

  lemma PrefixedNext(keys: seq<string>, prefix: string, i: nat)
    requires i < |keys|
    ensures Prefixed(keys[..0], prefix) == []
    ensures Prefixed(keys[..i + 1], prefix) ==
            Prefixed(keys[..i], prefix) + if HasPrefix(keys[i], prefix) then [keys[i]] else []
  {
    hide HasPrefix;
    assert keys[..i + 1][..i] == keys[..i];
  }

  lemma BoundedNext(keys: seq<string>, b: Bound, i: nat)
    requires i < |keys|
    ensures Bounded(keys[..i + 1], b) == Bounded(keys[..i], b) + if Inside(keys[i], b) then [keys[i]] else []
  {
    hide Inside;
    assert keys[..i + 1][..i] == keys[..i];
  }

  lemma Nothing(prefix: string, b: Bound)
    ensures Prefixed([], prefix) == [] && Bounded([], b) == []
  {}

  lemma {:induction false} PrefixedGrows(keys: seq<string>, prefix: string, i: nat)
    requires i <= |keys|
    ensures Prefixed(keys, prefix) == Prefixed(keys[..i], prefix) + Prefixed(keys[i..], prefix)
  {
    assert keys[..i] + keys[i..] == keys;
    PrefixedConcat(keys[..i], keys[i..], prefix);
  }

  /** The search of the index stops when there is no room for more keys. */
  method PrefixSearch(keys: seq<string>, prefix: string, matches: array<string>) returns (count: nat)
    requires matches.Length == MAX_CANDIDATES
    modifies matches
    ensures count <= MAX_CANDIDATES && matches[..count] == Firsts(Prefixed(keys, prefix), MAX_CANDIDATES)
  {
    hide HasPrefix, Prefixed;
    count := 0;
    Nothing(prefix, Free);
    for i := 0 to |keys|
      invariant count <= MAX_CANDIDATES && matches[..count] == Prefixed(keys[..i], prefix)
    {
      PrefixedNext(keys, prefix, i);
      if HasPrefix(keys[i], prefix) {
        if count >= MAX_CANDIDATES {
          PrefixedGrows(keys, prefix, i);
          return;
        }
        matches[count] := keys[i];
        count := count + 1;
      }
    }
    assert keys[..|keys|] == keys;
  }

  /** Moves the candidates within the bound to the front. */
  method DropOutside(results: array<string>, count: nat, b: Bound) returns (valid: nat)
    requires count <= results.Length
    modifies results
    ensures valid <= count && results[..valid] == Bounded(old(results[..count]), b)
  {
    hide Inside, Bounded;
    ghost var all := results[..count];
    valid := 0;
    Nothing("", b);
    assert all[..0] == [];
    for i := 0 to count
      invariant valid <= i && results[..valid] == Bounded(all[..i], b)
      invariant forall k :: i <= k < count ==> results[k] == all[k]
    {
      BoundedNext(all, b, i);
      ghost var kept := results[..valid];
      if Inside(results[i], b) {
        if valid != i {
          results[valid] := results[i];
        }
        assert results[..valid + 1] == kept + [all[i]];
        valid := valid + 1;
      }
    }
    assert all[..count] == all;
  }

  lemma {:induction false} FreeKeeps(keys: seq<string>)
    ensures Bounded(keys, Free) == keys
  {
    if keys != [] {
      FreeKeeps(keys[..|keys| - 1]);
    }
  }

  /** The known values of a position field. */
  method KnownPositions(keys: seq<string>, field: nat, partial: string, start: string, end: string)
      returns (known: Option<seq<string>>)
    ensures known == Known(keys, BoundOf(field, start, end), partial)
  {
    hide Prefixed, Bounded, StringToLsn, AllSpace;
    if |keys| == 0 {
      return None;
    }
    var results := new string[MAX_CANDIDATES];
    var count := PrefixSearch(keys, PrefixOf(partial), results);
    FreeKeeps(results[..count]);
    if field == END_FIELD && !AllSpace(start) {
      var lsn := StringToLsn(start);
      if lsn != 0 {
        count := DropOutside(results, count, Over(lsn));
      }
    }
    if field == START_FIELD && !AllSpace(end) {
      var lsn := StringToLsn(end);
      if lsn != 0 {
        count := DropOutside(results, count, Under(lsn));
      }
    }
    known := Some(results[..count]);
  }

  // ----- the Tab key in a position field -----

  /** One press of Tab: the list is that of the seed, or of the text when there is no seed yet. */
  function Press(keys: seq<string>, b: Bound, s: FieldState, size: nat): FieldState
    requires 0 < size
  {
    var known := Known(keys, b, if s.active then s.seed else s.input);
    if known.None? then s else Tab(known.value, s, size)
  }

  function Presses(keys: seq<string>, b: Bound, s: FieldState, size: nat, n: nat): FieldState
    requires 0 < size
  {
    if n == 0 then s else Press(keys, b, Presses(keys, b, s, size, n - 1), size)
  }

  /** Handles the Tab key in a position field. */
  method HandlePosition(f: Field, keys: seq<string>, field: nat, start: string, end: string)
    requires 0 < f.size
    modifies f
    ensures f.State() == Press(keys, BoundOf(field, start, end), old(f.State()), f.size)
  {
    hide Known, BoundOf, Tab;
    var known := KnownPositions(keys, field, if f.active then f.seed else f.input, start, end);
    f.HandleTab(known);
  }

  // ----- filters -----

  lemma {:induction false} PrefixedConcat(a: seq<string>, c: seq<string>, prefix: string)
    ensures Prefixed(a + c, prefix) == Prefixed(a, prefix) + Prefixed(c, prefix)
  {
    hide HasPrefix;
    if c == [] {
      assert a + c == a;
    } else {
      assert (a + c)[..|a + c| - 1] == a + c[..|c| - 1];
      PrefixedConcat(a, c[..|c| - 1], prefix);
    }
  }

  lemma {:induction false} BoundedConcat(a: seq<string>, c: seq<string>, b: Bound)
    ensures Bounded(a + c, b) == Bounded(a, b) + Bounded(c, b)
  {
    hide Inside;
    if c == [] {
      assert a + c == a;
    } else {
      assert (a + c)[..|a + c| - 1] == a + c[..|c| - 1];
      BoundedConcat(a, c[..|c| - 1], b);
    }
  }

  /** A longer prefix can be searched for among the keys with a shorter one. */
  lemma {:induction false} PrefixedTwice(keys: seq<string>, t: string, p: string)
    requires HasPrefix(p, t)
    ensures Prefixed(Prefixed(keys, t), p) == Prefixed(keys, p)
  {
    if keys != [] {
      var front, last := keys[..|keys| - 1], keys[|keys| - 1];
      PrefixedTwice(front, t, p);
      PrefixedConcat(Prefixed(front, t), if HasPrefix(last, t) then [last] else [], p);
      OneKey(last, p);
      if HasPrefix(last, p) {
        assert last[..|t|] == p[..|t|];
      }
    }
  }

  lemma OneKey(v: string, prefix: string)
    ensures Prefixed([], prefix) == [] && Prefixed([v], prefix) == if HasPrefix(v, prefix) then [v] else []
  {
    hide HasPrefix;
    assert [v][..0] == [];
  }

  lemma {:induction false} PrefixedBounded(keys: seq<string>, p: string, b: Bound)
    ensures Bounded(Prefixed(keys, p), b) == Prefixed(Bounded(keys, b), p)
  {
    hide HasPrefix, Inside;
    if keys != [] {
      var front, last := keys[..|keys| - 1], keys[|keys| - 1];
      PrefixedBounded(front, p, b);
      OneKey(last, p);
      OneBounded(last, b);
      PrefixedConcat(Bounded(front, b), if Inside(last, b) then [last] else [], p);
      BoundedConcat(Prefixed(front, p), if HasPrefix(last, p) then [last] else [], b);
    }
  }

  lemma OneBounded(v: string, b: Bound)
    ensures Bounded([], b) == [] && Bounded([v], b) == if Inside(v, b) then [v] else []
  {
    hide Inside;
    assert [v][..0] == [];
  }

  lemma {:induction false} PrefixedAll(keys: seq<string>, p: string)
    requires AllHave(keys, p)
    ensures Prefixed(keys, p) == keys
  {
    hide HasPrefix;
    if keys != [] {
      PrefixedAll(keys[..|keys| - 1], p);
    }
  }

  lemma {:induction false} PrefixedMeaning(keys: seq<string>, p: string, v: string)
    ensures v in Prefixed(keys, p) <==> v in keys && HasPrefix(v, p)
  {
    hide HasPrefix;
    if keys != [] {
      PrefixedMeaning(keys[..|keys| - 1], p, v);
      assert keys == keys[..|keys| - 1] + [keys[|keys| - 1]];
    }
  }

  lemma {:induction false} BoundedMeaning(keys: seq<string>, b: Bound, v: string)
    ensures v in Bounded(keys, b) <==> v in keys && Inside(v, b)
  {
    hide Inside;
    if keys != [] {
      BoundedMeaning(keys[..|keys| - 1], b, v);
      assert keys == keys[..|keys| - 1] + [keys[|keys| - 1]];
    }
  }

  // ----- what an extension does to the list -----

  /** The keys within the bound that come into the list only when the text `t` is extended to `p`: behind the
      first keys with the shorter prefix, and among the first ones with the longer prefix. */
  function Later(keys: seq<string>, b: Bound, t: string, p: string): seq<string>
  {
    var all := Prefixed(keys, t);
    var front := Firsts(all, MAX_CANDIDATES);
    Bounded(Firsts(Prefixed(all[|front|..], p), MAX_CANDIDATES - |Prefixed(front, p)|), b)
  }

  /** Extending the prefix to one that all candidates have keeps them all, and adds the later ones. */
  lemma LongerPrefix(keys: seq<string>, b: Bound, t: string, p: string)
    requires HasPrefix(p, t)
    requires AllHave(Bounded(Firsts(Prefixed(keys, t), MAX_CANDIDATES), b), p)
    ensures Bounded(Firsts(Prefixed(keys, p), MAX_CANDIDATES), b) ==
            Bounded(Firsts(Prefixed(keys, t), MAX_CANDIDATES), b) + Later(keys, b, t, p)
  {
    hide Prefixed, Bounded, HasPrefix, AllHave;
    var all := Prefixed(keys, t);
    var front := Firsts(all, MAX_CANDIDATES);
    var rest := all[|front|..];
    var a, r := Prefixed(front, p), Prefixed(rest, p);
    assert all == front + rest;
    PrefixedTwice(keys, t, p);
    PrefixedConcat(front, rest, p);
    assert Firsts(a + r, MAX_CANDIDATES) == a + Firsts(r, MAX_CANDIDATES - |a|);
    BoundedConcat(a, Firsts(r, MAX_CANDIDATES - |a|), b);
    PrefixedBounded(front, p, b);
    PrefixedAll(Bounded(front, b), p);
  }

  /** Nothing comes later when the other field asks for nothing, or when no key was cut off. */
  lemma NothingLater(keys: seq<string>, b: Bound, t: string, p: string)
    requires AllHave(Bounded(Firsts(Prefixed(keys, t), MAX_CANDIDATES), b), p)
    requires b.Free? || |Prefixed(keys, t)| <= MAX_CANDIDATES
    ensures Later(keys, b, t, p) == []
  {
    hide Prefixed, Bounded, AllHave;
    var all := Prefixed(keys, t);
    var front := Firsts(all, MAX_CANDIDATES);
    NoRoomOrRest(front, all[|front|..], b, p);
  }

  lemma NoRoomOrRest(front: seq<string>, rest: seq<string>, b: Bound, p: string)
    requires rest == [] || (|front| == MAX_CANDIDATES && b == Free)
    requires AllHave(Bounded(front, b), p) && |Prefixed(front, p)| <= MAX_CANDIDATES
    ensures Bounded(Firsts(Prefixed(rest, p), MAX_CANDIDATES - |Prefixed(front, p)|), b) == []
  {
    hide Prefixed, Bounded, AllHave;
    Nothing(p, b);
    if rest != [] {
      FreeKeeps(front);
      PrefixedAll(front, p);
      assert Firsts(Prefixed(rest, p), 0) == [];
    }
  }

  // ----- positions as keys -----

  /** The keys of the index: texts of positions. */
  ghost predicate AllPositions(keys: seq<string>)
  {
    forall v :: v in keys ==> IsLsnText(v)
  }

  predicate NoLower(s: string)
  {
    forall i :: 0 <= i < |s| ==> !('a' <= s[i] <= 'z')
  }

  lemma {:induction false} HexNoLower(n: nat)
    ensures NoLower(Hex(n))
  {
    if 16 <= n {
      HexNoLower(n / 16);
    }
  }

  lemma PositionShape(v: string)
    requires IsLsnText(v)
    ensures NoLower(v) && |v| <= 17
  {
    hide Hex;
    var lsn: U64 :| v == LsnToString(lsn);
    HexNoLower(lsn / 0x1_0000_0000);
    HexNoLower(lsn % 0x1_0000_0000);
    LsnLength(lsn);
  }

  lemma UpperSame(s: string)
    requires NoLower(s)
    ensures Upper(s) == s
  {}

  /** Without lower-case letters, starting with a text in either case is having it as a prefix. */
  lemma StartsExactly(v: string, p: string)
    requires NoLower(v) && NoLower(p) && Starts(v, p)
    ensures HasPrefix(v, p)
  {}

  /** A key with the prefix that is searched for starts with the typed text. */
  lemma PrefixStarts(v: string, typed: string)
    requires HasPrefix(v, PrefixOf(typed)) && |v| <= 17
    ensures |typed| <= 17 && Starts(v, typed)
  {
    forall i | 0 <= i < |typed|
      ensures ToLower(v[i]) == ToLower(typed[i])
    {
      assert v[i] == PrefixOf(typed)[i] == ToUpper(typed[i]);
    }
  }

  /** Every candidate is a key with the prefix. */
  lemma OfferShape(keys: seq<string>, b: Bound, typed: string)
    requires AllPositions(keys)
    ensures forall v :: v in Offers(keys, b, typed) ==>
              v in keys && HasPrefix(v, PrefixOf(typed)) && Starts(v, typed) && NoLower(v) && |v| <= 17
  {
    hide Starts, HasPrefix, NoLower, IsLsnText, Inside, Prefixed, Bounded, PrefixOf;
    var found := Prefixed(keys, PrefixOf(typed));
    forall v | v in Offers(keys, b, typed)
      ensures v in keys && HasPrefix(v, PrefixOf(typed)) && Starts(v, typed) && NoLower(v) && |v| <= 17
    {
      BoundedMeaning(Firsts(found, MAX_CANDIDATES), b, v);
      PrefixedMeaning(keys, PrefixOf(typed), v);
      PositionShape(v);
      PrefixStarts(v, typed);
    }
  }

  lemma {:induction false} AllMatch(values: seq<string>, typed: string)
    requires forall i :: 0 <= i < |values| ==> Starts(values[i], typed)
    ensures MatchesOf(values, typed) == values
  {
    hide Starts;
    if values != [] {
      AllMatch(values[..|values| - 1], typed);
    }
  }

  /** The extension of a typed position is searched for as it is, and all candidates have it as a prefix. */
  lemma ExtensionIsPrefix(keys: seq<string>, b: Bound, typed: string)
    requires AllPositions(keys) && Extension(Offers(keys, b, typed), typed).Some?
    ensures var c, p := Offers(keys, b, typed), Extension(Offers(keys, b, typed), typed).value;
            && MatchesOf(c, typed) == c && c != [] && |p| <= 17 && PrefixOf(p) == p && HasPrefix(p, PrefixOf(typed))
            && AllHave(c, p)
  {
    hide Offers, PrefixOf, Starts, MatchesOf, NoLower, Extension, HasPrefix;
    var c := Offers(keys, b, typed);
    OfferShape(keys, b, typed);
    AllMatch(c, typed);
    ExtensionMeaning(c, typed);
    var p := Extension(c, typed).value;
    FrontShape(c[0], p, typed);
    forall i | 0 <= i < |c|
      ensures HasPrefix(c[i], p)
    {
      StartsExactly(c[i], p);
    }
  }

  /** The front of a key, if it starts with the typed text. */
  lemma FrontShape(v: string, p: string, typed: string)
    requires NoLower(v) && |v| <= 17 && p <= v && Starts(p, typed) && HasPrefix(v, PrefixOf(typed))
    ensures NoLower(p) && |p| <= 17 && PrefixOf(p) == p && HasPrefix(p, PrefixOf(typed))
  {
    hide ToLower;
    assert p == v[..|p|];
    UpperSame(p);
    assert p[..|PrefixOf(typed)|] == v[..|PrefixOf(typed)|];
  }

  /** Extending a text to what its candidates have in common keeps all candidates and adds the later ones. */
  lemma OffersAfter(keys: seq<string>, b: Bound, typed: string)
    requires AllPositions(keys) && Extension(Offers(keys, b, typed), typed).Some?
    ensures var p := Extension(Offers(keys, b, typed), typed).value;
            Offers(keys, b, p) == Offers(keys, b, typed) + Later(keys, b, PrefixOf(typed), p)
  {
    hide PrefixOf, Extension, Prefixed, Bounded, HasPrefix, AllHave, Later;
    var p := Extension(Offers(keys, b, typed), typed).value;
    ExtensionIsPrefix(keys, b, typed);
    LongerPrefix(keys, b, PrefixOf(typed), p);
  }

  /** The extension cannot be extended again, whatever comes later. */
  lemma ExtendedOnce(keys: seq<string>, b: Bound, typed: string)
    requires AllPositions(keys) && Extension(Offers(keys, b, typed), typed).Some?
    ensures var p := Extension(Offers(keys, b, typed), typed).value;
            var c := Offers(keys, b, p);
            !Extends(c, p) && MatchesOf(c, p) == c && c != []
  {
    hide Offers, PrefixOf, Starts, MatchesOf, NoLower, CommonPrefix, HasPrefix, AllHave, Later;
    var c := Offers(keys, b, typed);
    var p := Extension(c, typed).value;
    ExtensionIsPrefix(keys, b, typed);
    OffersAfter(keys, b, typed);
    var all := Offers(keys, b, p);
    assert all == c + Later(keys, b, PrefixOf(typed), p);
    OfferShape(keys, b, p);
    AllMatch(all, p);
    var q := CommonPrefix(all);
    CommonPrefixOfFirst(all);
    assert q == c[0][..|q|];
    forall i | 0 <= i < |c|
      ensures Starts(c[i], c[0][..|q|])
    {
      assert all[i] == c[i];
      CommonPrefixIsCommon(all, i);
    }
    CommonPrefixIsLongest(c, |q|);
  }

  // ----- whole runs of the key -----

  lemma {:induction false} PressesFrom(keys: seq<string>, b: Bound, s: FieldState, size: nat, m: nat, n: nat)
    requires 0 < size
    ensures Presses(keys, b, s, size, m + n) == Presses(keys, b, Presses(keys, b, s, size, m), size, n)
  {
    hide Press;
    if 0 < n {
      PressesFrom(keys, b, s, size, m, n - 1);
    }
  }

  /** When nothing is left to extend, the keys show the candidates for the text one after the other. */
  lemma {:induction false} PositionsCycle(keys: seq<string>, b: Bound, s: FieldState, size: nat, k: nat)
    requires keys != [] && 0 < size && !s.active && |s.input| < SEED_SIZE
    requires !Extends(Offers(keys, b, s.input), s.input)
    ensures Presses(keys, b, s, size, k + 1) == Tabs(Offers(keys, b, s.input), s, size, k + 1)
    ensures Presses(keys, b, s, size, k + 1).active && Presses(keys, b, s, size, k + 1).seed == s.input
  {
    hide Offers, Extends, MatchesOf, Tab;
    var c := Offers(keys, b, s.input);
    TabCycles(c, s, size, k);
    if k == 0 {
      assert Presses(keys, b, s, size, 0) == s && Tabs(c, s, size, 0) == s;
    } else {
      PositionsCycle(keys, b, s, size, k - 1);
    }
  }

  lemma FirstPress(keys: seq<string>, b: Bound, s: FieldState, size: nat)
    requires keys != [] && 0 < size && !s.active && Extends(Offers(keys, b, s.input), s.input)
    requires |Extension(Offers(keys, b, s.input), s.input).value| < size
    ensures Presses(keys, b, s, size, 1) == s.(input := Extension(Offers(keys, b, s.input), s.input).value)
  {
    hide Offers, Extension;
    assert Presses(keys, b, s, size, 0) == s;
  }

  /** The state while the keys cycle through a list, at press number `k` of the cycle. */
  function Showing(c: seq<string>, seed: string, k: nat): FieldState
    requires c != []
  {
    FieldState(c[k % |c|], true, k % |c| + 1, seed)
  }

  /** A cycle through candidates, none of which is cut. */
  lemma CycleShows(c: seq<string>, p: string, s: FieldState, size: nat, k: nat)
    requires LSN_FIELD <= size && !s.active && s.input == p && |p| < SEED_SIZE && !Extends(c, p)
    requires c != [] && MatchesOf(c, p) == c && forall v :: v in c ==> |v| <= 17
    ensures Tabs(c, s, size, k + 1) == Showing(c, p, k)
  {
    hide MatchesOf, Extends, Tabs;
    TabCycles(c, s, size, k);
    assert c[k % |c|] in c;
  }

  /** After the first press, the keys cycle through the candidates for the extended text. */
  lemma ExtendedCycles(keys: seq<string>, b: Bound, typed: string, next: FieldState, size: nat, k: nat)
    requires AllPositions(keys) && keys != [] && LSN_FIELD <= size && !next.active
    requires Extension(Offers(keys, b, typed), typed) == Some(next.input)
    ensures Offers(keys, b, next.input) != []
    ensures Presses(keys, b, next, size, k + 1) == Showing(Offers(keys, b, next.input), next.input, k)
  {
    hide Offers, MatchesOf, Extension, Extends, Starts, NoLower, HasPrefix, AllHave, Presses, Tabs, PrefixOf, Showing;
    ExtensionIsPrefix(keys, b, typed);
    ExtendedOnce(keys, b, typed);
    PositionsCycle(keys, b, next, size, k);
    OfferShape(keys, b, next.input);
    CycleShows(Offers(keys, b, next.input), next.input, next, size, k);
  }

  /** The first press completes a text that can be extended, and the presses after it show the candidates for
      the extended text: those for the typed text and behind them the later ones. */
  lemma ExtendThenCycleAll(keys: seq<string>, b: Bound, s: FieldState, size: nat, k: nat)
    requires AllPositions(keys) && keys != [] && LSN_FIELD <= size && !s.active
    requires Extends(Offers(keys, b, s.input), s.input)
    ensures var p := Extension(Offers(keys, b, s.input), s.input).value;
            var c := Offers(keys, b, s.input) + Later(keys, b, PrefixOf(s.input), p);
            && Presses(keys, b, s, size, 1) == s.(input := p) && c != []
            && Presses(keys, b, s, size, k + 2) == Showing(c, p, k)
  {
    var p := Extension(Offers(keys, b, s.input), s.input).value;
    hide Offers, MatchesOf, Later, PrefixOf, Extension, Starts, NoLower, HasPrefix, AllHave, Presses, Tabs, Showing;
    hide AllPositions;
    ExtensionIsPrefix(keys, b, s.input);
    OffersAfter(keys, b, s.input);
    FirstPress(keys, b, s, size);
    PressesFrom(keys, b, s, size, 1, k + 1);
    ExtendedCycles(keys, b, s.input, s.(input := p), size, k);
  }

  /** So the list of the first press is the one that is cycled through if and only if nothing comes later; in
      particular when the other field asks for nothing, or at most 64 keys start with the typed text. */
  lemma SameList(keys: seq<string>, b: Bound, typed: string)
    requires AllPositions(keys) && Extension(Offers(keys, b, typed), typed).Some?
    ensures var p := Extension(Offers(keys, b, typed), typed).value;
            && (Offers(keys, b, p) == Offers(keys, b, typed) <==> Later(keys, b, PrefixOf(typed), p) == [])
            && (b.Free? || |Prefixed(keys, PrefixOf(typed))| <= MAX_CANDIDATES ==>
                Later(keys, b, PrefixOf(typed), p) == [])
  {
    hide PrefixOf, Extension, Prefixed, Bounded, HasPrefix, AllHave, Later;
    var p := Extension(Offers(keys, b, typed), typed).value;
    OffersAfter(keys, b, typed);
    ExtensionIsPrefix(keys, b, typed);
    if b.Free? || |Prefixed(keys, PrefixOf(typed))| <= MAX_CANDIDATES {
      NothingLater(keys, b, PrefixOf(typed), p);
    }
  }

  // ----- a list that changes -----

  /** The texts of consecutive positions. */
  function Positions(a: nat, c: nat): (keys: seq<string>)
    requires a <= c <= 0x1_0000_0000
    ensures |keys| == c - a
  {
    if a == c then [] else Positions(a, c - 1) + [LsnToString(c - 1)]
  }

  lemma {:induction false} PositionsAt(a: nat, c: nat, i: nat)
    requires a <= c <= 0x1_0000_0000 && i < c - a
    ensures Positions(a, c)[i] == LsnToString(a + i)
  {
    hide LsnToString;
    if i < c - a - 1 {
      PositionsAt(a, c - 1, i);
    }
  }

  lemma {:induction false} PositionsSplit(a: nat, m: nat, c: nat)
    requires a <= m <= c <= 0x1_0000_0000
    ensures Positions(a, c) == Positions(a, m) + Positions(m, c)
  {
    hide LsnToString;
    if m < c {
      PositionsSplit(a, m, c - 1);
    }
  }

  lemma PositionsAreKeys(a: nat, c: nat)
    requires a <= c <= 0x1_0000_0000
    ensures AllPositions(Positions(a, c))
  {
    hide LsnToString;
    forall v | v in Positions(a, c)
      ensures IsLsnText(v)
    {
      var i :| 0 <= i < c - a && Positions(a, c)[i] == v;
      PositionsAt(a, c, i);
      var lsn: U64 := a + i;
      assert v == LsnToString(lsn);
    }
  }

  lemma {:induction false} PrefixedPositions(a: nat, c: nat, p: string, all: bool)
    requires a <= c <= 0x1_0000_0000
    requires forall x {:trigger LsnToString(x)} :: a <= x < c ==> (HasPrefix(LsnToString(x), p) <==> all)
    ensures Prefixed(Positions(a, c), p) == if all then Positions(a, c) else []
  {
    hide LsnToString, HasPrefix, Prefixed;
    Nothing(p, Free);
    if a < c {
      PrefixedPositions(a, c - 1, p, all);
      OneKey(LsnToString(c - 1), p);
      PrefixedConcat(Positions(a, c - 1), [LsnToString(c - 1)], p);
    }
  }

  lemma InsideOver(x: U64, lsn: U64)
    ensures Inside(LsnToString(x), Over(lsn)) <==> lsn < x
  {
    hide LsnToString, StringToLsn;
    LsnRoundTrip(x);
  }

  lemma {:induction false} BoundedPositions(a: nat, c: nat, lsn: U64, all: bool)
    requires a <= c <= 0x1_0000_0000 && if all then lsn < a else c <= lsn + 1
    ensures Bounded(Positions(a, c), Over(lsn)) == if all then Positions(a, c) else []
  {
    hide LsnToString, Inside, Bounded;
    Nothing("", Over(lsn));
    if a < c {
      var last := LsnToString(c - 1);
      BoundedPositions(a, c - 1, lsn, all);
      InsideOver(c - 1, lsn);
      OneBounded(last, Over(lsn));
      BoundedConcat(Positions(a, c - 1), [last], Over(lsn));
    }
  }

  lemma HexStep(n: nat)
    ensures Hex(n) == if n < 16 then [HexDigit(n)] else Hex(n / 16) + [HexDigit(n % 16)]
  {}

  lemma HexFour(x: nat)
    requires 0x1000 <= x < 0x2000
    ensures Hex(x) == "1" + [HexDigit(x / 256 % 16), HexDigit(x / 16 % 16), HexDigit(x % 16)]
  {
    hide Hex, HexDigit;
    var y, z := x / 16, x / 256;
    assert y / 16 == z && 16 <= z < 32 && z / 16 == 1;
    DigitsDiffer(1);
    HexStep(1);
    HexStep(z);
    HexStep(y);
    HexStep(x);
  }

  /** The text of a position of four digits that starts with 1. */
  lemma FourDigits(x: nat)
    requires 0x1000 <= x < 0x2000
    ensures LsnToString(x) == "0/1" + [HexDigit(x / 256 % 16), HexDigit(x / 16 % 16), HexDigit(x % 16)]
  {
    hide Hex, HexDigit;
    HexStep(0);
    DigitsDiffer(1);
    HexFour(x);
    assert x / 0x1_0000_0000 == 0 && x % 0x1_0000_0000 == x;
    var d, e, f := HexDigit(x / 256 % 16), HexDigit(x / 16 % 16), HexDigit(x % 16);
    assert "0" + "/" + ("1" + [d, e, f]) == "0/1" + [d, e, f];
  }

  lemma DigitsDiffer(d: nat)
    requires d < 16
    ensures HexDigit(0) == '0' && HexDigit(1) == '1' && (HexDigit(d) == '4' <==> d == 4)
  {}

  lemma Prefixes(x: nat)
    requires 0x1000 <= x < 0x1100
    ensures HasPrefix(LsnToString(x), "0/1")
    ensures HasPrefix(LsnToString(x), "0/104") <==> 0x1040 <= x < 0x1050
  {
    hide LsnToString, HexDigit;
    FourDigits(x);
    DigitsDiffer(x / 16 % 16);
    var v := LsnToString(x);
    assert x / 256 % 16 == 0;
    assert v[..3] == "0/1";
    assert v[..5] == "0/1" + ['0', HexDigit(x / 16 % 16)];
    assert v[..5][4] == HexDigit(x / 16 % 16) && "0/104"[4] == '4';
    assert HexDigit(x / 16 % 16) == '4' ==> v[..5] == "0/104";
    assert x / 16 % 16 == 4 <==> 0x1040 <= x < 0x1050;
  }

  /** The first list: the keys from 0/1044 to 0/1047. */
  lemma FirstList()
    ensures Offers(Positions(0x1008, 0x106C), Over(0x1043), "0/1") == Positions(0x1044, 0x1048)
  {
    hide LsnToString, HasPrefix, Prefixed, Bounded, Positions;
    var keys := Positions(0x1008, 0x106C);
    assert PrefixOf("0/1") == "0/1";
    forall x {:trigger LsnToString(x)} | 0x1008 <= x < 0x106C
      ensures HasPrefix(LsnToString(x), "0/1") <==> true
    {
      Prefixes(x);
    }
    PrefixedPositions(0x1008, 0x106C, "0/1", true);
    PositionsSplit(0x1008, 0x1048, 0x106C);
    assert Firsts(keys, MAX_CANDIDATES) == Positions(0x1008, 0x1048);
    PositionsSplit(0x1008, 0x1044, 0x1048);
    BoundedConcat(Positions(0x1008, 0x1044), Positions(0x1044, 0x1048), Over(0x1043));
    BoundedPositions(0x1008, 0x1044, 0x1043, false);
    BoundedPositions(0x1044, 0x1048, 0x1043, true);
  }

  /** The second list: those from 0/1044 to 0/104F. */
  lemma SecondList()
    ensures Offers(Positions(0x1008, 0x106C), Over(0x1043), "0/104") == Positions(0x1044, 0x1050)
  {
    hide LsnToString, HasPrefix, Prefixed, Bounded, Positions;
    assert PrefixOf("0/104") == "0/104";
    forall x {:trigger LsnToString(x)} | 0x1008 <= x < 0x106C
      ensures HasPrefix(LsnToString(x), "0/104") <==> 0x1040 <= x < 0x1050
    {
      Prefixes(x);
    }
    PrefixedPositions(0x1008, 0x1040, "0/104", false);
    PrefixedPositions(0x1040, 0x1050, "0/104", true);
    PrefixedPositions(0x1050, 0x106C, "0/104", false);
    PositionsSplit(0x1008, 0x1040, 0x106C);
    PositionsSplit(0x1040, 0x1050, 0x106C);
    PrefixedConcat(Positions(0x1008, 0x1040), Positions(0x1040, 0x106C), "0/104");
    PrefixedConcat(Positions(0x1040, 0x1050), Positions(0x1050, 0x106C), "0/104");
    assert Prefixed(Positions(0x1008, 0x106C), "0/104") == Positions(0x1040, 0x1050);
    assert Firsts(Positions(0x1040, 0x1050), MAX_CANDIDATES) == Positions(0x1040, 0x1050);
    PositionsSplit(0x1040, 0x1044, 0x1050);
    BoundedConcat(Positions(0x1040, 0x1044), Positions(0x1044, 0x1050), Over(0x1043));
    BoundedPositions(0x1040, 0x1044, 0x1043, false);
    BoundedPositions(0x1044, 0x1050, 0x1043, true);
  }

  lemma DigitText(i: nat)
    requires i < 10
    ensures LsnToString(0x1040 + i) == "0/104" + [Digit(i)]
  {
    hide LsnToString;
    FourDigits(0x1040 + i);
    assert (0x1040 + i) / 256 % 16 == 0 && (0x1040 + i) / 16 % 16 == 4 && (0x1040 + i) % 16 == i;
    assert HexDigit(0) == '0' && HexDigit(4) == '4' && HexDigit(i) == Digit(i);
  }

  lemma Literals()
    ensures "0/1043" == "0/104" + [Digit(3)] && "0/1044" == "0/104" + [Digit(4)] && "0/1045" == "0/104" + [Digit(5)]
    ensures "0/1046" == "0/104" + [Digit(6)] && "0/1047" == "0/104" + [Digit(7)] && "0/1048" == "0/104" + [Digit(8)]
  {}

  lemma FourTexts()
    ensures Positions(0x1044, 0x1048) == ["0/1044", "0/1045", "0/1046", "0/1047"]
  {
    hide LsnToString, Positions;
    var keys := Positions(0x1044, 0x1048);
    Literals();
    forall i: nat | i < 4
      ensures keys[i] == "0/104" + [Digit(4 + i)]
    {
      PositionsAt(0x1044, 0x1048, i);
      DigitText(4 + i);
    }
    assert keys == [keys[0], keys[1], keys[2], keys[3]];
  }

  lemma FourExtended()
    ensures Extension(["0/1044", "0/1045", "0/1046", "0/1047"], "0/1") == Some("0/104")
  {
    var c := ["0/1044", "0/1045", "0/1046", "0/1047"];
    Literals();
    StartsAll("0/104", Digit(4), "0/1");
    StartsAll("0/104", Digit(5), "0/1");
    StartsAll("0/104", Digit(6), "0/1");
    StartsAll("0/104", Digit(7), "0/1");
    hide Starts;
    AllMatch(c, "0/1");
    FrontOf("0/104", Digit(4));
    hide MatchesOf, CommonPrefix;
    CommonPrefixOfFirst(c);
    CommonPrefixIsCommon(c, 1);
    CommonPrefixIsLongest(c, 5);
    NotBoth("0/104", Digit(4), Digit(5), CommonPrefix(c));
  }

  lemma StartsAll(front: string, last: char, t: string)
    requires t <= front
    ensures Starts(front + [last], t) && Starts(front + [last], front)
  {
    assert t == front[..|t|];
  }

  lemma FrontOf(front: string, last: char)
    ensures (front + [last])[..|front|] == front
  {}

  lemma NotBoth(front: string, x: char, y: char, p: string)
    requires ToLower(x) != ToLower(y) && p <= front + [x] && Starts(front + [y], p) && |front| <= |p|
    ensures p == front
  {
    assert p == (front + [x])[..|p|];
    assert (front + [x])[|front|] == x && (front + [y])[|front|] == y;
    assert |p| == |front + [x]| ==> p == front + [x] && !Starts(front + [y], front + [x]);
  }

  /** The end field holds 0/1 and the start field 0/1043: the first press finds four positions and completes
      the text to 0/104; the sixth one shows 0/1048, which is not one of the four. */
  lemma ListChanges()
    ensures var keys, b := Positions(0x1008, 0x106C), BoundOf(END_FIELD, "0/1043", "");
            var s := FieldState("0/1", false, 0, "");
            && AllPositions(keys) && Offers(keys, b, "0/1") == ["0/1044", "0/1045", "0/1046", "0/1047"]
            && Presses(keys, b, s, LSN_FIELD, 1).input == "0/104"
            && Presses(keys, b, s, LSN_FIELD, 6).input == "0/1048"
  {
    hide Positions, Offers, Presses, Extension, MatchesOf, Later, LsnToString, PrefixOf, BoundOf, AllPositions;
    var keys, s := Positions(0x1008, 0x106C), FieldState("0/1", false, 0, "");
    StartBound();
    PositionsAreKeys(0x1008, 0x106C);
    FirstList();
    SecondList();
    FourTexts();
    FourExtended();
    OffersAfter(keys, Over(0x1043), "0/1");
    ExtendThenCycleAll(keys, Over(0x1043), s, LSN_FIELD, 4);
    PositionsAt(0x1044, 0x1050, 4);
    DigitText(8);
    Literals();
  }

  lemma StartBound()
    ensures BoundOf(END_FIELD, "0/1043", "") == Over(0x1043)
  {
    hide StringToLsn, LsnToString;
    DigitText(3);
    Literals();
    LsnRoundTrip(0x1043);
    assert !IsSpace("0/1043"[0]);
  }
}
