/** Tab completion in the dialogs of the WAL viewer (src/walinfo.c), over a list of known values. */
module Completion {
  import opened Bytes
  import opened Text
  import opened LsnText

  const SEED_SIZE := 128

  /** strncasecmp with the length of the typed text: `v` starts with it, in either case. */
  predicate Starts(v: string, typed: string)
  {
    |typed| <= |v| && forall i :: 0 <= i < |typed| ==> ToLower(v[i]) == ToLower(typed[i])
  }

  /** The values that start with the typed text, in order. */
  function MatchesOf(values: seq<string>, typed: string): (m: seq<string>)
    ensures |m| <= |values| && forall i :: 0 <= i < |m| ==> Starts(m[i], typed)
  {
    if values == [] then []
    else
      var last := values[|values| - 1];
      MatchesOf(values[..|values| - 1], typed) + if Starts(last, typed) then [last] else []
  }

  /** The number of leading characters that agree in either case. */
  function CommonLength(a: string, b: string): (n: nat)
    ensures n <= |a| && n <= |b| && forall i :: 0 <= i < n ==> ToLower(a[i]) == ToLower(b[i])
    ensures n < |a| && n < |b| ==> ToLower(a[n]) != ToLower(b[n])
  {
    if a == "" || b == "" || ToLower(a[0]) != ToLower(b[0]) then 0 else 1 + CommonLength(a[1..], b[1..])
  }

  /** The first text cut down to what it shares with each of the others. */
  function CommonPrefix(m: seq<string>): (p: string)
    requires m != []
    ensures |p| <= |m[0]|
  {
    if |m| == 1 then m[0]
    else
      var p := CommonPrefix(m[..|m| - 1]);
      p[..CommonLength(p, m[|m| - 1])]
  }

  function Extension(values: seq<string>, typed: string): Option<string>
  {
    if MatchesOf(values, typed) == [] then None else Some(CommonPrefix(MatchesOf(values, typed)))
  }

  // ----- what the common prefix is -----

  lemma {:induction false} CommonPrefixOfFirst(m: seq<string>)
    requires m != []
    ensures CommonPrefix(m) <= m[0]
  {
    hide CommonLength;
    if |m| > 1 {
      CommonPrefixOfFirst(m[..|m| - 1]);
    }
  }

  lemma {:induction false} CommonPrefixIsCommon(m: seq<string>, i: nat)
    requires i < |m|
    ensures Starts(m[i], CommonPrefix(m))
  {
    if |m| > 1 && i < |m| - 1 {
      CommonPrefixIsCommon(m[..|m| - 1], i);
    }
  }

  /** No longer prefix of the first text is common. */
  lemma {:induction false} CommonPrefixIsLongest(m: seq<string>, n: nat)
    requires m != [] && n <= |m[0]| && forall i :: 0 <= i < |m| ==> Starts(m[i], m[0][..n])
    ensures n <= |CommonPrefix(m)|
  {
    if |m| > 1 {
      var front, last := m[..|m| - 1], m[|m| - 1];
      CommonPrefixIsLongest(front, n);
      CommonPrefixOfFirst(front);
      assert Starts(last, m[0][..n]);
      CommonLengthReaches(CommonPrefix(front), last, n);
    }
  }

  lemma {:induction false} CommonLengthReaches(a: string, b: string, n: nat)
    requires n <= |a| && n <= |b| && forall i :: 0 <= i < n ==> ToLower(a[i]) == ToLower(b[i])
    ensures n <= CommonLength(a, b)
  {
    hide ToLower;
    if 0 < n {
      CommonLengthReaches(a[1..], b[1..], n - 1);
    }
  }

  lemma {:induction false} MatchesMeaning(values: seq<string>, typed: string, v: string)
    ensures v in MatchesOf(values, typed) <==> v in values && Starts(v, typed)
  {
    hide Starts;
    if values != [] {
      MatchesMeaning(values[..|values| - 1], typed, v);
      assert values == values[..|values| - 1] + [values[|values| - 1]];
    }
  }

  lemma {:induction false} SameMatches(values: seq<string>, typed: string, other: string)
    requires forall i :: 0 <= i < |values| ==> (Starts(values[i], typed) <==> Starts(values[i], other))
    ensures MatchesOf(values, typed) == MatchesOf(values, other)
  {
    hide Starts;
    if values != [] {
      SameMatches(values[..|values| - 1], typed, other);
    }
  }

  /** The extension is the longest text that extends the typed one and with which all matches start. */
  lemma ExtensionMeaning(values: seq<string>, typed: string)
    ensures Extension(values, typed).None? <==> forall v :: v in values ==> !Starts(v, typed)
    ensures var m := MatchesOf(values, typed);
            Extension(values, typed).Some? ==>
              var p := Extension(values, typed).value;
              && m != [] && p <= m[0] && Starts(p, typed)
              && (forall i :: 0 <= i < |m| ==> Starts(m[i], p))
              && forall n: nat :: n <= |m[0]| && (forall i :: 0 <= i < |m| ==> Starts(m[i], m[0][..n])) ==> n <= |p|
  {
    hide CommonPrefix;
    var m := MatchesOf(values, typed);
    forall v | v in values
      ensures v in m <==> Starts(v, typed)
    {
      MatchesMeaning(values, typed, v);
    }
    if m != [] {
      MatchesMeaning(values, typed, m[0]);
      CommonPrefixOfFirst(m);
      forall i | 0 <= i < |m|
        ensures Starts(m[i], CommonPrefix(m))
      {
        CommonPrefixIsCommon(m, i);
      }
      forall n: nat | n <= |m[0]| && forall i :: 0 <= i < |m| ==> Starts(m[i], m[0][..n])
        ensures n <= |CommonPrefix(m)|
      {
        CommonPrefixIsLongest(m, n);
      }
      TypedIsCommon(m, typed);
    }
  }

  lemma TypedIsCommon(m: seq<string>, typed: string)
    requires m != [] && forall i :: 0 <= i < |m| ==> Starts(m[i], typed)
    ensures Starts(CommonPrefix(m), typed)
  {
    hide CommonPrefix, Starts;
    forall i | 0 <= i < |m|
      ensures |typed| <= |m[0]| && Starts(m[i], m[0][..|typed|])
    {
      StartAlike(m[0], m[i], typed);
    }
    CommonPrefixIsLongest(m, |typed|);
    CommonPrefixOfFirst(m);
    CutStarts(m[0], CommonPrefix(m), typed);
  }

  lemma StartAlike(v: string, w: string, typed: string)
    requires Starts(v, typed) && Starts(w, typed)
    ensures |typed| <= |v| && Starts(w, v[..|typed|])
  {
    hide ToLower;
  }

  lemma CutStarts(v: string, p: string, typed: string)
    requires Starts(v, typed) && p <= v && |typed| <= |p|
    ensures Starts(p, typed)
  {
    hide ToLower;
    assert p == v[..|p|];
  }

  /** Any text between the typed one and its extension has the same matches, hence the same extension. */
  lemma BetweenKeepsMatches(values: seq<string>, typed: string, n: nat)
    requires Extension(values, typed).Some? && |typed| <= n <= |Extension(values, typed).value|
    ensures var t := Extension(values, typed).value[..n];
            MatchesOf(values, t) == MatchesOf(values, typed) && Extension(values, t) == Extension(values, typed)
  {
    hide MatchesOf, CommonPrefix;
    var p := Extension(values, typed).value;
    var m := MatchesOf(values, typed);
    ExtensionMeaning(values, typed);
    forall i | 0 <= i < |values|
      ensures Starts(values[i], typed) <==> Starts(values[i], p[..n])
    {
      MatchesMeaning(values, typed, values[i]);
      if Starts(values[i], typed) {
        var k :| 0 <= k < |m| && m[k] == values[i];
        assert Starts(m[k], p);
      }
    }
    SameMatches(values, typed, p[..n]);
  }

  /** Extending keeps the set of matches, and is a fixed point after one step. */
  lemma ExtendOnce(values: seq<string>, typed: string)
    requires Extension(values, typed).Some?
    ensures var p := Extension(values, typed).value;
            && |typed| <= |p| && MatchesOf(values, p) == MatchesOf(values, typed) && Extension(values, p) == Some(p)
  {
    hide MatchesOf, CommonPrefix, Extension;
    var p := Extension(values, typed).value;
    ExtensionMeaning(values, typed);
    BetweenKeepsMatches(values, typed, |p|);
    assert p[..|p|] == p;
  }

  // ----- the loops -----

  lemma EmptyStaysEmpty(m: seq<string>, last: string)
    requires m != [] && CommonPrefix(m) == ""
    ensures CommonPrefix(m + [last]) == ""
  {
    assert (m + [last])[..|m|] == m;
  }

  lemma {:induction false} NothingLeft(values: seq<string>, typed: string, i: nat)
    requires i <= |values| && MatchesOf(values[..i], typed) != [] && CommonPrefix(MatchesOf(values[..i], typed)) == ""
    ensures MatchesOf(values, typed) != [] && CommonPrefix(MatchesOf(values, typed)) == ""
  {
    hide Starts, CommonPrefix;
    if i < |values| {
      var front := values[..|values| - 1];
      assert front[..i] == values[..i];
      NothingLeft(front, typed, i);
      EmptyStaysEmpty(MatchesOf(front, typed), values[|values| - 1]);
      assert MatchesOf(front, typed) + [] == MatchesOf(front, typed);
    } else {
      assert values[..i] == values;
    }
  }

  /** One value more, behind the first match. */
  lemma NextValue(values: seq<string>, typed: string, i: nat)
    requires i < |values|
    ensures var m := MatchesOf(values[..i], typed);
            MatchesOf(values[..i + 1], typed) == if Starts(values[i], typed) then m + [values[i]] else m
    ensures MatchesOf(values[..i], typed) != [] && Starts(values[i], typed) ==>
              var p := CommonPrefix(MatchesOf(values[..i], typed));
              CommonPrefix(MatchesOf(values[..i + 1], typed)) == p[..CommonLength(p, values[i])]
  {
    hide Starts, CommonLength;
    assert values[..i + 1][..i] == values[..i];
    var m := MatchesOf(values[..i], typed);
    if m != [] && Starts(values[i], typed) {
      CommonPrefixSnoc(m, values[i]);
    }
  }

  lemma CommonPrefixSnoc(m: seq<string>, last: string)
    requires m != []
    ensures var p := CommonPrefix(m);
            CommonPrefix(m + [last]) == p[..CommonLength(p, last)]
  {
    hide CommonLength;
    assert (m + [last])[..|m|] == m;
  }

  lemma CommonLengthIs(a: string, b: string, n: nat)
    requires n <= |a| && n <= |b| && forall i :: 0 <= i < n ==> ToLower(a[i]) == ToLower(b[i])
    requires n < |a| && n < |b| ==> ToLower(a[n]) != ToLower(b[n])
    ensures CommonLength(a, b) == n
  {
    hide ToLower, CommonLength;
  }

  lemma FirstMatch(values: seq<string>, typed: string)
    ensures MatchesOf([], typed) == []
    ensures |values| == 1 && Starts(values[0], typed) ==> Extension(values, typed) == Some(values[0])
  {}

  /** Counts the leading characters that agree. */
  method Agreeing(a: string, b: string) returns (j: nat)
    ensures j == CommonLength(a, b)
  {
    hide ToLower;
    j := 0;
    while j < |a| && j < |b| && ToLower(a[j]) == ToLower(b[j])
      invariant j <= |a| && j <= |b| && forall k :: 0 <= k < j ==> ToLower(a[k]) == ToLower(b[k])
    {
      j := j + 1;
    }
    CommonLengthIs(a, b, j);
  }

  /** The longest prefix that all matching values have in common, in the spelling of the first one. */
  method LongestCommonPrefix(values: seq<string>, typed: string) returns (lcp: Option<string>)
    ensures lcp == Extension(values, typed)
  {
    hide Starts, CommonPrefix, CommonLength, ToLower, MatchesOf;
    var i: nat := 0;
    FirstMatch([], typed);
    while i < |values| && !Starts(values[i], typed)
      invariant i <= |values| && MatchesOf(values[..i], typed) == []
    {
      NextValue(values, typed, i);
      i := i + 1;
    }
    if i == |values| {
      assert values[..i] == values;
      return None;
    }
    var p := values[i];
    NextValue(values, typed, i);
    OneText(p);
    assert MatchesOf(values[..i + 1], typed) == [p];
    i := i + 1;
    while i < |values|
      invariant i <= |values| && MatchesOf(values[..i], typed) != []
      invariant p == CommonPrefix(MatchesOf(values[..i], typed))
    {
      NextValue(values, typed, i);
      if Starts(values[i], typed) {
        var j := Agreeing(p, values[i]);
        p := p[..j];
        if |p| == 0 {
          NothingLeft(values, typed, i + 1);
          return Some(p);
        }
      }
      i := i + 1;
    }
    assert values[..i] == values;
    return Some(p);
  }

  lemma OneText(p: string)
    ensures CommonPrefix([p]) == p
  {}

  /** Match number `cycle` of the typed text, if there are that many. */
  method KnownValue(values: seq<string>, typed: string, cycle: int) returns (value: Option<string>)
    ensures var m := MatchesOf(values, typed);
            value == if 0 <= cycle < |m| then Some(m[cycle]) else None
  {
    hide Starts, MatchesOf;
    if cycle < 0 {
      return None;
    }
    var index: nat := 0;
    FirstMatch([], typed);
    for i := 0 to |values|
      invariant index == |MatchesOf(values[..i], typed)| <= cycle
    {
      NextValue(values, typed, i);
      if Starts(values[i], typed) {
        if index == cycle {
          MatchesGrow(values, typed, i + 1);
          return Some(values[i]);
        }
        index := index + 1;
      }
    }
    assert values[..|values|] == values;
    return None;
  }

  lemma {:induction false} MatchesGrow(values: seq<string>, typed: string, i: nat)
    requires i <= |values|
    ensures MatchesOf(values[..i], typed) <= MatchesOf(values, typed)
  {
    hide Starts;
    if i < |values| {
      var front := values[..|values| - 1];
      assert front[..i] == values[..i];
      MatchesGrow(front, typed, i);
    } else {
      assert values[..i] == values;
    }
  }

  /** How many of the first `i` values start with the typed text. */
  function CountStarts(values: seq<string>, typed: string, i: nat): nat
    requires i <= |values|
  {
    if i == 0 then 0 else CountStarts(values, typed, i - 1) + if Starts(values[i - 1], typed) then 1 else 0
  }

  /** Match number k is the value that starts with the typed text and has k such values before it. */
  lemma MatchAt(values: seq<string>, typed: string, i: nat)
    requires i < |values| && Starts(values[i], typed)
    ensures |MatchesOf(values, typed)| == CountStarts(values, typed, |values|)
    ensures CountStarts(values, typed, i) < CountStarts(values, typed, |values|)
    ensures MatchesOf(values, typed)[CountStarts(values, typed, i)] == values[i]
  {
    hide Starts;
    MatchesCounted(values, typed, i);
    MatchesCounted(values, typed, i + 1);
    MatchesCounted(values, typed, |values|);
    MatchesGrow(values, typed, i + 1);
    assert values[..i + 1][..i] == values[..i] && values[..|values|] == values;
    assert MatchesOf(values[..i + 1], typed) == MatchesOf(values[..i], typed) + [values[i]];
  }

  lemma {:induction false} MatchesCounted(values: seq<string>, typed: string, i: nat)
    requires i <= |values|
    ensures |MatchesOf(values[..i], typed)| == CountStarts(values, typed, i)
  {
    hide Starts;
    if 0 < i {
      assert values[..i][..i - 1] == values[..i - 1];
      MatchesCounted(values, typed, i - 1);
    }
  }

  // ----- the Tab key -----

  /** The state of one input field. */
  datatype FieldState = FieldState(input: string, active: bool, cycle: int, seed: string)

  /** Showing match number `s.cycle` of the seed, or the first one again. */
  function Cycled(values: seq<string>, s: FieldState, size: nat): FieldState
    requires 0 < size
  {
    var m := MatchesOf(values, s.seed);
    var c := if 0 <= s.cycle < |m| then s.cycle else 0;
    if c < |m| then s.(input := Print(m[c], size), cycle := c + 1) else s.(cycle := 0)
  }

  /** The typed text can still be extended. */
  predicate Extends(values: seq<string>, input: string)
  {
    var e := Extension(values, input);
    e.Some? && |e.value| > |input|
  }

  /** One press of Tab. */
  function Tab(values: seq<string>, s: FieldState, size: nat): FieldState
    requires 0 < size
  {
    if s.active then Cycled(values, s, size)
    else if Extends(values, s.input) then s.(input := Print(Extension(values, s.input).value, size))
    else Cycled(values, FieldState(s.input, true, 0, Print(s.input, SEED_SIZE)), size)
  }

  function Tabs(values: seq<string>, s: FieldState, size: nat, n: nat): FieldState
    requires 0 < size
  {
    if n == 0 then s else Tab(values, Tabs(values, s, size, n - 1), size)
  }

  /** An input field of a dialog, with a buffer of `size` characters. */
  class Field {
    var input: string
    const size: nat
    var active: bool
    var cycle: int
    var seed: string

    constructor (input: string, size: nat)
      requires |input| < size
      ensures State() == FieldState(input, false, 0, "") && this.size == size
    {
      this.input, this.size, active, cycle, seed := input, size, false, 0, "";
    }

    ghost function State(): FieldState
      reads this
    {
      FieldState(input, active, cycle, seed)
    }

    /** Handles the Tab key; without known values nothing happens. */
    method HandleTab(known: Option<seq<string>>)
      requires 0 < size
      modifies this
      ensures State() == if known.Some? then Tab(known.value, old(State()), size) else old(State())
    {
      hide MatchesOf, Extension;
      if known.None? {
        return;
      }
      var values := known.value;
      if !active {
        var lcp := LongestCommonPrefix(values, input);
        if lcp.Some? && |lcp.value| > |input| {
          input := Print(lcp.value, size);
          return;
        }
        active := true;
        cycle := 0;
        seed := Print(input, SEED_SIZE);
      }
      var completion := KnownValue(values, seed, cycle);
      if completion.None? {
        cycle := 0;
        completion := KnownValue(values, seed, cycle);
      }
      if completion.Some? {
        input := Print(completion.value, size);
        cycle := cycle + 1;
      }
    }
  }

  /** Once nothing is left to extend, the Tab keys show the matches one after the other and start again
      behind the last one. */
  /** When there is nothing to extend, Tab keeps the first 127 characters of the text as what to cycle for. */
  lemma SeedKept(values: seq<string>, s: FieldState, size: nat)
    requires 0 < size && !s.active && !Extends(values, s.input)
    ensures var after := Tab(values, s, size);
            after.active && after.seed == if |s.input| <= 127 then s.input else s.input[..127]
  {
    hide MatchesOf, Extends, Extension;
  }

  lemma {:induction false} TabCycles(values: seq<string>, s: FieldState, size: nat, k: nat)
    requires 0 < size && !s.active && !Extends(values, s.input)
    ensures var seed := Print(s.input, SEED_SIZE);
            var m := MatchesOf(values, seed);
            Tabs(values, s, size, k + 1) ==
            if m == [] then FieldState(s.input, true, 0, seed)
            else FieldState(Print(m[k % |m|], size), true, k % |m| + 1, seed)
  {
    hide MatchesOf, Extends;
    var m := MatchesOf(values, Print(s.input, SEED_SIZE));
    if k == 0 {
      assert Tabs(values, s, size, 0) == s;
    } else {
      TabCycles(values, s, size, k - 1);
      if m != [] {
        NextModulo(k, |m|);
      }
    }
  }

  lemma NextModulo(k: nat, n: nat)
    requires 0 < k && 0 < n
    ensures k % n == if (k - 1) % n + 1 < n then (k - 1) % n + 1 else 0
  {
    var q, r := (k - 1) / n, (k - 1) % n;
    assert 0 <= r < n;
    assert k == q * n + (r + 1);
    if r + 1 == n {
      assert k == (q + 1) * n + 0;
      ModuloIs(k, n, q + 1, 0);
    } else {
      ModuloIs(k, n, q, r + 1);
    }
  }

  lemma ModuloIs(k: nat, n: nat, q: int, r: nat)
    requires 0 < n && k == q * n + r && r < n
    ensures k % n == r
  {
    var d := k / n - q;
    assert k == (k / n) * n + k % n;
    assert d * n == r - k % n;
    Multiple(d, n);
  }

  lemma Multiple(d: int, n: nat)
    ensures d > 0 ==> d * n >= n
    ensures d < 0 ==> d * n + n <= 0
  {}

  /** When the extension fits the buffer, one Tab completes the text, and the Tab keys after it cycle
      through the matches of the text that was typed. */
  lemma ExtendThenCycle(values: seq<string>, s: FieldState, size: nat, k: nat)
    requires !s.active && Extends(values, s.input)
    requires |Extension(values, s.input).value| < size && |Extension(values, s.input).value| < SEED_SIZE
    ensures var p := Extension(values, s.input).value;
            var m := MatchesOf(values, s.input);
            && Tabs(values, s, size, 1) == s.(input := p) && m != []
            && Tabs(values, s, size, k + 2) == FieldState(Print(m[k % |m|], size), true, k % |m| + 1, p)
  {
    hide MatchesOf, CommonPrefix, Cycled;
    var p := Extension(values, s.input).value;
    ExtendOnce(values, s.input);
    assert Tabs(values, s, size, 0) == s;
    assert Tabs(values, s, size, 1) == s.(input := p);
    TabsFrom(values, s, size, 1, k + 1);
    TabCycles(values, s.(input := p), size, k);
  }

  lemma {:induction false} TabsFrom(values: seq<string>, s: FieldState, size: nat, m: nat, n: nat)
    requires 0 < size
    ensures Tabs(values, s, size, m + n) == Tabs(values, Tabs(values, s, size, m), size, n)
  {
    hide Tab;
    if 0 < n {
      TabsFrom(values, s, size, m, n - 1);
    }
  }

  /** When it does not fit, every Tab shows the same cut text and cycling never starts. */
  lemma {:induction false} CutExtensionRepeats(values: seq<string>, s: FieldState, size: nat, k: nat)
    requires !s.active && |s.input| < size && Extends(values, s.input)
    requires |Extension(values, s.input).value| >= size
    ensures Tabs(values, s, size, k + 1) == s.(input := Extension(values, s.input).value[..size - 1])
  {
    hide MatchesOf, CommonPrefix, Cycled;
    var p := Extension(values, s.input).value;
    if k == 0 {
      assert Tabs(values, s, size, 0) == s;
    } else {
      CutExtensionRepeats(values, s, size, k - 1);
      BetweenKeepsMatches(values, s.input, size - 1);
    }
  }

  /** So a text that can be extended is completed and cycling starts with the second Tab exactly if the
      extension fits the buffer. */
  lemma CyclingStarts(values: seq<string>, s: FieldState, size: nat)
    requires !s.active && |s.input| < size && Extends(values, s.input)
    ensures Tabs(values, s, size, 2).active <==> |Extension(values, s.input).value| < size
  {
    hide MatchesOf, Extension, Cycled;
    if |Extension(values, s.input).value| < size {
      var p := Extension(values, s.input).value;
      ExtendOnce(values, s.input);
      assert Tabs(values, s, size, 0) == s;
      assert Tabs(values, s, size, 1) == s.(input := p);
      CycledIsActive(values, FieldState(p, true, 0, Print(p, SEED_SIZE)), size);
    } else {
      CutExtensionRepeats(values, s, size, 1);
    }
  }

  lemma CycledIsActive(values: seq<string>, s: FieldState, size: nat)
    requires 0 < size && s.active
    ensures Cycled(values, s, size).active
  {}

  // ----- the lists and fields of the dialogs -----

  /** The names offered for the resource manager. */
  const RMGR_VALUES := [
    "BRIN", "Btree", "CLOG", "CommitTs", "Database",
    "Generic", "Gin", "Gist", "Hash", "Heap",
    "Heap2", "LogicalMessage", "MultiXact", "RelMap", "ReplicationOrigin",
    "SPGist", "Sequence", "Standby", "Storage", "Tablespace",
    "Transaction", "XLOG"]

  /** The sizes of the input fields for the resource manager and for a position in the search dialog; in
      the filter dialog they are larger. */
  const RMGR_FIELD := 64
  const LSN_FIELD := 32

  /** The offered values are the fixed names, or texts of positions. */
  ghost predicate Offered(values: seq<string>, size: nat)
  {
    || (values == RMGR_VALUES && RMGR_FIELD <= size)
    || ((forall i :: 0 <= i < |values| ==> IsLsnText(values[i])) && LSN_FIELD <= size)
  }

  ghost predicate IsLsnText(v: string)
  {
    exists lsn: U64 :: v == LsnToString(lsn)
  }

  lemma OfferedIsShort(values: seq<string>, size: nat)
    requires Offered(values, size)
    ensures forall i :: 0 <= i < |values| ==> |values[i]| <= 17
    ensures LSN_FIELD <= size
  {
    if values != RMGR_VALUES {
      forall i | 0 <= i < |values|
        ensures |values[i]| <= 17
      {
        assert IsLsnText(values[i]);
        var lsn: U64 :| values[i] == LsnToString(lsn);
        LsnLength(lsn);
      }
    }
  }

  /** Every extension that the program can offer fits its field. */
  lemma OfferedFits(values: seq<string>, typed: string, size: nat)
    requires Offered(values, size) && Extension(values, typed).Some?
    ensures |Extension(values, typed).value| <= 17 < size
  {
    hide CommonPrefix, LsnToString, Starts;
    var m := MatchesOf(values, typed);
    OfferedIsShort(values, size);
    MatchesMeaning(values, typed, m[0]);
    var i :| 0 <= i < |values| && values[i] == m[0];
  }

  /** So for the resource manager, whose list never changes, one Tab completes an extensible text, and the Tab
      keys after it cycle through the matches of what was typed. */
  lemma OfferedCycles(s: FieldState, size: nat, k: nat)
    requires RMGR_FIELD <= size && !s.active && Extends(RMGR_VALUES, s.input)
    ensures var p := Extension(RMGR_VALUES, s.input).value;
            var m := MatchesOf(RMGR_VALUES, s.input);
            && m != [] && Tabs(RMGR_VALUES, s, size, 1) == s.(input := p)
            && Tabs(RMGR_VALUES, s, size, k + 2) == FieldState(m[k % |m|], true, k % |m| + 1, p)
  {
    hide MatchesOf, Extension, Tabs, Starts;
    var m := MatchesOf(RMGR_VALUES, s.input);
    OfferedFits(RMGR_VALUES, s.input, size);
    ExtendThenCycle(RMGR_VALUES, s, size, k);
    MatchesMeaning(RMGR_VALUES, s.input, m[k % |m|]);
    OfferedIsShort(RMGR_VALUES, size);
  }
}
