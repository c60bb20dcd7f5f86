/** The substring search of the WAL viewer (src/walinfo.c): the failure table, the scan
    and the counter of overlapping matches.  Texts and patterns are C strings without
    their terminator. */
module Kmp {

  const TWO_31 := 0x8000_0000
  const TWO_32 := 0x1_0000_0000
  const TWO_64 := 0x1_0000_0000_0000_0000

  /** The value a size_t has after the cast to a 32-bit int. */
  function ToInt(n: nat): int
  {
    var m := n % TWO_32;
    if m < TWO_31 then m else m - TWO_32
  }

  lemma ToIntSmall(n: nat)
    requires n < TWO_31
    ensures ToInt(n) == n
  {}

  /** Subtraction of two size_t values. */
  function SubSize(a: nat, b: nat): nat
    requires a < TWO_64 && b < TWO_64
  {
    if b <= a then a - b else TWO_64 + a - b
  }

  /** The pattern occurs in the text at offset `k`. */
  predicate OccursAt(t: string, p: string, k: nat)
  {
    k + |p| <= |t| && t[k..k + |p|] == p
  }

  ghost predicate LeastOffset(t: string, p: string, k: nat)
  {
    OccursAt(t, p, k) && forall l: nat :: l < k ==> !OccursAt(t, p, l)
  }

  /** The least offset of a non-empty pattern, as an int, or -1 when there is none. */
  ghost predicate SearchResult(t: string, p: string, r: int)
  {
    if p == "" || forall k: nat :: !OccursAt(t, p, k) then r == -1
    else exists k: nat :: LeastOffset(t, p, k) && r == ToInt(k)
  }

  /** The first `k` characters of the pattern end the first `i` characters of the text. */
  ghost predicate EndsAt(t: string, i: nat, p: string, k: nat)
  {
    k <= |p| && k <= i <= |t| && t[i - k..i] == p[..k]
  }

  /** `j` is the longest pattern prefix shorter than `lim` that ends `t[..i]`. */
  ghost predicate Longest(t: string, i: nat, p: string, lim: nat, j: nat)
  {
    && j < lim
    && EndsAt(t, i, p, j)
    && forall c: nat :: c < lim && EndsAt(t, i, p, c) ==> c <= j
  }

  /** `b` is the length of the longest proper prefix of `p[..n]` that is also its suffix. */
  ghost predicate LongestBorder(p: string, n: nat, b: nat)
  {
    Longest(p, n, p, n, b)
  }

  ghost predicate IsTable(p: string, table: seq<int>)
  {
    && |table| == |p|
    && forall i :: 0 <= i < |p| ==> IsEntry(p, i, table[i])
  }

  /** `b` is the right table entry at position `i`. */
  ghost predicate IsEntry(p: string, i: nat, b: int)
  {
    0 <= b <= i && LongestBorder(p, i + 1, b)
  }

  /** `j` ends `t[..i]`, and no longer match can be extended by `t[i]`. */
  ghost predicate Candidate(t: string, i: nat, p: string, lim: nat, j: nat)
    requires i < |t| && lim <= |p|
  {
    && j < lim
    && EndsAt(t, i, p, j)
    && forall c: nat :: c < lim && EndsAt(t, i, p, c) && p[c] == t[i] ==> c <= j
  }

  lemma EndsAtStep(t: string, i: nat, p: string, k: nat)
    requires i < |t| && k < |p|
    ensures EndsAt(t, i + 1, p, k + 1) <==> EndsAt(t, i, p, k) && t[i] == p[k]
  {}

  /** Below a match of length `j`, the matches ending at the same place are the borders of `p[..j]`. */
  lemma EndsAtBelow(t: string, i: nat, p: string, j: nat, c: nat)
    requires EndsAt(t, i, p, j) && c <= j
    ensures EndsAt(t, i, p, c) <==> EndsAt(p, j, p, c)
  {}

  /** One fallback loses no candidate that the next character could extend. */
  lemma FallbackKeeps(t: string, i: nat, p: string, lim: nat, j: nat, b: int)
    requires i < |t| && lim <= |p| && 0 < j && Candidate(t, i, p, lim, j) && IsEntry(p, j - 1, b)
    requires t[i] != p[j]
    ensures 0 <= b < j && Candidate(t, i, p, lim, b)
  {
    EndsAtBelow(t, i, p, j, b);
    forall c: nat | c < lim && EndsAt(t, i, p, c) && p[c] == t[i]
      ensures c <= b
    {
      EndsAtBelow(t, i, p, j, c);
    }
  }

  /** Reading one more character turns the best candidate into the longest match. */
  lemma ExtendLongest(t: string, i: nat, p: string, lim: nat, j: nat)
    requires i < |t| && lim <= |p| && Candidate(t, i, p, lim, j)
    requires j == 0 || t[i] == p[j]
    ensures Longest(t, i + 1, p, lim + 1, if t[i] == p[j] then j + 1 else j)
  {
    EndsAtStep(t, i, p, j);
    forall c: nat {:trigger EndsAt(t, i + 1, p, c)} | c < lim + 1 && EndsAt(t, i + 1, p, c)
      ensures c <= if t[i] == p[j] then j + 1 else j
    {
      if 0 < c { EndsAtStep(t, i, p, c - 1); }
    }
  }

  lemma LongestIsCandidate(t: string, i: nat, p: string, lim: nat, j: nat)
    requires i < |t| && lim <= |p| && Longest(t, i, p, lim, j)
    ensures Candidate(t, i, p, lim, j)
  {}

  /** No occurrence lies within `t[..i]`. */
  ghost predicate NoneWithin(t: string, p: string, i: nat)
  {
    forall k: nat :: k + |p| <= i ==> !OccursAt(t, p, k)
  }

  /** After the scan of `t[..i + 1]`: a full match there is an occurrence, and otherwise there is none. */
  lemma ScanStep(t: string, i: nat, p: string, j: nat)
    requires i < |t| && 0 < |p| <= |t| && Longest(t, i + 1, p, |p| + 1, j) && NoneWithin(t, p, i)
    ensures j == |p| ==> |p| <= i + 1 && SearchResult(t, p, ToInt(i + 1 - |p|))
    ensures j < |p| ==> Longest(t, i + 1, p, |p|, j) && NoneWithin(t, p, i + 1)
  {
    assert p[..|p|] == p;
    if |p| <= i + 1 && OccursAt(t, p, i + 1 - |p|) {
      assert EndsAt(t, i + 1, p, |p|);
    }
    if j == |p| {
      assert OccursAt(t, p, i + 1 - |p|);
      assert LeastOffset(t, p, i + 1 - |p|);
    }
  }

  lemma EmptyPrefix(t: string, p: string)
    requires p != ""
    ensures Longest(t, 0, p, |p|, 0) && NoneWithin(t, p, 0)
  {}

  lemma FirstBorder(p: string)
    requires p != ""
    ensures LongestBorder(p, 1, 0)
  {}

  /** The entries of the table so far. */
  ghost predicate AreEntries(p: string, table: seq<int>)
  {
    |table| <= |p| && forall k :: 0 <= k < |table| ==> IsEntry(p, k, table[k])
  }

  lemma EntryAt(p: string, table: seq<int>, k: nat)
    requires AreEntries(p, table) && k < |table|
    ensures IsEntry(p, k, table[k]) && 0 <= table[k] <= k
  {
    hide LongestBorder;
  }

  lemma NextEntry(p: string, table: seq<int>, j: nat)
    requires AreEntries(p, table) && |table| < |p| && LongestBorder(p, |table| + 1, j) && j <= |table|
    ensures AreEntries(p, table + [j])
  {
    hide LongestBorder;
  }

  lemma AllEntries(p: string, table: seq<int>)
    requires AreEntries(p, table) && |table| == |p|
    ensures IsTable(p, table)
  {
    hide IsEntry;
  }

  lemma TableEntries(p: string, table: seq<int>)
    requires IsTable(p, table)
    ensures AreEntries(p, table)
  {
    hide IsEntry;
  }

  lemma BorderBounds(p: string, n: nat, b: nat)
    requires LongestBorder(p, n, b)
    ensures b < n && Longest(p, n, p, n, b)
  {}

  lemma BorderIsLongest(p: string, n: nat, b: nat)
    requires Longest(p, n, p, n, b)
    ensures LongestBorder(p, n, b)
  {}

  /** The table of the first character. */
  lemma FirstEntry(p: string)
    requires p != ""
    ensures AreEntries(p, [0]) && LongestBorder(p, 1, 0)
  {
    FirstBorder(p);
  }

  /** The inner loop of both scans: falls back through the table until the next character fits. */
  method FallBack(t: string, i: nat, p: string, lim: nat, failure: array<int>, ghost table: seq<int>, start: nat)
      returns (j: nat, ghost steps: nat)
    requires i < |t| && start < lim <= |p| && Candidate(t, i, p, lim, start)
    requires start <= |table| <= failure.Length && AreEntries(p, table)
    requires table == failure[..|table|]
    ensures j < lim && Candidate(t, i, p, lim, j) && (j == 0 || t[i] == p[j]) && j + steps <= start
  {
    hide Candidate, IsEntry, AreEntries;
    j, steps := start, 0;
    while j > 0 && t[i] != p[j]
      invariant j + steps <= start && Candidate(t, i, p, lim, j)
    {
      EntryAt(p, table, j - 1);
      FallbackKeeps(t, i, p, lim, j, table[j - 1]);
      j := failure[j - 1];
      steps := steps + 1;
    }
  }

  /** Builds the failure table.  `fallbacks` counts the passes of the inner loop. */
  method BuildFailureFunction(pattern: string, failure: array<int>) returns (ghost fallbacks: nat)
    requires |pattern| < TWO_31 && |pattern| <= failure.Length
    modifies failure
    ensures IsTable(pattern, failure[..|pattern|])
    ensures failure[|pattern|..] == old(failure[|pattern|..])
    ensures fallbacks <= |pattern|
  {
    fallbacks := 0;
    hide LongestBorder, Longest, EndsAt, Candidate, ToInt, IsEntry, AreEntries, IsTable;
    if |pattern| == 0 {
      NoEntries(failure[..0]);
      return;
    }
    failure[0] := 0;
    FirstEntry(pattern);
    ghost var table := [0];
    var j := 0;
    for i := 1 to |pattern|
      invariant 0 <= j < i && fallbacks + j <= i
      invariant LongestBorder(pattern, i, j)
      invariant table == failure[..i] && AreEntries(pattern, table)
      invariant forall k :: |pattern| <= k < failure.Length ==> failure[k] == old(failure[k])
    {
      BorderBounds(pattern, i, j);
      LongestIsCandidate(pattern, i, pattern, i, j);
      ghost var steps;
      j, steps := FallBack(pattern, i, pattern, i, failure, table, j);
      fallbacks := fallbacks + steps;
      ExtendLongest(pattern, i, pattern, i, j);
      if pattern[i] == pattern[j] {
        j := j + 1;
      }
      BorderIsLongest(pattern, i + 1, j);
      ToIntSmall(j);
      NextEntry(pattern, table, j);
      failure[i] := ToInt(j);
      table := table + [j];
    }
    AllEntries(pattern, table);
  }

  lemma NoEntries(table: seq<int>)
    ensures table == [] ==> IsTable("", table)
  {}

  /** Finds the least offset at which a non-empty pattern occurs, or returns -1. */
  method Search(text: string, pattern: string, failure: array<int>) returns (r: int, ghost fallbacks: nat)
    requires |pattern| <= failure.Length && IsTable(pattern, failure[..|pattern|])
    ensures SearchResult(text, pattern, r)
    ensures fallbacks <= |text|
  {
    fallbacks := 0;
    var m := |pattern|;
    if m == 0 || m > |text| {
      return -1, fallbacks;
    }
    ghost var table := failure[..m];
    TableEntries(pattern, table);
    hide LongestBorder, Longest, EndsAt, Candidate, ToInt, IsTable, AreEntries, NoneWithin, OccursAt;
    EmptyPrefix(text, pattern);
    var j := 0;
    for i := 0 to |text|
      invariant fallbacks + j <= i
      invariant Longest(text, i, pattern, m, j)
      invariant NoneWithin(text, pattern, i)
    {
      LongestIsCandidate(text, i, pattern, m, j);
      ghost var steps;
      j, steps := FallBack(text, i, pattern, m, failure, table, j);
      fallbacks := fallbacks + steps;
      ExtendLongest(text, i, pattern, m, j);
      if text[i] == pattern[j] {
        j := j + 1;
      }
      ScanStep(text, i, pattern, j);
      if j == m {
        return ToInt(i + 1 - m), fallbacks;
      }
    }
    r := -1;
  }

  /** The offsets of all occurrences, overlapping ones included. */
  ghost function Occurrences(t: string, p: string): set<nat>
  {
    set k: nat | k <= |t| && OccursAt(t, p, k)
  }

  lemma OccursBounds(t: string, p: string)
    ensures forall k: nat :: OccursAt(t, p, k) ==> k + |p| <= |t|
  {}

  /** The occurrences in `t[pos..]`, moved back to offsets of `t`, are those of `t` from `pos` on. */
  lemma OccursInSuffix(t: string, p: string, pos: nat, k: nat)
    requires pos <= |t|
    ensures OccursAt(t[pos..], p, k) <==> OccursAt(t, p, pos + k)
  {}

  /** Counting on from `pos`: the next hit is the least occurrence not below `pos`. */
  lemma NextOccurrence(t: string, p: string, pos: nat, r: int)
    requires pos <= |t| < TWO_31 && p != "" && SearchResult(t[pos..], p, r)
    ensures r == -1 ==> forall k :: k in Occurrences(t, p) ==> k < pos
    ensures r != -1 ==> 0 <= r && pos + r in Occurrences(t, p)
    ensures r != -1 ==> forall k :: k in Occurrences(t, p) && k < pos + r ==> k < pos
  {
    OccursBounds(t, p);
    OccursBounds(t[pos..], p);
    hide OccursAt, ToInt;
    var u := t[pos..];
    forall k | k in Occurrences(t, p) && pos <= k
      ensures OccursAt(u, p, k - pos)
    {
      OccursInSuffix(t, p, pos, k - pos);
    }
    if exists k: nat :: OccursAt(u, p, k) {
      var k: nat :| LeastOffset(u, p, k) && r == ToInt(k);
      OccursInSuffix(t, p, pos, k);
      ToIntSmall(k);
    }
  }

  /** Counts the occurrences of a query in a field, as the result viewer does. */
  method CountMatches(field: string, query: string) returns (count: nat)
    requires |field| < TWO_31 && |query| < TWO_31
    ensures count == if query == "" then 0 else |Occurrences(field, query)|
  {
    var failure := new int[|query|];
    var _ := BuildFailureFunction(query, failure);
    ghost var all := Occurrences(field, query);
    ghost var seen: set<nat> := {};
    count := 0;
    var pos := 0;
    while pos <= SubSize(|field|, |query|)
      invariant pos <= |field|
      invariant query == "" ==> count == 0
      invariant IsTable(query, failure[..|query|])
      invariant seen == (set k | k in all && k < pos) && count == |seen|
      decreases |field| - pos
    {
      var matchPos, _ := Search(field[pos..], query, failure);
      if matchPos == -1 {
        if query != "" {
          NextOccurrence(field, query, pos, matchPos);
          assert seen == all;
        }
        return;
      }
      NextOccurrence(field, query, pos, matchPos);
      count := count + 1;
      pos := pos + matchPos + 1;
      assert (set k | k in all && k < pos) == seen + {pos - 1};
      seen := seen + {pos - 1};
    }
    assert seen == all;
  }
}
