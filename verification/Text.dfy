/** C string helpers shared by the editor and the viewer: isspace, trimming, strchr and
    bounded printing.  Strings carry no terminator. */
module Text {

  datatype Option<+T> = None | Some(value: T)

  /** isspace in the C locale. */
  predicate IsSpace(c: char)
  {
    c == ' ' || '\t' <= c <= '\r'
  }

  function TrimLeft(s: string): (r: string)
    ensures |r| <= |s|
  {
    if s != "" && IsSpace(s[0]) then TrimLeft(s[1..]) else s
  }

  function TrimRight(s: string): (r: string)
    ensures |r| <= |s|
  {
    if s != "" && IsSpace(s[|s| - 1]) then TrimRight(s[..|s| - 1]) else s
  }

  function Trim(s: string): string
  {
    TrimRight(TrimLeft(s))
  }

  /** No white space at either end. */
  predicate Trimmed(s: string)
  {
    s != "" ==> !IsSpace(s[0]) && !IsSpace(s[|s| - 1])
  }

  predicate AllSpace(s: string)
  {
    forall i :: 0 <= i < |s| ==> IsSpace(s[i])
  }

  lemma {:induction false} TrimLeftPadded(a: string, rest: string)
    requires AllSpace(a) && (rest != "" ==> !IsSpace(rest[0]))
    ensures TrimLeft(a + rest) == rest
  {
    if a == "" {
      assert a + rest == rest;
    } else {
      assert (a + rest)[1..] == a[1..] + rest;
      TrimLeftPadded(a[1..], rest);
    }
  }

  lemma {:induction false} TrimRightPadded(rest: string, b: string)
    requires (rest != "" ==> !IsSpace(rest[|rest| - 1])) && AllSpace(b)
    ensures TrimRight(rest + b) == rest
  {
    if b == "" {
      assert rest + b == rest;
    } else {
      assert (rest + b)[..|rest + b| - 1] == rest + b[..|b| - 1];
      TrimRightPadded(rest, b[..|b| - 1]);
    }
  }

  /** White space around a trimmed core is exactly what trimming removes. */
  lemma TrimPadded(a: string, core: string, b: string)
    requires AllSpace(a) && Trimmed(core) && AllSpace(b)
    ensures Trim(a + core + b) == core
  {
    if core == "" {
      assert a + core + b == (a + b) + "";
      TrimLeftPadded(a + b, "");
    } else {
      assert a + core + b == a + (core + b);
      TrimLeftPadded(a, core + b);
      TrimRightPadded(core, b);
    }
  }

  lemma {:induction false} TrimLeftShape(s: string)
    ensures var r := TrimLeft(s);
            && r == s[|s| - |r|..] && (r != "" ==> !IsSpace(r[0]))
            && forall i :: 0 <= i < |s| - |r| ==> IsSpace(s[i])
  {
    hide IsSpace;
    if s != "" && IsSpace(s[0]) {
      TrimLeftShape(s[1..]);
    }
  }

  lemma {:induction false} TrimRightShape(s: string)
    ensures var r := TrimRight(s);
            && r == s[..|r|] && (r != "" ==> !IsSpace(r[|r| - 1]))
            && forall i :: |r| <= i < |s| ==> IsSpace(s[i])
  {
    hide IsSpace;
    if s != "" && IsSpace(s[|s| - 1]) {
      TrimRightShape(s[..|s| - 1]);
    }
  }

  /** Trimming leaves a trimmed core of the string, surrounded by white space only. */
  lemma TrimShape(s: string) returns (a: string, b: string)
    ensures s == a + Trim(s) + b && AllSpace(a) && AllSpace(b) && Trimmed(Trim(s))
  {
    hide IsSpace, TrimLeft, TrimRight;
    var l := TrimLeft(s);
    var r := TrimRight(l);
    TrimLeftShape(s);
    TrimRightShape(l);
    a, b := s[..|s| - |l|], l[|r|..];
    if r != "" { assert r[0] == l[0]; }
  }

  lemma TrimTrimmed(s: string)
    requires Trimmed(s)
    ensures Trim(s) == s
  {
    TrimPadded("", s, "");
    assert "" + s + "" == s;
  }

  // ----- white space, character by character -----

  /** The white space of the C locale. */
  const WHITE: set<char> := {' ', '\t', '\n', '\U{B}', '\U{C}', '\r'}

  predicate White(s: string)
  {
    forall i :: 0 <= i < |s| ==> s[i] in WHITE
  }

  /** Begins and ends with other characters. */
  predicate Solid(s: string)
  {
    s != "" ==> s[0] !in WHITE && s[|s| - 1] !in WHITE
  }

  lemma WhiteIsSpace(s: string)
    ensures White(s) <==> AllSpace(s)
    ensures Solid(s) <==> Trimmed(s)
  {}

  /** White space at both ends goes; any other text stays as it is. */
  lemma TrimMeaning(a: string, core: string, b: string)
    requires White(a) && Solid(core) && White(b)
    ensures Trim(a + core + b) == core && Trim(core) == core
  {
    WhiteIsSpace(a);
    WhiteIsSpace(core);
    WhiteIsSpace(b);
    hide Trim, AllSpace, Trimmed, White, Solid;
    TrimPadded(a, core, b);
    TrimTrimmed(core);
  }

  /** The in-place trimming loops: skip forward over white space, then cut it off the end. */
  method TrimInPlace(s: string) returns (r: string)
    ensures r == Trim(s)
  {
    hide Trim, IsSpace;
    var start := 0;
    while start < |s| && IsSpace(s[start])
      invariant 0 <= start <= |s| && forall i :: 0 <= i < start ==> IsSpace(s[i])
    {
      start := start + 1;
    }
    var end := |s|;
    while end > start && IsSpace(s[end - 1])
      invariant start <= end <= |s| && forall i :: end <= i < |s| ==> IsSpace(s[i])
    {
      end := end - 1;
    }
    r := s[start..end];
    TrimPadded(s[..start], r, s[end..]);
    assert s == s[..start] + r + s[end..];
  }

  /** strchr: the index of the first `c`, or the length of the string when there is none. */
  function IndexOf(s: string, c: char): (i: nat)
    ensures i <= |s| && c !in s[..i]
    ensures i < |s| ==> s[i] == c
  {
    if s == "" || s[0] == c then 0
    else
      var i := 1 + IndexOf(s[1..], c);
      assert s[..i] == [s[0]] + s[1..][..i - 1];
      i
  }

  lemma {:induction false} IndexOfUnique(s: string, c: char, i: nat)
    requires i <= |s| && c !in s[..i] && (i < |s| ==> s[i] == c)
    ensures IndexOf(s, c) == i
  {
    if 0 < i {
      assert s[0] == s[..i][0] && s[1..][..i - 1] == s[..i][1..];
      IndexOfUnique(s[1..], c, i - 1);
    }
  }

  /** snprintf into a buffer of `size` characters: the text is cut to leave room for the terminator. */
  function Print(text: string, size: nat): (r: string)
    requires 0 < size
    ensures |r| < size
    ensures |text| < size ==> r == text
  {
    if |text| < size then text else text[..size - 1]
  }

  /** tolower in the C locale. */
  function ToLower(c: char): char
  {
    if 'A' <= c <= 'Z' then (c as int + 32) as char else c
  }

  function Lower(s: string): (r: string)
    ensures |r| == |s| && forall i :: 0 <= i < |s| ==> r[i] == ToLower(s[i])
  {
    seq(|s|, i requires 0 <= i < |s| => ToLower(s[i]))
  }

  /** toupper in the C locale. */
  function ToUpper(c: char): char
  {
    if 'a' <= c <= 'z' then (c as int - 32) as char else c
  }

  function Upper(s: string): (r: string)
    ensures |r| == |s| && forall i :: 0 <= i < |s| ==> r[i] == ToUpper(s[i])
  {
    seq(|s|, i requires 0 <= i < |s| => ToUpper(s[i]))
  }

  function Digit(d: nat): char
    requires d < 10
  {
    '0' + d as char
  }

  /** "%u" */
  function Digits(n: nat): (s: string)
    ensures s != "" && forall i :: 0 <= i < |s| ==> '0' <= s[i] <= '9'
  {
    if n < 10 then [Digit(n)] else Digits(n / 10) + [Digit(n % 10)]
  }

  lemma ShortDigits(n: nat)
    ensures |Digits(n)| == 1 <==> n < 10
  {}

  function Pow10(n: nat): (r: nat)
    ensures 0 < r
  {
    if n == 0 then 1 else 10 * Pow10(n - 1)
  }

  lemma {:induction false} DigitsLength(n: nat, k: nat)
    requires 0 < k
    ensures |Digits(n)| <= k <==> n < Pow10(k)
  {
    if k == 1 {
      assert Pow10(1) == 10 * Pow10(0);
      ShortDigits(n);
    } else if 10 <= n {
      DigitsLength(n / 10, k - 1);
    }
  }

  lemma PowersOfTen()
    ensures Pow10(9) == 1_000_000_000 && Pow10(10) == 10_000_000_000
  {
    assert Pow10(4) == 10_000;
    assert Pow10(8) == 100_000_000;
  }
}
