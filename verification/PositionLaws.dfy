/** Positions as the user sees and types them (src/libpgmoneta/utils.c, src/walinfo.c): their digits, and which
    of them the position fields offer next to each other. */
module PositionLaws {
  import opened Bytes
  import opened Text
  import opened LsnText
  import opened Candidates

  // ----- digits -----

  const DIGITS := "0123456789ABCDEF"

  /** The text is the numeral of `n` in a base, without leading zeros. */
  predicate Numeral(s: string, n: nat, base: nat)
    requires 2 <= base <= 16
  {
    if n < base then s == [DIGITS[n]]
    else s != "" && s[|s| - 1] == DIGITS[n % base] && Numeral(s[..|s| - 1], n / base, base)
  }

  lemma {:induction false} HexIsNumeral(n: nat)
    ensures Numeral(Hex(n), n, 16)
  {
    DigitAt(n % 16);
    hide HexDigit;
    if 16 <= n {
      HexIsNumeral(n / 16);
      assert Hex(n)[..|Hex(n)| - 1] == Hex(n / 16);
    }
  }

  lemma {:induction false} DecimalIsNumeral(n: nat)
    ensures Numeral(Digits(n), n, 10)
  {
    DigitAt(n % 10);
    hide Digit;
    if 10 <= n {
      DecimalIsNumeral(n / 10);
      assert Digits(n)[..|Digits(n)| - 1] == Digits(n / 10);
    }
  }

  lemma DigitAt(d: nat)
    requires d < 16
    ensures HexDigit(d) == DIGITS[d]
    ensures d < 10 ==> Digit(d) == DIGITS[d]
  {}

  lemma HalvesOf(hi: U32, lo: U32)
    ensures hi * 0x1_0000_0000 + lo < 0x1_0000_0000_0000_0000
    ensures (hi * 0x1_0000_0000 + lo) / 0x1_0000_0000 == hi && (hi * 0x1_0000_0000 + lo) % 0x1_0000_0000 == lo
  {}

  /** A position is shown as the numerals of its upper and its lower 32 bits. */
  lemma PositionShown(hi: U32, lo: U32) returns (h: string, l: string)
    ensures LsnToString(hi * 0x1_0000_0000 + lo) == h + "/" + l && Numeral(h, hi, 16) && Numeral(l, lo, 16)
  {
    hide Hex, Numeral;
    h, l := Hex(hi), Hex(lo);
    HalvesOf(hi, lo);
    HexIsNumeral(hi);
    HexIsNumeral(lo);
  }

  const SMALL := "abcdefghijklmnopqrstuvwxyz"
  const CAPITAL := "ABCDEFGHIJKLMNOPQRSTUVWXYZ"

  lemma AlphabetAt(i: nat)
    requires i < 26
    ensures CAPITAL[i] as int == 65 + i && SMALL[i] as int == 97 + i
  {}

  /** Changing the case takes each letter to its counterpart and keeps any other character. */
  lemma LetterCases(i: nat, c: char)
    requires i < 26
    ensures ToLower(CAPITAL[i]) == SMALL[i] && ToUpper(SMALL[i]) == CAPITAL[i]
    ensures c !in CAPITAL ==> ToLower(c) == c
    ensures c !in SMALL ==> ToUpper(c) == c
  {
    AlphabetAt(i);
    if 'A' <= c <= 'Z' {
      AlphabetAt(c as int - 65);
    }
    if 'a' <= c <= 'z' {
      AlphabetAt(c as int - 97);
    }
  }

  // ----- positions as they are typed -----

  lemma SameDigit(c: char)
    ensures DigitValue(ToLower(c)) == DigitValue(c)
    ensures DigitValue(c) < 16 ==> !IsSpace(ToLower(c)) && ToLower(c) !in {'-', '+', '/'}
    ensures ToLower(c) == '0' <==> c == '0'
  {}

  lemma {:induction false} LowerValue(s: string)
    ensures DigitsValue(Lower(s), 16) == DigitsValue(s, 16)
    ensures AllDigits(s, 16) ==> AllDigits(Lower(s), 16)
  {
    hide DigitValue;
    if s != "" {
      var front, last := s[..|s| - 1], s[|s| - 1];
      LowerValue(front);
      SameDigit(last);
      assert Lower(s)[..|s| - 1] == Lower(front);
    }
    forall i | 0 <= i < |s|
      ensures DigitValue(Lower(s)[i]) == DigitValue(s[i])
    {
      SameDigit(s[i]);
    }
  }

  /** A number in small letters is scanned like the printed one. */
  lemma ScanLower(n: U32, rest: string)
    requires rest == "" || rest[0] == '/'
    ensures StrToUl(Lower(Hex(n)) + rest, 16) == Scanned(true, n, rest)
  {
    hide Hex, DigitPrefix, DigitsValue, DigitValue, IsSpace, ToLower;
    var h := Hex(n);
    var d := Lower(h);
    var s := d + rest;
    LowerValue(h);
    SameDigit(h[0]);
    SlashIsNoDigit();
    assert s[0] == ToLower(h[0]);
    assert TrimLeft(s) == s && AfterSign(s) == s;
    assert AfterPrefix(s, 16) == s by {
      if d[0] == '0' { assert s == "0" + rest; }
    }
    DigitPrefixIs(d, rest, 16);
    assert s[..|d|] == d && s[|d|..] == rest;
  }

  lemma SlashIsNoDigit()
    ensures DigitValue('/') == 36
  {}

  /** A position is found whatever letters it is typed in, with white space in front. */
  lemma TypedPosition(a: string, lsn: U64)
    requires AllSpace(a)
    ensures StringToLsn(a + LsnToString(lsn)) == StringToLsn(a + Lower(LsnToString(lsn))) == lsn
  {
    hide Hex, StrToUl, StringToLsn, Combine, Low32;
    LsnRoundTrip(lsn);
    var hi, lo := lsn / 0x1_0000_0000, lsn % 0x1_0000_0000;
    var tail := Lower(Hex(lo));
    assert Lower(LsnToString(lsn)) == Lower(Hex(hi)) + ("/" + tail);
    ScanLower(hi, "/" + tail);
    ScanLower(lo, "");
    assert LsnToString(lsn) == Hex(hi) + ("/" + Hex(lo));
    ScanHex(hi, "/" + Hex(lo));
    assert tail + "" == tail;
    ScanHalves(Lower(LsnToString(lsn)), hi, lo, tail);
    Halves(lsn);
    BlankInFront(a, LsnToString(lsn));
    BlankInFront(a, Lower(LsnToString(lsn)));
  }

  lemma {:induction false} TrimLeftAll(a: string, s: string)
    requires AllSpace(a)
    ensures TrimLeft(a + s) == TrimLeft(s)
  {
    if a == "" {
      assert a + s == s;
    } else {
      assert (a + s)[1..] == a[1..] + s;
      TrimLeftAll(a[1..], s);
    }
  }

  lemma BlankInFront(a: string, s: string)
    requires AllSpace(a) && StrToUl(s, 16).found
    ensures StringToLsn(a + s) == StringToLsn(s)
  {
    hide AfterPrefix, AfterSign, DigitPrefix, DigitsValue, Magnitude;
    TrimLeftAll(a, s);
  }

  // ----- the positions that are offered -----

  /** The number of keys with the prefix. */
  function Count(keys: seq<string>, prefix: string): nat
  {
    if keys == [] then 0
    else Count(keys[..|keys| - 1], prefix) + if HasPrefix(keys[|keys| - 1], prefix) then 1 else 0
  }

  /** The text is a key with the prefix, and fewer than 64 such keys come before it. */
  predicate AmongFirst(keys: seq<string>, prefix: string, v: string)
  {
    exists i :: 0 <= i < |keys| && keys[i] == v && HasPrefix(v, prefix) && Count(keys[..i], prefix) < 64
  }

  lemma {:induction false} FirstsMeaning(keys: seq<string>, prefix: string, v: string)
    ensures |Prefixed(keys, prefix)| == Count(keys, prefix)
    ensures v in Firsts(Prefixed(keys, prefix), 64) <==> AmongFirst(keys, prefix, v)
  {
    hide HasPrefix;
    if keys != [] {
      var n := |keys| - 1;
      var front, last := keys[..n], keys[n];
      FirstsMeaning(front, prefix, v);
      assert forall i :: 0 <= i < n ==> front[..i] == keys[..i];
      var before, after := Firsts(Prefixed(front, prefix), 64), Firsts(Prefixed(keys, prefix), 64);
      if HasPrefix(last, prefix) && Count(front, prefix) < 64 {
        assert after == before + [last];
      } else {
        assert after == before;
      }
    }
  }

  /** The texts of positions, in the order of the index. */
  function Texts(positions: seq<U64>): (keys: seq<string>)
    ensures |keys| == |positions| && forall i :: 0 <= i < |keys| ==> keys[i] == LsnToString(positions[i])
  {
    seq(|positions|, i requires 0 <= i < |positions| => LsnToString(positions[i]))
  }

  /** Which candidates lie on the right side of a position. */
  lemma InsideMeaning(x: U64, lsn: U64)
    ensures Inside(LsnToString(x), Under(lsn)) <==> x < lsn
    ensures Inside(LsnToString(x), Over(lsn)) <==> lsn < x
  {
    hide LsnToString, StringToLsn;
    LsnRoundTrip(x);
  }

  lemma PositionHasContent(lsn: U64)
    ensures !AllSpace(LsnToString(lsn))
  {
    assert LsnToString(lsn)[|Hex(lsn / 0x1_0000_0000)|] == '/';
  }

  lemma BoundsTyped(other: string, lsn: U64)
    requires 0 < lsn
    ensures BoundOf(1, other, LsnToString(lsn)) == Under(lsn)
    ensures BoundOf(2, LsnToString(lsn), other) == Over(lsn)
  {
    hide LsnToString, StringToLsn, AllSpace;
    LsnRoundTrip(lsn);
    PositionHasContent(lsn);
  }

  /** Next to a typed position the start field offers exactly the smaller ones, and the end field exactly the
      larger ones, of the first 64 positions that begin with the typed text in capital letters; next to an empty
      field all of these are offered. */
  lemma OfferedMeaning(positions: seq<U64>, partial: string, other: string, lsn: U64, x: U64)
    requires |partial| < 256 && 0 < lsn && positions != []
    ensures var keys, v := Texts(positions), LsnToString(x);
            var start := Known(keys, BoundOf(1, other, LsnToString(lsn)), partial);
            var end := Known(keys, BoundOf(2, LsnToString(lsn), other), partial);
            && start.Some? && end.Some?
            && (v in start.value <==> AmongFirst(keys, Upper(partial), v) && x < lsn)
            && (v in end.value <==> AmongFirst(keys, Upper(partial), v) && lsn < x)
    ensures var keys, v := Texts(positions), LsnToString(x);
            var start, end := Known(keys, BoundOf(1, other, ""), partial), Known(keys, BoundOf(2, "", other), partial);
            start.Some? && start == end && (v in start.value <==> AmongFirst(keys, Upper(partial), v))
  {
    hide LsnToString, Prefixed, Bounded, AmongFirst, Inside;
    var keys, v := Texts(positions), LsnToString(x);
    var first := Firsts(Prefixed(keys, Upper(partial)), 64);
    FirstsMeaning(keys, Upper(partial), v);
    BoundsTyped(other, lsn);
    BoundedMeaning(first, Under(lsn), v);
    BoundedMeaning(first, Over(lsn), v);
    InsideMeaning(x, lsn);
    FreeKeeps(first);
  }
}
