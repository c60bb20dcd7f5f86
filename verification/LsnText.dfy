/** Numbers as text: strtoul, and the text of a log sequence number
    (src/libpgmoneta/utils.c). */
module LsnText {
  import opened Bytes
  import opened Text

  const ULONG_MAX := 0xFFFF_FFFF_FFFF_FFFF

  // ----- strtoul -----

  /** The value of a digit in any base, 36 for another character. */
  function DigitValue(c: char): nat
  {
    if '0' <= c <= '9' then (c - '0') as nat
    else if 'A' <= c <= 'Z' then (c - 'A') as nat + 10
    else if 'a' <= c <= 'z' then (c - 'a') as nat + 10
    else 36
  }

  predicate AllDigits(s: string, base: nat)
  {
    forall i :: 0 <= i < |s| ==> DigitValue(s[i]) < base
  }

  /** The longest prefix that consists of digits. */
  function DigitPrefix(s: string, base: nat): (n: nat)
    ensures n <= |s| && AllDigits(s[..n], base) && (n < |s| ==> DigitValue(s[n]) >= base)
  {
    if s == "" || DigitValue(s[0]) >= base then 0
    else
      var n := 1 + DigitPrefix(s[1..], base);
      assert s[..n] == [s[0]] + s[1..][..n - 1];
      n
  }

  function DigitsValue(s: string, base: nat): nat
  {
    if s == "" then 0 else DigitsValue(s[..|s| - 1], base) * base + DigitValue(s[|s| - 1])
  }

  /** The parsed number, and the text behind it; `found` is false when there was no digit. */
  datatype Scanned = Scanned(found: bool, value: U64, rest: string)

  /** Drops an optional sign. */
  function AfterSign(s: string): string
  {
    if s != "" && (s[0] == '-' || s[0] == '+') then s[1..] else s
  }

  /** Drops "0x" when a digit follows. */
  function AfterPrefix(s: string, base: nat): string
  {
    if base == 16 && |s| > 2 && s[0] == '0' && (s[1] == 'x' || s[1] == 'X') && DigitValue(s[2]) < 16 then s[2..] else s
  }

  function Magnitude(v: nat, negative: bool): U64
  {
    if v > ULONG_MAX then ULONG_MAX
    else if negative then (ULONG_MAX + 1 - v) % (ULONG_MAX + 1)
    else v
  }

  /** strtoul: white space, sign, prefix and digits; too large a number becomes the largest one. */
  function StrToUl(s: string, base: nat): Scanned
  {
    var t := TrimLeft(s);
    var d := AfterPrefix(AfterSign(t), base);
    var n := DigitPrefix(d, base);
    if n == 0 then Scanned(false, 0, s)
    else Scanned(true, Magnitude(DigitsValue(d[..n], base), t[0] == '-'), d[n..])
  }

  /** The cast to 32 bits. */
  function Low32(v: U64): U32
  {
    v % 0x1_0000_0000
  }

  // ----- the text of a log sequence number -----

  function HexDigit(d: nat): (c: char)
    requires d < 16
    ensures DigitValue(c) == d && !IsSpace(c) && c != '/'
  {
    if d < 10 then '0' + d as char else 'A' + (d - 10) as char
  }

  /** "%X" */
  function Hex(n: nat): (s: string)
    ensures s != "" && AllDigits(s, 16) && DigitsValue(s, 16) == n
    ensures (s[0] == '0' ==> n == 0) && (n == 0 ==> s == "0")
  {
    if n < 16 then
      assert DigitsValue([HexDigit(n)], 16) == DigitsValue([], 16) * 16 + n;
      [HexDigit(n)]
    else Hex(n / 16) + [HexDigit(n % 16)]
  }

  /** "%X/%X" of the two halves. */
  function LsnToString(lsn: U64): string
  {
    Hex(lsn / 0x1_0000_0000) + "/" + Hex(lsn % 0x1_0000_0000)
  }

  function Combine(hi: U32, lo: U32): U64
  {
    hi * 0x1_0000_0000 + lo
  }

  /** sscanf with "%X/%X"; what is not found is zero. */
  function StringToLsn(s: string): U64
  {
    var hi := StrToUl(s, 16);
    if !hi.found then 0
    else
      var lo := if hi.rest != "" && hi.rest[0] == '/' then StrToUl(hi.rest[1..], 16) else Scanned(false, 0, "");
      Combine(Low32(hi.value), if lo.found then Low32(lo.value) else 0)
  }

  lemma {:induction false} DigitPrefixIs(d: string, rest: string, base: nat)
    requires AllDigits(d, base) && (rest != "" ==> DigitValue(rest[0]) >= base)
    ensures DigitPrefix(d + rest, base) == |d|
  {
    if d == "" {
      assert d + rest == rest;
    } else {
      assert (d + rest)[1..] == d[1..] + rest;
      DigitPrefixIs(d[1..], rest, base);
    }
  }

  /** A printed number is scanned up to the next character that is no digit. */
  lemma ScanHex(n: U32, rest: string)
    requires rest == "" || rest[0] == '/'
    ensures StrToUl(Hex(n) + rest, 16) == Scanned(true, n, rest)
  {
    hide Hex, DigitPrefix, DigitsValue;
    var h := Hex(n);
    var s := h + rest;
    assert s[0] == h[0] && DigitValue(h[0]) < 16;
    assert TrimLeft(s) == s;
    assert AfterSign(s) == s;
    assert AfterPrefix(s, 16) == s by {
      if h[0] == '0' { assert s == "0" + rest; }
    }
    DigitPrefixIs(h, rest, 16);
    assert s[..|h|] == h && s[|h|..] == rest;
  }

  lemma Halves(lsn: U64)
    ensures Combine(Low32(lsn / 0x1_0000_0000), Low32(lsn % 0x1_0000_0000)) == lsn
  {}

  /** A position is scanned half by half. */
  lemma ScanHalves(s: string, hi: U32, lo: U32, tail: string)
    requires StrToUl(s, 16) == Scanned(true, hi, "/" + tail) && StrToUl(tail, 16) == Scanned(true, lo, "")
    ensures StringToLsn(s) == Combine(Low32(hi), Low32(lo))
  {
    hide StrToUl, Combine, Low32;
    assert ("/" + tail)[1..] == tail;
  }

  /** The text of a log sequence number is read back as that number. */
  lemma LsnRoundTrip(lsn: U64)
    ensures StringToLsn(LsnToString(lsn)) == lsn
  {
    hide Hex, StrToUl, StringToLsn, Combine, Low32;
    var hi, lo := lsn / 0x1_0000_0000, lsn % 0x1_0000_0000;
    assert LsnToString(lsn) == Hex(hi) + ("/" + Hex(lo));
    ScanHex(hi, "/" + Hex(lo));
    ScanHex(lo, "");
    assert Hex(lo) + "" == Hex(lo);
    ScanHalves(LsnToString(lsn), hi, lo, Hex(lo));
    Halves(lsn);
  }

  /** Different log sequence numbers have different texts. */
  lemma LsnInjective(m: U64, n: U64)
    ensures LsnToString(m) == LsnToString(n) <==> m == n
  {
    hide LsnToString, StringToLsn;
    LsnRoundTrip(m);
    LsnRoundTrip(n);
  }

  lemma {:induction false} HexLength(n: nat, k: nat)
    requires 0 < k && n < Pow16(k)
    ensures |Hex(n)| <= k
  {
    if 16 <= n {
      HexLength(n / 16, k - 1);
    }
  }

  function Pow16(k: nat): nat
  {
    if k == 0 then 1 else 16 * Pow16(k - 1)
  }

  /** The text of a position has at most 17 characters. */
  lemma LsnLength(lsn: U64)
    ensures |LsnToString(lsn)| <= 17
  {
    assert Pow16(4) == 0x1_0000;
    assert Pow16(8) == 0x1_0000_0000;
    hide Pow16, Hex;
    HexLength(lsn / 0x1_0000_0000, 8);
    HexLength(lsn % 0x1_0000_0000, 8);
  }

  // ----- decimal numbers -----

  lemma {:induction false} DecimalValue(n: nat)
    ensures AllDigits(Digits(n), 10) && DigitsValue(Digits(n), 10) == n
  {
    if n < 10 {
      assert DigitsValue([Digit(n)], 10) == DigitsValue([], 10) * 10 + n;
    } else {
      DecimalValue(n / 10);
    }
  }

  /** A printed decimal number is scanned as a whole. */
  lemma ScanDecimal(n: U32)
    ensures StrToUl(Digits(n), 10) == Scanned(true, n, "")
  {
    hide Digits, DigitPrefix, DigitsValue;
    var d := Digits(n);
    DecimalValue(n);
    assert TrimLeft(d) == d && AfterSign(d) == d;
    DigitPrefixIs(d, "", 10);
    assert d + "" == d && d[..|d|] == d && d[|d|..] == "";
  }
}
