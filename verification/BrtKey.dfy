/** The text under which an entry is stored in the radix tree (src/libpgmoneta/brt.c): the four
    numbers of its key, each printed into a buffer of eleven characters. */
module BrtKey {
  import opened Text
  import opened BrtEntry

  /** "%d" */
  function Decimal(i: int): string
  {
    if i < 0 then "-" + Digits(-i) else Digits(i)
  }

  /** The value of an unsigned number after the cast to int. */
  function AsInt(x: BlockNumber): int
  {
    if x < 0x8000_0000 then x else x - 0x1_0000_0000
  }

  /** The number printed with at most ten characters. */
  function PrintInt(i: int): string
  {
    Print(Decimal(i), 11)
  }

  function ArtKey(k: Key): string
  {
    PrintInt(AsInt(k.spcOid)) + "_" + PrintInt(AsInt(k.dbOid)) + "_"
    + PrintInt(AsInt(k.relNumber)) + "_" + PrintInt(k.forknum)
  }

  /** The number that the printed text shows: the widest negative numbers lose their last digit. */
  function Shown(i: int): int
  {
    if i <= -1_000_000_000 then -(-i / 10) else i
  }

  lemma {:induction false} DigitsInjective(m: nat, n: nat)
    ensures Digits(m) == Digits(n) ==> m == n
    decreases m
  {
    if Digits(m) == Digits(n) {
      var s := Digits(m);
      assert s[|s| - 1] == Digit(m % 10) == Digit(n % 10);
      if 10 <= m && 10 <= n {
        assert Digits(m / 10) == s[..|s| - 1] == Digits(n / 10);
        DigitsInjective(m / 10, n / 10);
      } else {
        ShortDigits(m);
        ShortDigits(n);
      }
    }
  }

  lemma DecimalInjective(i: int, j: int)
    ensures Decimal(i) == Decimal(j) ==> i == j
  {
    if Decimal(i) == Decimal(j) {
      assert Decimal(i)[0] == '-' <==> i < 0;
      assert Decimal(j)[0] == '-' <==> j < 0;
      if i < 0 {
        assert Digits(-i) == Decimal(i)[1..] == Decimal(j)[1..] == Digits(-j);
        DigitsInjective(-i, -j);
      } else {
        DigitsInjective(i, j);
      }
    }
  }

  /** What a 32-bit number looks like in ten characters. */
  lemma PrintIntShows(i: int)
    requires -0x8000_0000 <= i < 0x8000_0000
    ensures PrintInt(i) == Decimal(Shown(i))
  {
    PowersOfTen();
    hide Pow10;
    if i < 0 {
      DigitsLength(-i, 9);
      DigitsLength(-i, 10);
      if i <= -1_000_000_000 {
        assert Digits(-i) == Digits(-i / 10) + [Digit(-i % 10)];
        assert ("-" + Digits(-i))[..10] == "-" + Digits(-i / 10);
      }
    } else {
      DigitsLength(i, 10);
    }
  }

  lemma NoUnderscore(i: int)
    ensures '_' !in PrintInt(i)
  {
    var d := Digits(if i < 0 then -i else i);
  }

  /** Equal heads in front of the first separator, and equal rests. */
  lemma SplitAtUnderscore(a: string, x: string, b: string, y: string)
    requires '_' !in a && '_' !in b
    ensures a + "_" + x == b + "_" + y <==> a == b && x == y
  {
    var s, t := a + "_" + x, b + "_" + y;
    if s == t {
      assert s[..|a|] == a && t[..|b|] == b;
      IndexOfUnique(s, '_', |a|);
      IndexOfUnique(t, '_', |b|);
      assert x == s[|a| + 1..] && y == t[|b| + 1..];
    }
  }

  predicate ValidKey(k: Key)
  {
    -0x8000_0000 <= k.forknum < 0x8000_0000
  }

  lemma ShownIsKey(i: int, j: int)
    requires -0x8000_0000 <= i < 0x8000_0000 && -0x8000_0000 <= j < 0x8000_0000
    ensures PrintInt(i) == PrintInt(j) <==> Shown(i) == Shown(j)
  {
    PrintIntShows(i);
    PrintIntShows(j);
    DecimalInjective(Shown(i), Shown(j));
  }

  /** Two relation forks share an entry exactly when every number of their keys shows the same. */
  lemma KeysCollide(k: Key, l: Key)
    requires ValidKey(k) && ValidKey(l)
    ensures ArtKey(k) == ArtKey(l) <==>
            && Shown(AsInt(k.spcOid)) == Shown(AsInt(l.spcOid)) && Shown(AsInt(k.dbOid)) == Shown(AsInt(l.dbOid))
            && Shown(AsInt(k.relNumber)) == Shown(AsInt(l.relNumber)) && Shown(k.forknum) == Shown(l.forknum)
  {
    hide PrintInt, Shown;
    var a, b, c, d := PrintInt(AsInt(k.spcOid)), PrintInt(AsInt(k.dbOid)), PrintInt(AsInt(k.relNumber)), PrintInt(k.forknum);
    var e, f, g, h := PrintInt(AsInt(l.spcOid)), PrintInt(AsInt(l.dbOid)), PrintInt(AsInt(l.relNumber)), PrintInt(l.forknum);
    NoUnderscore(AsInt(k.spcOid));
    NoUnderscore(AsInt(l.spcOid));
    NoUnderscore(AsInt(k.dbOid));
    NoUnderscore(AsInt(l.dbOid));
    NoUnderscore(AsInt(k.relNumber));
    NoUnderscore(AsInt(l.relNumber));
    assert ArtKey(k) == a + "_" + (b + "_" + (c + "_" + d));
    assert ArtKey(l) == e + "_" + (f + "_" + (g + "_" + h));
    SplitAtUnderscore(a, b + "_" + (c + "_" + d), e, f + "_" + (g + "_" + h));
    SplitAtUnderscore(b, c + "_" + d, f, g + "_" + h);
    SplitAtUnderscore(c, d, g, h);
    ShownIsKey(AsInt(k.spcOid), AsInt(l.spcOid));
    ShownIsKey(AsInt(k.dbOid), AsInt(l.dbOid));
    ShownIsKey(AsInt(k.relNumber), AsInt(l.relNumber));
    ShownIsKey(k.forknum, l.forknum);
  }

  /** Below 2^31 every object id shows itself, so distinct forks have distinct entries. */
  lemma SmallKeysDiffer(k: Key, l: Key)
    requires ValidKey(k) && ValidKey(l) && k != l && -1_000_000_000 < k.forknum && -1_000_000_000 < l.forknum
    requires k.spcOid < 0x8000_0000 && k.dbOid < 0x8000_0000 && k.relNumber < 0x8000_0000
    requires l.spcOid < 0x8000_0000 && l.dbOid < 0x8000_0000 && l.relNumber < 0x8000_0000
    ensures ArtKey(k) != ArtKey(l)
  {
    hide ArtKey;
    KeysCollide(k, l);
  }

  /** Object ids from 2^31 to 3294967296 are printed as a negative int without its last digit, so two of them
      whose ints differ in that digit alone share an entry. */
  lemma LargeKeysCollide()
    ensures ArtKey(Key(1663, 1, 0x8000_0000, 0)) == ArtKey(Key(1663, 1, 0x8000_0001, 0))
  {
    hide ArtKey;
    KeysCollide(Key(1663, 1, 0x8000_0000, 0), Key(1663, 1, 0x8000_0001, 0));
  }
}
