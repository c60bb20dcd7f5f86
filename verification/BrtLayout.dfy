/** The file of a block reference table byte by byte (src/include/brt.h, src/libpgmoneta/brt.c). */
module BrtLayout {
  import opened Bytes
  import opened BrtChunk
  import opened BrtEntry
  import opened BrtFormat
  import opened BrtWrite
  import opened BrtRoundTrip

  /** The number in two, and in four, little-endian bytes. */
  function Two(b: seq<Byte>, i: nat): nat
    requires i + 2 <= |b|
  {
    b[i] as nat + 0x100 * b[i + 1] as nat
  }

  function Four(b: seq<Byte>, i: nat): nat
    requires i + 4 <= |b|
  {
    b[i] as nat + 0x100 * b[i + 1] as nat + 0x1_0000 * b[i + 2] as nat + 0x100_0000 * b[i + 3] as nat
  }

  lemma FourOf(x: nat)
    requires x < 0x1_0000_0000
    ensures Four(ToBytes(x, 4), 0) == x
  {
    var y, z := x / 0x100, x / 0x1_0000;
    assert ToBytes(x, 4) == [x % 0x100] + ToBytes(y, 3);
    assert ToBytes(y, 3) == [y % 0x100] + ToBytes(y / 0x100, 2);
    assert ToBytes(z, 2) == [z % 0x100] + ToBytes(z / 0x100, 1);
    assert ToBytes(z / 0x100, 1) == [z / 0x100 % 0x100] + ToBytes(z / 0x1_0000, 0);
    assert y / 0x100 == z && z / 0x100 < 0x100;
  }

  lemma TwoOf(x: nat)
    requires x < 0x1_0000
    ensures Two(ToBytes(x, 2), 0) == x
  {
    assert ToBytes(x, 2) == [x % 0x100] + ToBytes(x / 0x100, 1);
  }

  /** A header is six numbers of four bytes: tablespace, database, relation, fork, limit and number of chunks. */
  lemma HeaderLayout(item: Item)
    requires ValidItem(item)
    ensures var b := HeaderBytes(item);
            && |b| == 24
            && Four(b, 0) == item.key.spcOid && Four(b, 4) == item.key.dbOid && Four(b, 8) == item.key.relNumber
            && Four(b, 12) == item.key.forknum % 0x1_0000_0000 && Four(b, 16) == item.limit
            && Four(b, 20) == |item.chunks|
  {
    hide ToBytes;
    FourOf(item.key.spcOid);
    FourOf(item.key.dbOid);
    FourOf(item.key.relNumber);
    FourOf(item.key.forknum % 0x1_0000_0000);
    FourOf(item.limit);
    FourOf(|item.chunks|);
  }

  lemma {:induction false} WordLayout(words: seq<nat>, i: nat)
    requires i < |words| && words[i] < 0x1_0000
    ensures Two(WordBytes(words), 2 * i) == words[i]
  {
    var b := WordBytes(words);
    if i == 0 {
      TwoOf(words[0]);
    } else {
      WordLayout(words[1..], i - 1);
      hide ToBytes;
      assert b[2..] == WordBytes(words[1..]);
    }
  }

  /** Where the words of chunk `j` start, counted in words from the start of the chunk data. */
  function WordsBefore(chunks: seq<seq<Word>>, j: nat): nat
    requires j <= |chunks|
  {
    if j == 0 then 0 else WordsBefore(chunks, j - 1) + |chunks[j - 1]|
  }

  lemma {:induction false} ChunkLayout(chunks: seq<seq<Word>>, j: nat, i: nat)
    requires j < |chunks| && i < |chunks[j]|
    ensures 2 * (WordsBefore(chunks, j) + i) + 2 <= |ChunkBytes(chunks)|
    ensures Two(ChunkBytes(chunks), 2 * (WordsBefore(chunks, j) + i)) == chunks[j][i]
  {
    hide WordBytes;
    var first, rest := WordBytes(chunks[0]), ChunkBytes(chunks[1..]);
    if j == 0 {
      WordLayout(chunks[0], i);
    } else {
      ChunkLayout(chunks[1..], j - 1, i);
      WordsBehind(chunks, j);
      assert ChunkBytes(chunks)[|first|..] == rest;
    }
  }

  lemma {:induction false} WordsBehind(chunks: seq<seq<Word>>, j: nat)
    requires 0 < j <= |chunks|
    ensures WordsBefore(chunks, j) == |chunks[0]| + WordsBefore(chunks[1..], j - 1)
  {
    if 1 < j {
      WordsBehind(chunks, j - 1);
    }
  }

  /** An entry is its header, the usage of each chunk, and the chunks one behind the other, all in words of two
      bytes. */
  lemma ItemLayout(item: Item, j: nat, i: nat)
    requires ValidItem(item) && j < |item.chunks|
    ensures var b, n := ItemBytes(item), |item.chunks|;
            && 24 + 2 * n <= |b| && b[..24] == HeaderBytes(item)
            && Two(b, 24 + 2 * j) == |item.chunks[j]|
            && (i < |item.chunks[j]| ==>
                && 24 + 2 * n + 2 * (WordsBefore(item.chunks, j) + i) + 2 <= |b|
                && Two(b, 24 + 2 * n + 2 * (WordsBefore(item.chunks, j) + i)) == item.chunks[j][i])
  {
    hide HeaderBytes, WordBytes, ChunkBytes, WordsBefore;
    WordLayout(Usages(item.chunks), j);
    if i < |item.chunks[j]| {
      ChunkLayout(item.chunks, j, i);
    }
  }

  /** A file is the magic number, the entries one behind the other, and 24 zero bytes. */
  lemma FileLayout(items: seq<Item>)
    ensures var file := FileOf(items);
            && 28 <= |file| && file[..4] == [0x7b, 0x13, 0x2b, 0x65]
            && file[4..|file| - 24] == Body(items)
            && forall i :: |file| - 24 <= i < |file| ==> file[i] == 0
  {
    hide ItemsBytes, Body;
    BodyIsItems(items);
    Magic();
  }

  lemma Magic()
    ensures ToBytes(0x652b137b, 4) == [0x7b, 0x13, 0x2b, 0x65]
  {
    assert ToBytes(0x65, 1) == [0x65] + ToBytes(0, 0);
    assert ToBytes(0x652b, 2) == [0x2b] + ToBytes(0x65, 1);
    assert ToBytes(0x652b13, 3) == [0x13] + ToBytes(0x652b, 2);
    assert ToBytes(0x652b137b, 4) == [0x7b] + ToBytes(0x652b13, 3);
  }

  // ----- what the words stand for -----

  /** The value of bit `i`. */
  function Power(i: nat): (p: nat)
    ensures 0 < p
  {
    if i == 0 then 1 else 2 * Power(i - 1)
  }

  /** Offset `o` is recorded in the words of a chunk: in a full one by a bit, the lowest one for the first offset,
      and in any other one as it is. */
  predicate InChunk(words: seq<Word>, o: nat)
    requires o < 65536
  {
    if |words| == 4096 then words[o / 16] / Power(o % 16) % 2 == 1 else o in words
  }

  /** Block `x` is recorded in the chunks. */
  predicate Recorded(chunks: seq<seq<Word>>, x: nat)
  {
    x / 65536 < |chunks| && InChunk(chunks[x / 65536], x % 65536)
  }

  lemma {:induction false} BitIsDigit(w: nat, i: nat)
    ensures Bit(w, i) <==> w / Power(i) % 2 == 1
  {
    if 0 < i {
      BitIsDigit(w / 2, i - 1);
      Halved(w, Power(i - 1));
    }
  }

  lemma Halved(w: nat, p: nat)
    requires 0 < p
    ensures w / 2 / p == w / (2 * p)
  {
    var q, r := w / 2 / p, w / 2 % p;
    assert w == 2 * p * q + (2 * r + w % 2);
    Quotient(w, 2 * p, q, 2 * r + w % 2);
  }

  lemma Quotient(w: nat, d: nat, q: nat, r: nat)
    requires r < d && w == d * q + r
    ensures w / d == q
  {
    var k := w / d - q;
    assert d * k == r - w % d;
    assert k >= 1 ==> d * (k - 1) >= 0;
    assert k <= -1 ==> d * (-k - 1) >= 0;
  }

  /** What is written for an entry records exactly its modified blocks. */
  lemma BlocksLayout(e: Entry, x: nat)
    requires e.Valid()
    ensures x in e.Blocks() <==> Recorded(ItemOf(e).chunks, x)
  {
    hide ValidChunk, Has, InChunk, Entry.Blocks;
    var k, o := x / 65536, x % 65536;
    ItemUses(e);
    if k < e.nchunks {
      var c := e.ChunkAt(k);
      assert ValidChunk(c);
      ChunkRecords(c, o);
      if c.usage == 0 {
        UnusedChunk(c, o);
      }
    }
  }

  lemma ChunkRecords(c: Chunk, o: nat)
    requires ValidChunk(c) && o < 65536
    ensures c.usage <= |c.data| && (Has(c, o) <==> InChunk(c.data[..c.usage], o))
  {
    hide Bit;
    if c.usage == 4096 {
      var words := c.data[..c.usage];
      assert words[o / 16] == c.data[o / 16];
      BitIsDigit(words[o / 16], o % 16);
    }
  }
}
