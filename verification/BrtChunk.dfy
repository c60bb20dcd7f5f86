/** One chunk of a block reference table entry (src/libpgmoneta/brt.c): up to 4095 offsets as an
    array, or 65536 offsets as a bitmap of 4096 words. */
module BrtChunk {

  type Word = x: int | 0 <= x < 0x1_0000

  const BLOCKS_PER_CHUNK := 0x1_0000
  const BLOCKS_PER_ENTRY := 16
  const MAX_ENTRIES_PER_CHUNK := BLOCKS_PER_CHUNK / BLOCKS_PER_ENTRY
  const INITIAL_ENTRIES_PER_CHUNK := 16

  // ----- the bits of a word -----

  function Pow2(n: nat): nat
  {
    if n == 0 then 1 else 2 * Pow2(n - 1)
  }

  /** Bit `i` of `w`. */
  predicate Bit(w: nat, i: nat)
  {
    if i == 0 then w % 2 == 1 else Bit(w / 2, i - 1)
  }

  /** `w | (1 << i)` */
  function SetBit(w: nat, i: nat): nat
    decreases i
  {
    if i == 0 then (if w % 2 == 1 then w else w + 1) else 2 * SetBit(w / 2, i - 1) + w % 2
  }

  /** `w & ~(1 << i)` */
  function ClearBit(w: nat, i: nat): (r: nat)
    ensures r <= w
    decreases i
  {
    if i == 0 then (if w % 2 == 1 then w - 1 else w) else 2 * ClearBit(w / 2, i - 1) + w % 2
  }

  lemma {:induction false} SetBitBit(w: nat, i: nat, k: nat)
    ensures Bit(SetBit(w, i), k) <==> k == i || Bit(w, k)
    decreases i
  {
    if 0 < i && 0 < k {
      SetBitBit(w / 2, i - 1, k - 1);
    }
  }

  lemma {:induction false} ClearBitBit(w: nat, i: nat, k: nat)
    ensures Bit(ClearBit(w, i), k) <==> k != i && Bit(w, k)
    decreases i
  {
    if 0 < i && 0 < k {
      ClearBitBit(w / 2, i - 1, k - 1);
    }
  }

  lemma {:induction false} SetBitBound(w: nat, i: nat, n: nat)
    requires i < n && w < Pow2(n)
    ensures SetBit(w, i) < Pow2(n)
    decreases n
  {
    assert Pow2(n) == 2 * Pow2(n - 1);
    if 0 < i {
      SetBitBound(w / 2, i - 1, n - 1);
    }
  }

  lemma {:induction false} ZeroBit(i: nat)
    ensures !Bit(0, i)
  {
    if 0 < i { ZeroBit(i - 1); }
  }

  lemma WordBits(w: Word, i: nat)
    requires i < BLOCKS_PER_ENTRY
    ensures SetBit(w, i) < BLOCKS_PER_CHUNK
  {
    assert Pow2(4) == 16;
    assert Pow2(8) == 256;
    assert Pow2(12) == 4096;
    assert Pow2(16) == BLOCKS_PER_CHUNK;
    SetBitBound(w, i, 16);
  }

  // ----- a chunk and the offsets it stands for -----

  datatype Chunk = Chunk(size: nat, usage: nat, data: seq<Word>)

  /** An allocated chunk has a power-of-two size; below 4096 its used entries are distinct. */
  ghost predicate ValidChunk(c: Chunk)
  {
    && |c.data| == c.size && c.usage <= c.size
    && c.size in {0, 16, 32, 64, 128, 256, 512, 1024, 2048, MAX_ENTRIES_PER_CHUNK}
    && (c.usage < MAX_ENTRIES_PER_CHUNK ==> Distinct(c.data[..c.usage]))
  }

  ghost predicate Distinct(s: seq<int>)
  {
    forall i, j :: 0 <= i < j < |s| ==> s[i] != s[j]
  }

  /** The bit of offset `o` in a bitmap. */
  predicate BitAt(data: seq<Word>, o: nat)
    requires o / BLOCKS_PER_ENTRY < |data|
  {
    Bit(data[o / BLOCKS_PER_ENTRY], o % BLOCKS_PER_ENTRY)
  }

  /** Whether the chunk records offset `o`, in either representation. */
  ghost predicate Has(c: Chunk, o: nat)
    requires ValidChunk(c)
  {
    if c.usage == MAX_ENTRIES_PER_CHUNK then o < BLOCKS_PER_CHUNK && BitAt(c.data, o)
    else o in c.data[..c.usage]
  }

  /** Sets the bit of offset `o`. */
  function PutBit(data: seq<Word>, o: nat): (r: seq<Word>)
    requires |data| == MAX_ENTRIES_PER_CHUNK && o < BLOCKS_PER_CHUNK
    ensures |r| == |data|
  {
    WordBits(data[o / BLOCKS_PER_ENTRY], o % BLOCKS_PER_ENTRY);
    data[o / BLOCKS_PER_ENTRY := SetBit(data[o / BLOCKS_PER_ENTRY], o % BLOCKS_PER_ENTRY)]
  }

  function DropBit(data: seq<Word>, o: nat): (r: seq<Word>)
    requires |data| == MAX_ENTRIES_PER_CHUNK && o < BLOCKS_PER_CHUNK
    ensures |r| == |data|
  {
    data[o / BLOCKS_PER_ENTRY := ClearBit(data[o / BLOCKS_PER_ENTRY], o % BLOCKS_PER_ENTRY)]
  }

  lemma PutBitAt(data: seq<Word>, o: nat, k: nat)
    requires |data| == MAX_ENTRIES_PER_CHUNK && o < BLOCKS_PER_CHUNK && k < BLOCKS_PER_CHUNK
    ensures BitAt(PutBit(data, o), k) <==> k == o || BitAt(data, k)
  {
    hide Bit, SetBit;
    if k / BLOCKS_PER_ENTRY == o / BLOCKS_PER_ENTRY {
      SetBitBit(data[o / BLOCKS_PER_ENTRY], o % BLOCKS_PER_ENTRY, k % BLOCKS_PER_ENTRY);
    }
  }

  lemma DropBitAt(data: seq<Word>, o: nat, k: nat)
    requires |data| == MAX_ENTRIES_PER_CHUNK && o < BLOCKS_PER_CHUNK && k < BLOCKS_PER_CHUNK
    ensures BitAt(DropBit(data, o), k) <==> k != o && BitAt(data, k)
  {
    hide Bit, ClearBit;
    if k / BLOCKS_PER_ENTRY == o / BLOCKS_PER_ENTRY {
      ClearBitBit(data[o / BLOCKS_PER_ENTRY], o % BLOCKS_PER_ENTRY, k % BLOCKS_PER_ENTRY);
    }
  }

  /** Turns an array of offsets into a bitmap. */
  method ToBitmap(offsets: seq<Word>) returns (data: seq<Word>)
    ensures |data| == MAX_ENTRIES_PER_CHUNK
    ensures forall k: nat :: k < BLOCKS_PER_CHUNK ==> (BitAt(data, k) <==> k in offsets)
  {
    hide Bit, BitAt, PutBit;
    data := seq(MAX_ENTRIES_PER_CHUNK, _ => 0);
    EmptyBitmap(data);
    for j := 0 to |offsets|
      invariant |data| == MAX_ENTRIES_PER_CHUNK
      invariant forall k: nat :: k < BLOCKS_PER_CHUNK ==> (BitAt(data, k) <==> k in offsets[..j])
    {
      forall k: nat | k < BLOCKS_PER_CHUNK
        ensures BitAt(PutBit(data, offsets[j]), k) <==> k == offsets[j] || BitAt(data, k)
      {
        PutBitAt(data, offsets[j], k);
      }
      data := PutBit(data, offsets[j]);
    }
  }

  lemma EmptyBitmap(data: seq<Word>)
    requires |data| == MAX_ENTRIES_PER_CHUNK && forall i :: 0 <= i < |data| ==> data[i] == 0
    ensures forall k: nat :: k < BLOCKS_PER_CHUNK ==> !BitAt(data, k)
  {
    forall k: nat | k < BLOCKS_PER_CHUNK
      ensures !BitAt(data, k)
    {
      ZeroBit(k % BLOCKS_PER_ENTRY);
    }
  }

  /** Records offset `o` in a chunk, allocating it, growing it or turning it into a bitmap. */
  method AddOffset(c: Chunk, o: Word) returns (r: Chunk)
    requires ValidChunk(c)
    ensures ValidChunk(r)
    ensures forall k: nat :: k < BLOCKS_PER_CHUNK ==> (Has(r, k) <==> k == o || Has(c, k))
  {
    hide BitAt, PutBit;
    if c.size == 0 {
      var data := seq(INITIAL_ENTRIES_PER_CHUNK, _ => 0);
      r := Chunk(INITIAL_ENTRIES_PER_CHUNK, 1, data[0 := o]);
      assert r.data[..1] == [o] && c.data[..0] == [];
      return;
    }
    if c.usage == MAX_ENTRIES_PER_CHUNK {
      r := c.(data := PutBit(c.data, o));
      forall k: nat | k < BLOCKS_PER_CHUNK
        ensures Has(r, k) <==> k == o || Has(c, k)
      {
        PutBitAt(c.data, o, k);
      }
      return;
    }
    for i := 0 to c.usage
      invariant o !in c.data[..i]
    {
      if c.data[i] == o {
        assert o in c.data[..c.usage];
        return c;
      }
    }
    if c.usage == MAX_ENTRIES_PER_CHUNK - 1 {
      var bitmap := ToBitmap(c.data[..c.usage]);
      r := Chunk(MAX_ENTRIES_PER_CHUNK, MAX_ENTRIES_PER_CHUNK, PutBit(bitmap, o));
      forall k: nat | k < BLOCKS_PER_CHUNK
        ensures Has(r, k) <==> k == o || Has(c, k)
      {
        PutBitAt(bitmap, o, k);
      }
      return;
    }
    r := c;
    if r.usage == r.size {
      r := Chunk(2 * r.size, r.usage, r.data + seq(r.size, _ => 0));
    }
    AppendOffset(c, r, o);
    r := Chunk(r.size, r.usage + 1, r.data[r.usage := o]);
  }

  lemma AppendOffset(c: Chunk, g: Chunk, o: Word)
    requires ValidChunk(c) && c.usage < MAX_ENTRIES_PER_CHUNK - 1 && o !in c.data[..c.usage]
    requires |g.data| == g.size && g.usage == c.usage < g.size && c.data[..c.usage] == g.data[..c.usage]
    requires g.size in {16, 32, 64, 128, 256, 512, 1024, 2048, MAX_ENTRIES_PER_CHUNK}
    ensures var r := Chunk(g.size, g.usage + 1, g.data[g.usage := o]);
            ValidChunk(r) && forall k: nat :: Has(r, k) <==> k == o || Has(c, k)
  {
    var r := Chunk(g.size, g.usage + 1, g.data[g.usage := o]);
    assert r.data[..r.usage] == c.data[..c.usage] + [o];
  }

  /** `kept` are the offsets of `all` below `limit`, each of them once. */
  ghost predicate AreBelow(kept: seq<int>, all: seq<int>, limit: nat)
  {
    Distinct(kept) && forall k: int :: k in kept <==> k < limit && k in all
  }

  lemma NextBelow(kept: seq<int>, all: seq<int>, x: int, limit: nat)
    requires AreBelow(kept, all, limit) && x !in all
    ensures AreBelow(if x < limit then kept + [x] else kept, all + [x], limit)
  {}

  /** Clears the bits from `limit` on. */
  method DropBits(data: seq<Word>, limit: nat) returns (r: seq<Word>)
    requires |data| == MAX_ENTRIES_PER_CHUNK && limit < BLOCKS_PER_CHUNK
    ensures |r| == |data|
    ensures forall k: nat :: k < BLOCKS_PER_CHUNK ==> (BitAt(r, k) <==> k < limit && BitAt(data, k))
  {
    hide Bit, BitAt, DropBit;
    r := data;
    for o := limit to BLOCKS_PER_CHUNK
      invariant |r| == |data|
      invariant forall k: nat :: k < BLOCKS_PER_CHUNK ==> (BitAt(r, k) <==> BitAt(data, k) && !(limit <= k < o))
    {
      forall k: nat | k < BLOCKS_PER_CHUNK
        ensures BitAt(DropBit(r, o), k) <==> k != o && BitAt(r, k)
      {
        DropBitAt(r, o, k);
      }
      r := DropBit(r, o);
    }
  }

  /** Moves the offsets below `limit` to the front of the array. */
  method CompactBelow(data: seq<Word>, usage: nat, limit: nat) returns (r: seq<Word>, j: nat)
    requires usage <= |data| && Distinct(data[..usage])
    ensures |r| == |data| && j <= usage && AreBelow(r[..j], data[..usage], limit)
  {
    hide AreBelow;
    NoneBelow(limit);
    r, j := data, 0;
    for i := 0 to usage
      invariant j <= i && |r| == |data|
      invariant forall k :: i <= k < |data| ==> r[k] == data[k]
      invariant AreBelow(r[..j], data[..i], limit)
    {
      assert data[..i + 1] == data[..i] + [data[i]];
      assert data[..usage][..i] == data[..i];
      NotBefore(data[..usage], i);
      NextBelow(r[..j], data[..i], data[i], limit);
      if r[i] < limit {
        ghost var kept := r[..j];
        r := r[j := r[i]];
        assert r[..j + 1] == kept + [data[i]];
        j := j + 1;
      }
    }
  }

  /** Forgets the offsets from `limit` on, bit by bit or by compacting the array in place. */
  method DropFrom(c: Chunk, limit: nat) returns (r: Chunk)
    requires ValidChunk(c) && limit < BLOCKS_PER_CHUNK
    ensures ValidChunk(r) && r.size == c.size
    ensures forall k: nat :: k < BLOCKS_PER_CHUNK ==> (Has(r, k) <==> k < limit && Has(c, k))
  {
    hide BitAt, AreBelow;
    if c.usage == MAX_ENTRIES_PER_CHUNK {
      var data := DropBits(c.data, limit);
      r := c.(data := data);
    } else {
      var data, usage := CompactBelow(c.data, c.usage, limit);
      BelowMeans(data[..usage], c.data[..c.usage], limit);
      r := Chunk(c.size, usage, data);
    }
  }

  lemma NoneBelow(limit: nat)
    ensures AreBelow([], [], limit)
  {}

  lemma BelowMeans(kept: seq<int>, all: seq<int>, limit: nat)
    requires AreBelow(kept, all, limit)
    ensures Distinct(kept) && forall k: int :: k in kept <==> k < limit && k in all
  {}

  lemma NotBefore(s: seq<int>, i: nat)
    requires Distinct(s) && i < |s|
    ensures s[i] !in s[..i]
  {}
}
