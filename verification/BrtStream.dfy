/** The buffered writer and reader of the block reference table file (src/libpgmoneta/brt.c), with a
    buffer of 65536 bytes each. */
module BrtStream {
  import opened Bytes

  const BUFFER_SIZE := 65536

  // ----- writing -----

  class Writer {
    var file: seq<Byte>
    const data: array<Byte>
    var used: nat

    constructor ()
      ensures Valid() && fresh(data) && Stream() == []
    {
      file, used := [], 0;
      data := new Byte[BUFFER_SIZE];
    }

    ghost predicate Valid()
      reads this
    {
      data.Length == BUFFER_SIZE && used <= BUFFER_SIZE
    }

    /** Everything written so far, in the file or still in the buffer. */
    ghost function Stream(): seq<Byte>
      requires Valid()
      reads this, data
    {
      file + data[..used]
    }

    method Flush()
      requires Valid()
      modifies `file, `used
      ensures Valid() && Stream() == old(Stream()) && used == 0 && file == Stream()
    {
      file := file + data[..used];
      used := 0;
    }

    /** Appends bytes to the stream: through the buffer, or past it when they would fill it. */
    method Write(bytes: seq<Byte>)
      requires Valid()
      modifies this, data
      ensures Valid() && Stream() == old(Stream()) + bytes
    {
      if used + |bytes| > BUFFER_SIZE {
        Flush();
      }
      if |bytes| >= BUFFER_SIZE {
        file := file + bytes;
        return;
      }
      ghost var before := data[..used];
      forall i | 0 <= i < |bytes| {
        data[used + i] := bytes[i];
      }
      used := used + |bytes|;
      assert data[..used] == before + bytes;
    }
  }

  // ----- reading, as a function -----

  /** What is still unread: in the buffer, and behind it in the file. */
  datatype Pos = Pos(pending: seq<Byte>, rest: seq<Byte>)

  datatype Outcome = Outcome(ok: bool, pos: Pos, dest: seq<Byte>)

  /** memcpy to the start of the destination. */
  function Put<T>(dest: seq<T>, piece: seq<T>): (r: seq<T>)
    requires |piece| <= |dest|
    ensures |r| == |dest|
  {
    piece + dest[|piece|..]
  }

  function Min(a: nat, b: nat): nat
  {
    if a <= b then a else b
  }

  /** The read loop.  Every piece is copied to the start of the destination, which is never advanced. */
  function Read(p: Pos, dest: seq<Byte>, length: nat): (o: Outcome)
    requires length <= |dest|
    ensures |o.dest| == |dest|
    decreases length, |p.rest|
  {
    if length == 0 then Outcome(true, p, dest)
    else if 0 < |p.pending| then
      var k := Min(length, |p.pending|);
      Read(Pos(p.pending[k..], p.rest), Put(dest, p.pending[..k]), length - k)
    else
      var k := Min(if length >= BUFFER_SIZE then length else BUFFER_SIZE, |p.rest|);
      if k == 0 then Outcome(false, p, dest)
      else if length >= BUFFER_SIZE then
        Read(Pos([], p.rest[k..]), Put(dest, p.rest[..k]), length - k)
      else
        Read(Pos(p.rest[..k], p.rest[k..]), dest, length)
  }

  /** The buffered reader: `data[cursor..used]` is pending, `file[fpos..]` the rest. */
  class Reader {
    const file: seq<Byte>
    var fpos: nat
    const data: array<Byte>
    var used: nat
    var cursor: nat

    constructor (file: seq<Byte>)
      ensures Valid() && fresh(data) && At() == Pos([], file)
    {
      this.file := file;
      fpos, used, cursor := 0, 0, 0;
      data := new Byte[BUFFER_SIZE];
    }

    ghost predicate Valid()
      reads this
    {
      data.Length == BUFFER_SIZE && cursor <= used <= BUFFER_SIZE && fpos <= |file|
    }

    ghost function At(): Pos
      requires Valid()
      reads this, data
    {
      Pos(data[cursor..used], file[fpos..])
    }

    /** The number of bytes in the buffer that are still unread. */
    function Held(): int
      reads this
    {
      used - cursor
    }

    /** The number of bytes of the file behind the buffer. */
    function Left(): int
      reads this
    {
      |file| - fpos
    }

    /** Copies from the buffer to the start of the destination. */
    method CopyPending(dest: array<Byte>, k: nat)
      requires Valid() && k <= used - cursor && k <= dest.Length && dest != data
      modifies `cursor, dest
      ensures Valid() && dest[..] == Put(old(dest[..]), old(At()).pending[..k])
      ensures At() == Pos(old(At()).pending[k..], old(At()).rest)
    {
      ghost var p, d := At(), dest[..];
      forall i | 0 <= i < k {
        dest[i] := data[cursor + i];
      }
      cursor := cursor + k;
      assert dest[..] == Put(d, p.pending[..k]);
    }

    /** Reads past the empty buffer to the start of the destination. */
    method ReadDirect(dest: array<Byte>, k: nat)
      requires Valid() && cursor == used && k <= |file| - fpos && k <= dest.Length && dest != data
      modifies `fpos, dest
      ensures Valid() && dest[..] == Put(old(dest[..]), old(At()).rest[..k])
      ensures At() == Pos([], old(At()).rest[k..])
    {
      ghost var p, d := At(), dest[..];
      forall i | 0 <= i < k {
        dest[i] := file[fpos + i];
      }
      fpos := fpos + k;
      assert dest[..] == Put(d, p.rest[..k]);
    }

    /** Fills the empty buffer from the file. */
    method Refill(k: nat)
      requires Valid() && cursor == used && k <= |file| - fpos && k <= BUFFER_SIZE
      modifies `fpos, `used, `cursor, data
      ensures Valid() && fpos == old(fpos) + k && At() == Pos(old(At()).rest[..k], old(At()).rest[k..])
    {
      ghost var p := At();
      forall i | 0 <= i < k {
        data[i] := file[fpos + i];
      }
      used, cursor := k, 0;
      fpos := fpos + k;
      assert data[0..k] == p.rest[..k];
    }

    /** One round of the read loop: copies from the buffer, reads past it, or fills it; false at the end
        of the file. */
    method ReadSome(dest: array<Byte>, left: nat) returns (ok: bool, more: nat)
      requires Valid() && 0 < left <= dest.Length && dest != data
      modifies this, data, dest
      ensures Valid() && more <= left && (ok ==> more < left || Left() < old(Left()))
      ensures Read(old(At()), old(dest[..]), left) ==
              if ok then Read(At(), dest[..], more) else Outcome(false, At(), dest[..])
    {
      hide Put;
      ok, more := true, left;
      if cursor < used {
        var k := Min(left, used - cursor);
        CopyPending(dest, k);
        more := left - k;
      } else if left >= BUFFER_SIZE {
        var k := Min(left, |file| - fpos);
        if k == 0 {
          return false, left;
        }
        ReadDirect(dest, k);
        more := left - k;
      } else {
        var k := Min(BUFFER_SIZE, |file| - fpos);
        if k == 0 {
          return false, left;
        }
        Refill(k);
      }
    }

    /** Reads `length` bytes into the destination, with the loop of the source. */
    method ReadInto(dest: array<Byte>, length: nat) returns (ok: bool)
      requires Valid() && length <= dest.Length && dest != data
      modifies this, data, dest
      ensures Valid()
      ensures var o := Read(old(At()), old(dest[..]), length);
              ok == o.ok && At() == o.pos && dest[..] == o.dest
    {
      hide Put, Min, At;
      ghost var all := Read(At(), dest[..], length);
      var left: nat := length;
      while left > 0
        invariant Valid() && left <= length
        invariant Read(At(), dest[..], left) == all
        decreases left, Left()
      {
        ok, left := ReadSome(dest, left);
        if !ok {
          return;
        }
      }
      return true;
    }
  }

  // ----- when a read is right -----

  /** A request that the buffer can serve in part only: its two parts overwrite each other. */
  predicate Straddles(pending: nat, length: nat)
  {
    0 < pending < length
  }

  /** How much is left in the buffer, and in the file behind it, after a request. */
  function PendingAfter(pending: nat, rest: nat, length: nat): nat
    requires length <= pending + rest
  {
    if length <= pending then pending - length
    else if length - pending >= BUFFER_SIZE then 0
    else Min(BUFFER_SIZE, rest) - (length - pending)
  }

  function RestAfter(pending: nat, rest: nat, length: nat): nat
    requires length <= pending + rest
  {
    pending + rest - length - PendingAfter(pending, rest, length)
  }

  /** The position after a request. */
  function After(p: Pos, length: nat): (q: Pos)
    requires length <= |p.pending| + |p.rest|
    ensures |q.pending| == PendingAfter(|p.pending|, |p.rest|, length)
    ensures q.pending + q.rest == (p.pending + p.rest)[length..]
  {
    var all := (p.pending + p.rest)[length..];
    var k := PendingAfter(|p.pending|, |p.rest|, length);
    Pos(all[..k], all[k..])
  }

  /** What a straddling request leaves in its destination: the part from the buffer, and then the part
      behind it over its start. */
  function Overwritten(p: Pos, dest: seq<Byte>): (r: seq<Byte>)
    requires |p.pending| <= |dest| <= |p.pending| + |p.rest|
    ensures |r| == |dest|
  {
    Put(Put(dest, p.pending), p.rest[..|dest| - |p.pending|])
  }

  lemma SameParts(p: Pos, q: Pos)
    requires p.pending + p.rest == q.pending + q.rest && |p.pending| == |q.pending|
    ensures p == q
  {
    assert p.pending == (p.pending + p.rest)[..|p.pending|];
    assert q.pending == (q.pending + q.rest)[..|q.pending|];
    assert p.rest == (p.pending + p.rest)[|p.pending|..];
    assert q.rest == (q.pending + q.rest)[|q.pending|..];
  }

  lemma ReadPending(p: Pos, dest: seq<Byte>, length: nat)
    requires length == |dest| && length <= |p.pending|
    ensures Read(p, dest, length) == Outcome(true, Pos(p.pending[length..], p.rest), p.pending[..length])
  {
    if length == 0 {
      assert p.pending[0..] == p.pending;
    } else {
      assert Put(dest, p.pending[..length]) == p.pending[..length];
    }
  }

  /** With an empty buffer, a request is served by one copy. */
  lemma ReadEmpty(p: Pos, dest: seq<Byte>, length: nat)
    requires 0 < length <= |dest| && p.pending == [] && length <= |p.rest|
    ensures var o := Read(p, dest, length);
            && o.ok && o.dest == Put(dest, p.rest[..length])
            && o.pos.pending + o.pos.rest == p.rest[length..]
            && |o.pos.pending| == PendingAfter(0, |p.rest|, length)
  {
    if length < BUFFER_SIZE {
      var k := Min(BUFFER_SIZE, |p.rest|);
      var q := Pos(p.rest[..k], p.rest[k..]);
      assert Read(p, dest, length) == Read(q, dest, length);
      assert q.pending[..length] == p.rest[..length];
      assert Read(q, dest, length) == Read(Pos(q.pending[length..], q.rest), Put(dest, q.pending[..length]), 0);
      assert q.pending[length..] + q.rest == p.rest[length..];
    }
  }

  /** A straddling request is served by two copies. */
  lemma ReadStraddling(p: Pos, dest: seq<Byte>, length: nat)
    requires length == |dest| <= |p.pending| + |p.rest| && Straddles(|p.pending|, length)
    ensures var o := Read(p, dest, length);
            && o.ok && o.dest == Overwritten(p, dest)
            && o.pos.pending + o.pos.rest == (p.pending + p.rest)[length..]
            && |o.pos.pending| == PendingAfter(|p.pending|, |p.rest|, length)
  {
    hide Put;
    var a := |p.pending|;
    var q, d := Pos([], p.rest), Put(dest, p.pending);
    assert p.pending[..a] == p.pending && p.pending[a..] == [];
    assert Read(p, dest, length) == Read(q, d, length - a);
    hide Read;
    ReadEmpty(q, d, length - a);
    assert p.rest[length - a..] == (p.pending + p.rest)[length..];
  }

  /** Every request moves on by its length.  It delivers the next bytes unless it straddles the end of
      the buffer; then its two parts are written over each other. */
  lemma ReadMeaning(p: Pos, dest: seq<Byte>, length: nat)
    requires length == |dest| && length <= |p.pending| + |p.rest|
    ensures Read(p, dest, length) ==
            Outcome(true, After(p, length),
                    if Straddles(|p.pending|, length) then Overwritten(p, dest) else (p.pending + p.rest)[..length])
  {
    ReadParts(p, dest, length);
    SameParts(Read(p, dest, length).pos, After(p, length));
  }

  lemma PendingLess(pending: nat, rest: nat, length: nat)
    requires length <= pending
    ensures PendingAfter(pending, rest, length) == pending - length
  {}

  lemma PutAll(dest: seq<Byte>, piece: seq<Byte>)
    requires |dest| == |piece|
    ensures Put(dest, piece) == piece
  {}

  lemma ReadParts(p: Pos, dest: seq<Byte>, length: nat)
    requires length == |dest| && length <= |p.pending| + |p.rest|
    ensures var o := Read(p, dest, length);
            && o.ok
            && o.pos.pending + o.pos.rest == (p.pending + p.rest)[length..]
            && |o.pos.pending| == PendingAfter(|p.pending|, |p.rest|, length)
            && o.dest == if Straddles(|p.pending|, length) then Overwritten(p, dest) else (p.pending + p.rest)[..length]
  {
    hide Read, Put, PendingAfter;
    var a := |p.pending|;
    var all := p.pending + p.rest;
    if length <= a {
      PendingLess(a, |p.rest|, length);
      ReadPending(p, dest, length);
      assert p.pending[..length] == all[..length];
      assert p.pending[length..] + p.rest == all[length..];
    } else if a == 0 {
      ReadEmpty(p, dest, length);
      assert p.pending == [];
      assert all == p.rest;
      PutAll(dest, p.rest[..length]);
    } else {
      ReadStraddling(p, dest, length);
    }
  }

  /** Of a straddling request, the last byte of the destination is what it was before. */
  lemma LastByteStays(p: Pos, dest: seq<Byte>)
    requires |dest| <= |p.pending| + |p.rest| && Straddles(|p.pending|, |dest|)
    ensures Overwritten(p, dest)[|dest| - 1] == dest[|dest| - 1]
  {}
}
