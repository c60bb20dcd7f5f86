/** Reading a whole file request by request: when the reader of src/libpgmoneta/brt.c delivers the file
    as it is.  A request writes into memory that is either known or uninitialised, and a straddling
    request leaves a part of that memory as it was. */
module BrtPlan {
  import opened Bytes
  import opened Text
  import opened BrtStream

  /** A request for `length` bytes; `known` is what its destination holds before, None if that is
      uninitialised memory. */
  datatype Request = Request(length: nat, known: Option<seq<Byte>>)

  predicate ValidRequest(q: Request)
  {
    q.known.Some? ==> |q.known.value| == q.length
  }

  predicate ValidRequests(plan: seq<Request>)
  {
    forall i :: 0 <= i < |plan| ==> ValidRequest(plan[i])
  }

  function Total(plan: seq<Request>): nat
  {
    if plan == [] then 0 else plan[0].length + Total(plan[1..])
  }

  /** The stream cut into pieces of the requested lengths. */
  function Pieces(stream: seq<Byte>, plan: seq<Request>): seq<seq<Byte>>
    requires Total(plan) <= |stream|
    decreases plan
  {
    if plan == [] then [] else [stream[..plan[0].length]] + Pieces(stream[plan[0].length..], plan[1..])
  }

  /** What the reader delivers, each request into a destination of its own. */
  function ReadAll(p: Pos, dests: seq<seq<Byte>>): seq<seq<Byte>>
    decreases dests
  {
    if dests == [] then []
    else
      var o := Read(p, dests[0], |dests[0]|);
      [o.dest] + ReadAll(o.pos, dests[1..])
  }

  /** The destinations that the memory can provide for one request, and for a plan. */
  predicate Provides(dest: seq<Byte>, q: Request)
  {
    |dest| == q.length && (q.known.Some? ==> dest == q.known.value)
  }

  predicate ProvidesAll(dests: seq<seq<Byte>>, plan: seq<Request>)
  {
    |dests| == |plan| && forall i :: 0 <= i < |plan| ==> Provides(dests[i], plan[i])
  }

  /** A request delivers the next bytes: it does not straddle, or its two parts come out right over what
      its destination is known to hold. */
  predicate Safe(p: Pos, q: Request)
    requires ValidRequest(q) && q.length <= |p.pending| + |p.rest|
  {
    Straddles(|p.pending|, q.length) ==>
      q.known.Some? && Overwritten(p, q.known.value) == (p.pending + p.rest)[..q.length]
  }

  predicate AllSafe(p: Pos, plan: seq<Request>)
    requires ValidRequests(plan) && Total(plan) <= |p.pending| + |p.rest|
    decreases plan
  {
    plan == []
    || (Safe(p, plan[0])
        && (SizeAfter(p, plan[0].length); AllSafe(After(p, plan[0].length), plan[1..])))
  }

  lemma SizeAfter(p: Pos, length: nat)
    requires length <= |p.pending| + |p.rest|
    ensures |After(p, length).pending| + |After(p, length).rest| == |p.pending| + |p.rest| - length
  {
    var q := After(p, length);
    assert |q.pending + q.rest| == |q.pending| + |q.rest|;
  }

  /** One request: right for every memory if it is safe, and otherwise wrong for some. */
  lemma OneRequest(p: Pos, q: Request) returns (bad: seq<Byte>)
    requires ValidRequest(q) && q.length <= |p.pending| + |p.rest|
    ensures Safe(p, q) ==> forall dest :: Provides(dest, q) ==>
                             Read(p, dest, q.length).dest == (p.pending + p.rest)[..q.length]
    ensures Provides(bad, q)
    ensures !Safe(p, q) ==> Read(p, bad, q.length).dest != (p.pending + p.rest)[..q.length]
  {
    hide Read, PendingAfter, After, Put, Overwritten;
    forall dest | Provides(dest, q)
      ensures Safe(p, q) ==> Read(p, dest, q.length).dest == (p.pending + p.rest)[..q.length]
    {
      ReadMeaning(p, dest, q.length);
    }
    if q.known.Some? {
      bad := q.known.value;
      ReadMeaning(p, bad, q.length);
    } else if Straddles(|p.pending|, q.length) {
      var last := (p.pending + p.rest)[q.length - 1];
      bad := seq(q.length, _ => if last == 0 then 1 else 0);
      ReadMeaning(p, bad, q.length);
      LastByteStays(p, bad);
    } else {
      bad := seq(q.length, _ => 0);
    }
  }

  /** If every request is safe, the reader delivers the file whatever the memory holds. */
  lemma {:induction false} SafeIsDelivered(p: Pos, plan: seq<Request>, dests: seq<seq<Byte>>)
    requires ValidRequests(plan) && Total(plan) <= |p.pending| + |p.rest| && AllSafe(p, plan)
    requires ProvidesAll(dests, plan)
    ensures ReadAll(p, dests) == Pieces(p.pending + p.rest, plan)
    decreases plan
  {
    hide Read, PendingAfter, After, Safe;
    if plan != [] {
      var q := plan[0];
      var _ := OneRequest(p, q);
      ReadMeaning(p, dests[0], q.length);
      SizeAfter(p, q.length);
      SafeIsDelivered(After(p, q.length), plan[1..], dests[1..]);
    }
  }

  /** If some request is not, there is a memory for which it delivers something else. */
  lemma {:induction false} UnsafeIsLost(p: Pos, plan: seq<Request>) returns (dests: seq<seq<Byte>>)
    requires ValidRequests(plan) && Total(plan) <= |p.pending| + |p.rest| && !AllSafe(p, plan)
    ensures ProvidesAll(dests, plan) && ReadAll(p, dests) != Pieces(p.pending + p.rest, plan)
    decreases plan
  {
    hide Read, PendingAfter, After, Safe;
    var q := plan[0];
    var bad := OneRequest(p, q);
    ReadMeaning(p, bad, q.length);
    SizeAfter(p, q.length);
    if Safe(p, q) {
      var more := UnsafeIsLost(After(p, q.length), plan[1..]);
      dests := [bad] + more;
      assert dests[1..] == more;
      assert ReadAll(p, dests)[1..] == ReadAll(After(p, q.length), more);
      assert Pieces(p.pending + p.rest, plan)[1..] == Pieces((p.pending + p.rest)[q.length..], plan[1..]);
    } else {
      dests := [bad] + AnyMemory(plan[1..]);
      assert ReadAll(p, dests)[0] == Read(p, bad, q.length).dest;
      assert Pieces(p.pending + p.rest, plan)[0] == (p.pending + p.rest)[..q.length];
    }
  }

  function AnyMemory(plan: seq<Request>): (dests: seq<seq<Byte>>)
    requires ValidRequests(plan)
    ensures ProvidesAll(dests, plan)
  {
    seq(|plan|, i requires 0 <= i < |plan| =>
      if plan[i].known.Some? then plan[i].known.value else seq(plan[i].length, _ => 0))
  }

  /** The reader delivers a file as it is, whatever uninitialised memory holds, if and only if every
      request is safe. */
  lemma ReaderFaithful(file: seq<Byte>, plan: seq<Request>)
    requires ValidRequests(plan) && Total(plan) <= |file|
    ensures AllSafe(Pos([], file), plan) <==>
            forall dests :: ProvidesAll(dests, plan) ==>
              ReadAll(Pos([], file), dests) == Pieces(file, plan)
  {
    var p := Pos([], file);
    assert [] + file == file;
    if AllSafe(p, plan) {
      forall dests | ProvidesAll(dests, plan)
        ensures ReadAll(p, dests) == Pieces(file, plan)
      {
        SafeIsDelivered(p, plan, dests);
      }
    } else {
      var dests := UnsafeIsLost(p, plan);
    }
  }

  /** The same for destinations whose content is known: the file is delivered if and only if the two
      parts of each straddling request come out right over that content. */
  lemma KnownMemory(file: seq<Byte>, plan: seq<Request>, dests: seq<seq<Byte>>)
    requires ValidRequests(plan) && Total(plan) <= |file| && ProvidesAll(dests, plan)
    requires forall i :: 0 <= i < |plan| ==> plan[i].known.Some?
    ensures ReadAll(Pos([], file), dests) == Pieces(file, plan) <==> AllSafe(Pos([], file), plan)
  {
    ReaderFaithful(file, plan);
    forall other | ProvidesAll(other, plan)
      ensures other == dests
    {
      assert forall i :: 0 <= i < |plan| ==> Provides(other[i], plan[i]) && Provides(dests[i], plan[i]);
    }
  }

  /** A straddling request can be safe: bytes that are all alike come out right over such bytes. */
  lemma UniformIsSafe(p: Pos, q: Request, b: Byte)
    requires ValidRequest(q) && q.length <= |p.pending| + |p.rest| && q.known.Some?
    requires forall i :: 0 <= i < q.length ==> q.known.value[i] == b && (p.pending + p.rest)[i] == b
    ensures Safe(p, q)
  {
    if Straddles(|p.pending|, q.length) {
      var all := p.pending + p.rest;
      assert p.pending == all[..|p.pending|] && p.rest == all[|p.pending|..];
      var d := Put(q.known.value, p.pending);
      assert forall i :: 0 <= i < q.length ==> d[i] == b;
      assert forall i :: |p.pending| <= i < q.length ==> all[i] == p.rest[i - |p.pending|];
      forall i | 0 <= i < q.length
        ensures Overwritten(p, q.known.value)[i] == all[..q.length][i]
      {
        if i < q.length - |p.pending| {
          assert all[i + |p.pending|] == b;
        }
      }
    }
  }

  // ----- lengths alone -----

  function Lengths(plan: seq<Request>): (s: seq<nat>)
    ensures |s| == |plan| && forall i :: 0 <= i < |s| ==> s[i] == plan[i].length
  {
    seq(|plan|, i requires 0 <= i < |plan| => plan[i].length)
  }

  function Sum(lengths: seq<nat>): nat
  {
    if lengths == [] then 0 else lengths[0] + Sum(lengths[1..])
  }

  /** No request straddles the end of the buffer. */
  predicate NoStraddle(pending: nat, rest: nat, lengths: seq<nat>)
    requires Sum(lengths) <= pending + rest
    decreases lengths
  {
    lengths == []
    || (!Straddles(pending, lengths[0])
        && NoStraddle(PendingAfter(pending, rest, lengths[0]), RestAfter(pending, rest, lengths[0]), lengths[1..]))
  }

  lemma {:induction false} TotalIsSum(plan: seq<Request>)
    ensures Sum(Lengths(plan)) == Total(plan)
  {
    if plan != [] {
      assert Lengths(plan)[1..] == Lengths(plan[1..]);
      TotalIsSum(plan[1..]);
    }
  }

  /** Without a straddling request all are safe, and conversely if all memory is uninitialised. */
  lemma {:induction false} SafeByLengths(p: Pos, plan: seq<Request>)
    requires ValidRequests(plan) && Total(plan) <= |p.pending| + |p.rest|
    ensures Sum(Lengths(plan)) == Total(plan)
    ensures NoStraddle(|p.pending|, |p.rest|, Lengths(plan)) ==> AllSafe(p, plan)
    ensures (forall i :: 0 <= i < |plan| ==> plan[i].known.None?) ==>
              (AllSafe(p, plan) <==> NoStraddle(|p.pending|, |p.rest|, Lengths(plan)))
    decreases plan
  {
    hide PendingAfter, After, Overwritten;
    TotalIsSum(plan);
    if plan != [] {
      SizeAfter(p, plan[0].length);
      assert Lengths(plan)[1..] == Lengths(plan[1..]);
      SafeByLengths(After(p, plan[0].length), plan[1..]);
    }
  }

  /** A file that fits the buffer is always delivered unchanged. */
  lemma SmallFileIsFaithful(length: nat, plan: seq<nat>)
    requires Sum(plan) <= length <= BUFFER_SIZE
    ensures NoStraddle(0, length, plan)
  {
    if plan != [] {
      if plan[0] == 0 {
        SmallFileIsFaithful(length, plan[1..]);
      } else {
        BufferedIsFaithful(PendingAfter(0, length, plan[0]), plan[1..]);
      }
    }
  }

  lemma {:induction false} BufferedIsFaithful(pending: nat, plan: seq<nat>)
    requires Sum(plan) <= pending
    ensures NoStraddle(pending, 0, plan)
    decreases plan
  {
    if plan != [] {
      BufferedIsFaithful(pending - plan[0], plan[1..]);
    }
  }

  // ----- forks without modified blocks -----

  const MAGIC_SIZE := 4
  const HEADER_SIZE := 24

  /** The requests for `k` forks without any modified block, and for the terminator. */
  function EmptyForks(k: nat): seq<nat>
  {
    if k == 0 then [HEADER_SIZE] else [HEADER_SIZE, 0] + EmptyForks(k - 1)
  }

  lemma {:induction false} EmptyForksSize(k: nat)
    ensures Sum(EmptyForks(k)) == HEADER_SIZE * (k + 1)
  {
    if 0 < k {
      EmptyForksSize(k - 1);
      var plan := EmptyForks(k);
      assert plan[1..] == [0] + EmptyForks(k - 1);
      assert plan[1..][1..] == EmptyForks(k - 1);
    }
  }

  lemma {:induction false} HeadersFromBuffer(pending: nat, rest: nat, k: nat)
    requires pending + rest == HEADER_SIZE * (k + 1) && pending <= BUFFER_SIZE
    requires rest > 0 ==> pending % HEADER_SIZE != 0
    ensures Sum(EmptyForks(k)) <= pending + rest
    ensures NoStraddle(pending, rest, EmptyForks(k)) <==> rest == 0
  {
    EmptyForksSize(k);
    if 0 < k && HEADER_SIZE <= pending {
      EmptyForksSize(k - 1);
      HeadersFromBuffer(pending - HEADER_SIZE, rest, k - 1);
      HeaderStep(pending, rest, EmptyForks(k - 1));
    } else if k == 0 {
      assert EmptyForks(k)[1..] == [];
    }
  }

  /** A header that the buffer holds, and the sizes of no chunks. */
  lemma HeaderStep(pending: nat, rest: nat, more: seq<nat>)
    requires HEADER_SIZE <= pending && Sum(more) <= pending + rest - HEADER_SIZE
    ensures var plan := [HEADER_SIZE, 0] + more;
            && Sum(plan) == HEADER_SIZE + Sum(more)
            && (NoStraddle(pending, rest, plan) <==> NoStraddle(pending - HEADER_SIZE, rest, more))
  {
    var plan := [HEADER_SIZE, 0] + more;
    assert plan[1..] == [0] + more && plan[1..][1..] == more;
    assert Sum(plan[1..]) == Sum(more);
    assert NoStraddle(pending - HEADER_SIZE, rest, plan[1..]) == NoStraddle(pending - HEADER_SIZE, rest, more);
  }

  /** No request straddles up to 2729 such forks, and one does from 2730 on. */
  lemma EmptyForksLengths(k: nat)
    ensures var plan, length := [MAGIC_SIZE] + EmptyForks(k), MAGIC_SIZE + HEADER_SIZE * (k + 1);
            Sum(plan) == length && (NoStraddle(0, length, plan) <==> k < 2730)
  {
    var plan, length := [MAGIC_SIZE] + EmptyForks(k), MAGIC_SIZE + HEADER_SIZE * (k + 1);
    EmptyForksSize(k);
    assert plan[1..] == EmptyForks(k);
    var pending, rest := PendingAfter(0, length, MAGIC_SIZE), RestAfter(0, length, MAGIC_SIZE);
    HeadersFromBuffer(pending, rest, k);
    assert NoStraddle(0, length, plan) == NoStraddle(pending, rest, plan[1..]);
  }
}
