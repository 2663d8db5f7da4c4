/**
 The pool that recycles pieces: a cache whose size follows the number of pieces in
 use, with a bound on the memory it holds.
 */
module PiecePools {
  import opened Chunks
  import opened Pieces

  const MAX_DELETE_ONCE: nat := 8
  const BASE_CACHE_COUNT: nat := 8

  /** Pieces handed out, pieces cached, pieces allocated and not freed. */
  datatype Pool = Pool(inUse: nat, cached: nat, live: int)

  datatype Call = New | Delete

  function AfterNew(p: Pool): Pool {
    if p.cached > 0 then Pool(p.inUse + 1, p.cached - 1, p.live) else Pool(p.inUse + 1, 0, p.live + 1)
  }

  /** How many pieces one deletion frees. */
  function Freed(p: Pool): nat
    requires p.inUse > 0
  {
    var limit := p.inUse - 1 + BASE_CACHE_COUNT;
    if p.cached < limit then 0
    else if p.cached - limit + 1 > MAX_DELETE_ONCE then MAX_DELETE_ONCE
    else p.cached - limit + 1
  }

  function AfterDelete(p: Pool): Pool
    requires p.inUse > 0
  {
    var n := Freed(p);
    if n == 0 then Pool(p.inUse - 1, p.cached + 1, p.live)
    else Pool(p.inUse - 1, p.cached - (n - 1), p.live - n)
  }

  /** No piece is unaccounted for, and the cache is at most 8 larger than its use. */
  ghost predicate Inv(p: Pool) {
    p.live == p.inUse + p.cached && p.cached <= p.inUse + BASE_CACHE_COUNT
  }

  /** Calls are matched: a deletion gives a piece in use back. */
  ghost predicate ValidRun(p: Pool, calls: seq<Call>)
    decreases |calls|
  {
    calls != [] ==>
      match calls[0]
      case New => ValidRun(AfterNew(p), calls[1..])
      case Delete => p.inUse > 0 && ValidRun(AfterDelete(p), calls[1..])
  }

  ghost function Run(p: Pool, calls: seq<Call>): Pool
    requires ValidRun(p, calls)
    decreases |calls|
  {
    if calls == [] then p
    else match calls[0]
      case New => Run(AfterNew(p), calls[1..])
      case Delete => Run(AfterDelete(p), calls[1..])
  }

  /** Over every run of matched calls: live pieces are those in use and those cached,
      at most 2 * in use + 8 of them; and a further deletion frees at most two, so that
      the limit of eight per call is never reached. */
  lemma {:induction false} PoolBound(p: Pool, calls: seq<Call>)
    requires Inv(p) && ValidRun(p, calls)
    ensures var q := Run(p, calls);
            && Inv(q) && q.live == q.inUse + q.cached && q.live <= 2 * q.inUse + BASE_CACHE_COUNT
            && (q.inUse > 0 ==> Freed(q) <= 2 < MAX_DELETE_ONCE)
    decreases |calls|
  {
    if calls != [] {
      match calls[0] {
        case New => PoolBound(AfterNew(p), calls[1..]);
        case Delete => PoolBound(AfterDelete(p), calls[1..]);
      }
    }
  }

  // ---------------------------------------------------------------------
  // Reuse
  // ---------------------------------------------------------------------

  /** The largest number of pieces in use at any time of a run that begins with n. */
  function Peak(n: nat, calls: seq<Call>): nat
    decreases |calls|
  {
    if calls == [] then n
    else
      var later := Peak(match calls[0] case New => n + 1 case Delete => if n == 0 then 0 else n - 1, calls[1..]);
      if later > n then later else n
  }

  /** Pieces in use, by the calls alone. */
  function Balance(n: int, calls: seq<Call>): int
    decreases |calls|
  {
    if calls == [] then n else Balance(match calls[0] case New => n + 1 case Delete => n - 1, calls[1..])
  }

  /** What a call does in any state a run can reach: a piece is allocated if and only if
      none is cached; one is freed if and only if the cache holds as many pieces as will stay
      in use and 8 more, and then the cache does not grow; otherwise it is cached. */
  lemma {:induction false} CallsExact(p: Pool, calls: seq<Call>)
    requires Inv(p) && ValidRun(p, calls)
    ensures var q := Run(p, calls);
            && q.inUse == Balance(p.inUse, calls)
            && AfterNew(q).inUse == q.inUse + 1
            && AfterNew(q).live == q.live + (if q.cached == 0 then 1 else 0)
            && (q.inUse > 0 ==>
                  var r := AfterDelete(q);
                  && r.inUse == q.inUse - 1
                  && (q.cached < r.inUse + 8 ==> r.live == q.live && r.cached == q.cached + 1)
                  && (q.cached >= r.inUse + 8 ==> r.live < q.live && r.cached == r.inUse + 8 == q.cached + 1 - (q.live - r.live)))
    decreases |calls|
  {
    if calls != [] {
      match calls[0] {
        case New => CallsExact(AfterNew(p), calls[1..]);
        case Delete => CallsExact(AfterDelete(p), calls[1..]);
      }
    }
  }

  /** In any state at all, a deletion brings the cache down to the pieces still in use and 8
      more, freeing 8 pieces at most. */
  lemma FreesTheExcess(p: Pool)
    requires p.inUse > 0
    ensures Freed(p) == Max(0, Min(8, p.cached + 1 - (p.inUse - 1 + 8)))
    ensures AfterDelete(p).live == p.live - Freed(p)
    ensures AfterDelete(p).inUse + AfterDelete(p).cached == p.inUse + p.cached - Freed(p)
  {
  }

  function Max(a: int, b: int): int {
    if a > b then a else b
  }

  function Min(a: int, b: int): int {
    if a < b then a else b
  }

  lemma {:induction false} ReusesPieces(p: Pool, calls: seq<Call>)
    requires Inv(p) && ValidRun(p, calls)
    ensures var q, peak := Run(p, calls), Max(p.live, Peak(p.inUse, calls));
            Min(peak, 8) <= q.live <= Min(peak, 2 * q.inUse + 8)
    decreases |calls|
  {
    if calls != [] {
      match calls[0] {
        case New => ReusesPieces(AfterNew(p), calls[1..]);
        case Delete => ReusesPieces(AfterDelete(p), calls[1..]);
      }
    }
  }

  /** Pieces are reused.  No run of a new pool has allocated more than it had in use at its
      peak; up to 8 pieces are never freed, so that with at most 8 in use exactly the peak is
      live; and when all pieces have been given back, as many as the peak are cached, but
      not more than 8. */
  lemma KeepsPieces(p: Pool, calls: seq<Call>)
    requires p == Pool(0, 0, 0) && ValidRun(p, calls)
    ensures var q, peak := Run(p, calls), Peak(0, calls);
            && q.inUse == Balance(0, calls) && q.live == q.inUse + q.cached
            && Min(peak, 8) <= q.live <= Min(peak, 2 * q.inUse + 8)
            && (peak <= 8 ==> q.live == peak)
            && (q.inUse == 0 ==> q.cached == Min(peak, 8))
  {
    hide Run, ValidRun, Peak, Balance, AfterNew, AfterDelete;
    CallsExact(p, calls);
    PoolBound(p, calls);
    ReusesPieces(p, calls);
  }

  class PiecePool {
    const queue: Queue
    var usingCount: nat
    ghost var live: nat

    constructor ()
      ensures Valid() && State() == Pool(0, 0, 0) && fresh(queue)
    {
      queue := new Queue();
      usingCount, live := 0, 0;
    }

    ghost predicate Valid()
      reads this, queue, queue.repr
    {
      queue.Valid() && queue.TailOk() && Inv(State())
    }

    ghost function State(): Pool
      reads this, queue
    {
      Pool(usingCount, queue.size, live)
    }

    /** A cleared piece, from the cache if it holds any. */
    method NewPiece() returns (item: Piece)
      requires Valid()
      modifies this, queue, queue.repr
      ensures Valid() && State() == AfterNew(old(State()))
      ensures item.next == null && item.off == 0 && item.len == 0
      ensures if old(queue.size) == 0 then fresh(item) && queue.repr == old(queue.repr)
              else item in old(queue.repr) && queue.repr == old(queue.repr) - {item}
      ensures item !in queue.repr
    {
      hide WellLinked, Queue.TailOk;
      queue.SizeFacts();
      usingCount := usingCount + 1;
      var cached := queue.Pop();
      queue.SizeFacts();
      if cached != null {
        item := cached;
        item.next := null;
        item.off := 0;
        item.len := 0;
      } else {
        item := new Piece();
        live := live + 1;
      }
    }

    /** Takes a piece back: into the cache, or, when that is at its limit, frees it and
        what the cache holds in excess. */
    method DeletePiece(item: Piece) returns (freed: nat)
      requires Valid() && usingCount > 0 && item !in queue.repr
      modifies this, queue, queue.repr, item`next
      ensures Valid() && State() == AfterDelete(old(State()))
      ensures freed == Freed(old(State())) && freed <= 2
      ensures freed == 0 <==> old(queue.size) < usingCount + 8
      ensures if freed == 0 then queue.repr == old(queue.repr) + {item} && queue.size == old(queue.size) + 1
              else queue.repr <= old(queue.repr) && queue.size == usingCount + 8
    {
      hide WellLinked, Queue.TailOk;
      var delArray := new Piece?[MAX_DELETE_ONCE](_ => null);
      var delCount: nat := 0;
      usingCount := usingCount - 1;
      var limit := usingCount + BASE_CACHE_COUNT;
      if queue.size < limit {
        queue.SizeFacts();
        queue.Push(item);
        queue.SizeFacts();
      } else {
        delCount := queue.size - limit + 1;
        if delCount > MAX_DELETE_ONCE {
          delCount := MAX_DELETE_ONCE;
        }
        delArray[0] := item;
        PopExcess(delArray, delCount);
      }
      freed := 0;
      while freed < delCount
        modifies `live
        invariant freed <= delCount <= old(live) && live + freed == old(live)
      {
        assert delArray[freed] != null;
        live := live - 1;
        freed := freed + 1;
      }
    }

    /** Pops what the cache holds in excess, to be freed together. */
    method PopExcess(delArray: array<Piece?>, delCount: nat)
      requires queue.Valid() && queue.TailOk() && 0 < delCount <= delArray.Length && delCount - 1 <= queue.size
      requires delArray[0] != null
      modifies queue, delArray
      ensures queue.Valid() && queue.TailOk() && queue.size == old(queue.size) - (delCount - 1)
      ensures queue.repr <= old(queue.repr) && forall k | 0 <= k < delCount :: delArray[k] != null
    {
      hide WellLinked, Queue.TailOk;
      for i := 1 to delCount
        invariant queue.Valid() && queue.TailOk()
        invariant queue.size == old(queue.size) - (i - 1) && queue.repr <= old(queue.repr)
        invariant forall k | 0 <= k < i :: delArray[k] != null
      {
        queue.SizeFacts();
        delArray[i] := queue.Pop();
        queue.SizeFacts();
      }
    }
  }
}
