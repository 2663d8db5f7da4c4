/**
 The segmented byte buffer: a queue of pieces with a cached length.  `view` is the
 value of every piece; each method is proved to perform the function of the same
 name on `view`, and through it the plain operation on the bytes held.
 */
module Buffers {
  import opened Common
  import opened Chunks
  import opened Pieces

  /** The pieces have the values `v`. */
  ghost predicate Holds(items: seq<Piece>, v: seq<Chunk>)
    reads items`off, items`len, items`data
  {
    |v| == |items| && forall i | 0 <= i < |v| :: items[i].Ok() && items[i].Value() == v[i]
  }

  lemma HoldsSplit(items: seq<Piece>, v: seq<Chunk>, n: nat)
    requires Holds(items, v) && n <= |v|
    ensures Holds(items[..n], v[..n]) && Holds(items[n..], v[n..])
  {
  }

  lemma HoldsJoin(a: seq<Piece>, va: seq<Chunk>, b: seq<Piece>, vb: seq<Chunk>)
    requires Holds(a, va) && Holds(b, vb)
    ensures Holds(a + b, va + vb)
  {
  }

  lemma HoldsOne(p: Piece)
    requires p.Ok()
    ensures Holds([p], [p.Value()])
  {
  }

  /** One piece changes, the others do not. */
  lemma HoldsSetLast(items: seq<Piece>, v: seq<Chunk>, c: Chunk)
    requires |items| == |v| > 0 && Holds(items[..|v| - 1], v[..|v| - 1])
    requires items[|v| - 1].Ok() && items[|v| - 1].Value() == c
    ensures Holds(items, SetLast(v, c))
  {
    var n := |v| - 1;
    HoldsOne(items[n]);
    HoldsJoin(items[..n], v[..n], [items[n]], [c]);
    assert items == items[..n] + [items[n]] && SetLast(v, c) == v[..n] + [c];
  }

  lemma HoldsSetFirst(items: seq<Piece>, v: seq<Chunk>, c: Chunk)
    requires |items| == |v| > 0 && Holds(items[1..], v[1..])
    requires items[0].Ok() && items[0].Value() == c
    ensures Holds(items, SetFirst(v, c))
  {
    HoldsOne(items[0]);
    HoldsJoin([items[0]], [c], items[1..], v[1..]);
    assert items == [items[0]] + items[1..];
  }

  lemma ItemFacts(p: Piece)
    requires p.Ok()
    ensures p.Value().Ok() && p.Value().off == p.off && |p.Value().bytes| == p.len
    ensures p.Value().bytes[..p.len] == p.Value().bytes
  {
  }

  lemma CompactedFacts(c: Chunk)
    ensures c.Compacted().off == 0 && c.Compacted().bytes == c.bytes
  {
  }

  lemma NewPieceFacts(p: Piece)
    requires p.Ok() && p.Value() == EMPTY_CHUNK
    ensures p.off == 0 && p.len == 0
  {
  }

  class Buffer {
    const queue: Queue
    var length: nat
    ghost var view: seq<Chunk>

    constructor ()
      ensures Valid() && view == [] && fresh(queue) && queue.repr == {}
    {
      queue := new Queue();
      length := 0;
      view := [];
    }

    /** The queue is a chain of pieces with the values in `view`. */
    ghost predicate Shape()
      reads `view, queue, queue.repr
    {
      queue.Valid() && Holds(queue.items, view)
    }

    /** Enough for reading: the cached length is the number of bytes held. */
    ghost predicate Readable()
      reads this, queue, queue.repr
    {
      Shape() && length == |Flat(view)|
    }

    ghost predicate Valid()
      reads this, queue, queue.repr
    {
      Readable() && queue.TailOk()
    }

    // -------------------------------------------------------------------
    // Facts the methods use; their bodies hide the definitions
    // -------------------------------------------------------------------

    lemma ReadableFacts()
      ensures Readable() <==> Shape() && length == |Flat(view)|
      ensures Valid() <==> Readable() && queue.TailOk()
      ensures view == [] ==> |Flat(view)| == 0
    {
    }

    lemma HeadFacts()
      requires Shape()
      ensures queue.Valid() && AllOk(view) && |queue.items| == |view|
      ensures queue.head == null <==> view == []
      ensures view != [] ==> queue.head in queue.repr && queue.head == queue.items[0] && queue.head.Ok()
      ensures view != [] ==> queue.head.Value() == view[0] && queue.head.off == view[0].off
      ensures view != [] ==> queue.head.len == |view[0].bytes| && queue.head !in queue.items[1..]
      ensures view != [] ==> |view[0].bytes| <= CAPACITY
    {
    }

    lemma TailFacts()
      requires Shape() && queue.TailOk()
      ensures queue.Valid() && AllOk(view) && |queue.items| == |view|
      ensures queue.tail == null <==> view == []
      ensures view != [] ==> queue.tail in queue.repr && queue.tail == queue.items[|view| - 1] && queue.tail.Ok()
      ensures view != [] ==> queue.tail.Value() == Last(view) && queue.tail.off == Last(view).off
      ensures view != [] ==> queue.tail.len == |Last(view).bytes| && queue.tail !in queue.items[..|view| - 1]
      ensures view != [] ==> Last(view).Ok() && Last(view).Room() == CAPACITY - queue.tail.off - queue.tail.len
    {
    }

    /** The tail is lost when there is a piece and no last one. */
    lemma TailCases()
      requires Shape()
      ensures queue.TailOk() <==> queue.tail != null || queue.head == null
      ensures view == [] ==> queue.TailOk()
    {
    }

    lemma ShapeFacts()
      ensures Shape() <==> queue.Valid() && Holds(queue.items, view)
    {
    }

    // -------------------------------------------------------------------
    // One piece at a time
    // -------------------------------------------------------------------

    method PopPiece() returns (p: Piece)
      requires Shape() && view != []
      modifies `view, queue
      ensures Shape() && view == old(view)[1..] && (queue.TailOk() <==> old(queue.TailOk()) || view == [])
      ensures queue.items == old(queue.items)[1..] && p == old(queue.items)[0]
      ensures p.Ok() && p.Value() == old(view)[0]
      ensures p in old(queue.repr) && queue.repr == old(queue.repr) - {p}
    {
      hide *;
      ShapeFacts();
      HeadFacts();
      HoldsSplit(queue.items, view, 1);
      p := queue.Pop();
      view := view[1..];
      ShapeFacts();
    }

    method PushPiece(p: Piece)
      requires Shape() && queue.TailOk() && p.Ok() && p !in queue.repr
      modifies `view, queue, p`next, queue.TailSet()`next
      ensures Shape() && queue.TailOk() && view == old(view) + [old(p.Value())]
      ensures queue.tail == p && queue.repr == old(queue.repr) + {p}
    {
      hide *;
      ShapeFacts();
      HoldsOne(p);
      HoldsJoin(queue.items, view, [p], [p.Value()]);
      ghost var c := p.Value();
      queue.Push(p);
      view := view + [c];
      ShapeFacts();
    }

    /** A new piece at the back. */
    method PushNew()
      requires Shape() && queue.TailOk()
      modifies `view, queue, queue.TailSet()`next
      ensures Shape() && queue.TailOk() && view == old(view) + [EMPTY_CHUNK]
      ensures queue.tail != null && fresh(queue.tail)
      ensures old(queue.repr) <= queue.repr && fresh(queue.repr - old(queue.repr))
    {
      hide *;
      var p := new Piece();
      PushPiece(p);
    }

    method AdvanceFirst(n: nat)
      requires Shape() && view != [] && n <= |view[0].bytes|
      modifies `view, queue.head`off, queue.head`len
      ensures Shape() && view == SetFirst(old(view), old(view)[0].Skipped(n))
    {
      hide *;
      HeadFacts();
      ShapeFacts();
      HoldsSplit(queue.items, view, 1);
      queue.head.Advance(n);
      HoldsSetFirst(queue.items, view, view[0].Skipped(n));
      view := SetFirst(view, view[0].Skipped(n));
      ShapeFacts();
    }

    method AppendLast(d: seq<byte>)
      requires Shape() && queue.TailOk() && view != [] && |d| <= Last(view).Room()
      modifies `view, queue.tail`len, queue.tail`data
      ensures Shape() && queue.TailOk() && view == SetLast(old(view), Last(old(view)).Plus(d))
    {
      hide *;
      TailFacts();
      ShapeFacts();
      HoldsSplit(queue.items, view, |view| - 1);
      queue.tail.Append(d);
      HoldsSetLast(queue.items, view, Last(view).Plus(d));
      view := SetLast(view, Last(view).Plus(d));
      ShapeFacts();
    }

    // -------------------------------------------------------------------
    // Writing
    // -------------------------------------------------------------------

    /** Appends d: fills the last piece, then as many new ones as it takes. */
    method Write(d: seq<byte>)
      requires Valid()
      modifies this, queue, queue.repr
      ensures Valid() && view == Chunks.Write(old(view), d) && Flat(view) == Flat(old(view)) + d
      ensures old(queue.repr) <= queue.repr && fresh(queue.repr - old(queue.repr))
    {
      hide *;
      ReadableFacts();
      TailFacts();
      WriteFlat(view, d);
      OpenTailFacts(view, d);
      ghost var goal := Chunks.Write(view, d);
      if queue.tail == null || queue.tail.off + queue.tail.len == CAPACITY {
        PushNew();
      }
      var left: nat := |d|;
      assert d[0..] == d;
      while true
        invariant left <= |d| && Shape() && queue.TailOk() && view != [] && Last(view).Ok()
        invariant Last(view).Room() > 0 && Fill(view, d[|d| - left..]) == goal
        invariant queue.tail == old(queue.tail) || (queue.tail != null && fresh(queue.tail))
        invariant old(queue.repr) <= queue.repr && fresh(queue.repr - old(queue.repr))
        invariant length == old(length)
        decreases left
      {
        TailFacts();
        var unwrite := CAPACITY - queue.tail.off - queue.tail.len;
        FillStep(view, d, left);
        if left <= unwrite {
          AppendLast(d[|d| - left..]);
          break;
        }
        AppendLast(d[|d| - left..][..unwrite]);
        PushNew();
        left := left - unwrite;
      }
      length := length + |d|;
      ReadableFacts();
    }

    /** An empty buffer gets a first piece with room for `len` bytes in front. */
    method ReservedPrepend(len: nat)
      requires Valid() && view == [] && len < CAPACITY
      modifies this, queue, queue.repr
      ensures Valid() && view == [Chunk(len, [])]
      ensures fresh(queue.repr - old(queue.repr))
    {
      var item := new Piece();
      item.off := len;
      item.len := 0;
      PushPiece(item);
      assert Flat(view) == [] by { FlatOne(view[0]); }
    }

    /** Puts d in front of everything, in the room of the first piece. */
    method Prepend(d: seq<byte>)
      requires Valid() && view != [] && |d| <= view[0].off
      modifies this, queue, queue.repr
      ensures Valid() && view == SetFirst(old(view), old(view)[0].Under(d)) && Flat(view) == d + Flat(old(view))
      ensures queue.repr == old(queue.repr)
    {
      hide *;
      ReadableFacts();
      HeadFacts();
      ShapeFacts();
      PrependFlat(view, d);
      HoldsSplit(queue.items, view, 1);
      queue.head.Prepend(d);
      HoldsSetFirst(queue.items, view, view[0].Under(d));
      view := SetFirst(view, view[0].Under(d));
      length := length + |d|;
      ShapeFacts();
      ReadableFacts();
    }

    // -------------------------------------------------------------------
    // Reading
    // -------------------------------------------------------------------

    /** Drops the first len bytes. */
    method Skip(len: nat)
      requires Readable() && view != [] && len <= length
      modifies this, queue, queue.repr
      ensures Readable() && (queue.TailOk() <==> old(queue.TailOk()) || view == [])
      ensures view == Drop(old(view), len) && Flat(view) == Flat(old(view))[len..]
      ensures queue.repr <= old(queue.repr)
    {
      hide *;
      ghost var v, d := view, [];
      ReadableFacts();
      ReadingStart(v, len);
      HeadFacts();
      var left: nat := len;
      while left > queue.head.len
        invariant Shape() && (queue.TailOk() <==> old(queue.TailOk())) && length == old(length)
        invariant view != [] && queue.head in queue.repr && queue.repr <= old(queue.repr)
        invariant queue.head.len == |view[0].bytes|
        invariant Reading(view, left, d, Flat(v), len, Drop(v, len))
        decreases |view|
      {
        ReadingWhole(view, left, d, Flat(v), len, Drop(v, len));
        left := left - queue.head.len;
        d := d + view[0].bytes;
        var p := PopPiece();
        HeadFacts();
      }
      ReadingLast(view, left, d, Flat(v), len, Drop(v, len));
      if left < queue.head.len {
        AdvanceFirst(left);
      } else {
        var p := PopPiece();
      }
      length := length - len;
      TailCases();
      ReadableFacts();
    }

    /** Takes the first len bytes out. */
    method Read(len: nat) returns (d: seq<byte>)
      requires Readable() && 0 < len <= length
      modifies this, queue, queue.repr
      ensures Readable() && (queue.TailOk() <==> old(queue.TailOk()) || view == [])
      ensures d == Flat(old(view))[..len]
      ensures old(view) != [] && view == Drop(old(view), len) && Flat(view) == Flat(old(view))[len..]
      ensures queue.repr <= old(queue.repr)
    {
      hide *;
      ghost var v := view;
      ReadableFacts();
      ReadingStart(v, len);
      HeadFacts();
      var left: nat := len;
      d := [];
      while left > queue.head.len
        invariant Shape() && (queue.TailOk() <==> old(queue.TailOk())) && length == old(length)
        invariant view != [] && queue.head in queue.repr && queue.repr <= old(queue.repr)
        invariant queue.head.len == |view[0].bytes| && queue.head.Ok() && queue.head.Value() == view[0]
        invariant Reading(view, left, d, Flat(v), len, Drop(v, len))
        decreases |view|
      {
        ReadingWhole(view, left, d, Flat(v), len, Drop(v, len));
        assert queue.head.Front(queue.head.len) == view[0].bytes;
        d := d + queue.head.Front(queue.head.len);
        left := left - queue.head.len;
        var p := PopPiece();
        HeadFacts();
      }
      ReadingLast(view, left, d, Flat(v), len, Drop(v, len));
      d := d + queue.head.Front(left);
      if left < queue.head.len {
        AdvanceFirst(left);
      } else {
        var p := PopPiece();
      }
      length := length - len;
      TailCases();
      ReadableFacts();
    }

    /** Moves the first len bytes to the back of another buffer. */
    method ReadInto(len: nat, buf: Buffer)
      requires Valid() && 0 < len <= length && buf.Valid()
      requires buf != this && buf.queue != queue && queue.repr !! buf.queue.repr
      modifies this, queue, queue.repr, buf, buf.queue, buf.queue.repr
      ensures Valid() && buf.Valid() && queue.repr !! buf.queue.repr
      ensures queue.repr <= old(queue.repr) && fresh(buf.queue.repr - old(queue.repr) - old(buf.queue.repr))
      ensures old(view) != [] && view == Drop(old(view), len) && Flat(view) == Flat(old(view))[len..]
      ensures buf.view == old(buf.view) + Take(old(view), len)
      ensures Flat(buf.view) == Flat(old(buf.view)) + Flat(old(view))[..len]
    {
      hide *;
      ghost var v, out := view, buf.view;
      ReadableFacts();
      buf.ReadableFacts();
      HeadFacts();
      MovingStart(v, len, out);
      var left: nat := len;
      while left > queue.head.len
        invariant Shape() && queue.TailOk() && length == old(length)
        invariant buf.Shape() && buf.queue.TailOk() && buf.length == old(buf.length)
        invariant view != [] && queue.head in queue.repr && queue.repr <= old(queue.repr)
        invariant old(buf.queue.repr) <= buf.queue.repr <= old(queue.repr) + old(buf.queue.repr)
        invariant queue.repr !! buf.queue.repr
        invariant queue.head.len == |view[0].bytes| && queue.head.Ok() && queue.head.Value() == view[0]
        invariant Moving(view, left, buf.view, v, len, out)
        decreases |view|
      {
        MovingWhole(view, left, buf.view, v, len, out);
        left := left - queue.head.len;
        var p := PopPiece();
        buf.TailFacts();
        buf.PushPiece(p);
        HeadFacts();
      }
      MovingLast(view, left, buf.view, v, len, out);
      MoveLast(left, buf);
      buf.length := buf.length + len;
      length := length - len;
      FlatConcat(out, Take(v, len));
      ReadableFacts();
      buf.ReadableFacts();
    }

    /** Moves the first piece, or copies its first `left` bytes to a new one. */
    method MoveLast(left: nat, buf: Buffer)
      requires Shape() && queue.TailOk() && view != [] && left <= |view[0].bytes|
      requires buf.Shape() && buf.queue.TailOk() && buf != this && buf.queue != queue && queue.repr !! buf.queue.repr
      modifies `view, queue, queue.repr, buf`view, buf.queue, buf.queue.repr
      ensures Shape() && queue.TailOk() && buf.Shape() && buf.queue.TailOk() && queue.repr !! buf.queue.repr
      ensures queue.repr <= old(queue.repr) && old(buf.queue.repr) <= buf.queue.repr
      ensures fresh(buf.queue.repr - old(queue.repr) - old(buf.queue.repr))
      ensures left < |old(view)[0].bytes| ==>
                view == SetFirst(old(view), old(view)[0].Skipped(left))
                && buf.view == old(buf.view) + [EMPTY_CHUNK.Plus(old(view)[0].bytes[..left])]
      ensures left == |old(view)[0].bytes| ==>
                view == old(view)[1..] && buf.view == old(buf.view) + [old(view)[0]]
    {
      hide *;
      HeadFacts();
      buf.TailFacts();
      if left < queue.head.len {
        var last := new Piece();
        NewPieceFacts(last);
        last.Append(queue.head.Front(left));
        buf.PushPiece(last);
        AdvanceFirst(left);
      } else {
        var p := PopPiece();
        buf.PushPiece(p);
      }
    }

    /** Copies the first n bytes without consuming them.  Behind the first piece the
        destination is advanced by whole values of n bytes instead of by bytes, so a
        second non-empty copy falls outside it: None, the undefined case. */
    method Peek(n: nat) returns (r: Option<seq<byte>>)
      requires Readable() && 0 < n <= length
      ensures r == Peeked(view, n)
      ensures r.Some? <==> FirstHolds(view, n)
      ensures r.Some? ==> r.value == Flat(view)[..n]
    {
      hide *;
      ReadableFacts();
      PeekedExact(view, n);
      PeekingStart(view, n);
      HeadFacts();
      var t: seq<byte> := seq(n, _ => 0);
      var left, cur := n, queue.head;
      ghost var k := 0;
      while true
        invariant 0 <= k < |view| && cur == queue.items[k] && 0 < left <= n && |t| == n
        invariant Peeking(view, k, n, left)
        decreases |view| - k
      {
        PieceFacts(k);
        PeekingStep(view, k, n, left);
        var at, count := (n - left) * n, if left <= cur.len then left else cur.len;
        if count > 0 && at + count > n {
          return None;
        }
        if count > 0 {
          t := cur.Front(count) + t[count..];
        }
        if left <= cur.len {
          assert t == cur.Front(n);
          return Some(t);
        }
        left := left - cur.len;
        cur := cur.next;
        k := k + 1;
      }
    }

    /** The same with the destination advanced by bytes, as intended: always defined. */
    method PeekByBytes(n: nat) returns (t: seq<byte>)
      requires Readable() && 0 < n <= length
      ensures t == Flat(view)[..n]
    {
      hide *;
      ReadableFacts();
      HeadFacts();
      ReadingStart(view, n);
      var left: nat, cur := n, queue.head;
      t := [];
      ghost var k := 0;
      assert view[0..] == view;
      while true
        invariant 0 <= k < |view| && cur == queue.items[k]
        invariant Reading(view[k..], left, t, Flat(view), n, Drop(view, n))
        decreases |view| - k
      {
        PieceFacts(k);
        if left <= cur.len {
          ReadingLast(view[k..], left, t, Flat(view), n, Drop(view, n));
          t := t + cur.Front(left);
          return;
        }
        ReadingWhole(view[k..], left, t, Flat(view), n, Drop(view, n));
        assert view[k..][1..] == view[k + 1..] && cur.Front(cur.len) == view[k].bytes;
        t := t + cur.Front(cur.len);
        left := left - cur.len;
        cur := cur.next;
        k := k + 1;
      }
    }

    /** A copy of all bytes held. */
    method Contents() returns (t: seq<byte>)
      requires Readable()
      ensures t == Flat(view)
    {
      ReadableFacts();
      t := [];
      if length > 0 {
        t := PeekByBytes(length);
      }
    }

    lemma PieceFacts(k: nat)
      requires Shape() && k < |view|
      ensures |queue.items| == |view| && queue.items[k].Ok() && queue.items[k].Value() == view[k]
      ensures queue.items[k].len == |view[k].bytes|
      ensures k + 1 < |view| ==> queue.items[k].next == queue.items[k + 1]
    {
    }

    method Swap(buffer: Buffer)
      requires Valid() && buffer.Valid() && buffer != this && buffer.queue != queue
      modifies this, queue, buffer, buffer.queue
      ensures Valid() && buffer.Valid()
      ensures view == old(buffer.view) && buffer.view == old(view)
      ensures queue.repr == old(buffer.queue.repr) && buffer.queue.repr == old(queue.repr)
    {
      hide *;
      ReadableFacts();
      buffer.ReadableFacts();
      ShapeFacts();
      buffer.ShapeFacts();
      queue.Swap(buffer.queue);
      length, buffer.length := buffer.length, length;
      view, buffer.view := buffer.view, view;
      ShapeFacts();
      buffer.ShapeFacts();
      ReadableFacts();
      buffer.ReadableFacts();
    }

    /** Gives the chain of pieces away and leaves the buffer empty. */
    method MoveToQueueHead() returns (first: Piece?)
      requires Valid()
      modifies this, queue
      ensures Valid() && view == [] && queue.repr == {}
      ensures first == if old(queue.items) == [] then null else old(queue.items)[0]
      ensures Chain(old(queue.items)) && Holds(old(queue.items), old(view))
      ensures forall i | 0 <= i < |old(queue.items)| :: old(queue.items)[i] in old(queue.repr)
    {
      hide *;
      ReadableFacts();
      ShapeFacts();
      ChainFacts();
      first := queue.Release();
      length := 0;
      view := [];
      HoldsSplit(old(queue.items), old(view), 0);
      ShapeFacts();
      ReadableFacts();
    }

    // -------------------------------------------------------------------
    // The input buffer of a connection
    // -------------------------------------------------------------------

    /** Appends a received piece, in the last piece if both fit one block. */
    method WritePiece(item: Piece)
      requires Valid() && item.Ok() && item.len > 0 && item !in queue.repr
      modifies this, queue, queue.repr, item`next
      ensures Valid() && view == WithPiece(old(view), old(item.Value()))
      ensures Flat(view) == Flat(old(view)) + old(item.Value()).bytes
      ensures queue.repr <= old(queue.repr) + {item}
    {
      hide *;
      ReadableFacts();
      TailFacts();
      ItemFacts(item);
      WithPieceFlat(view, item.Value());
      WithPieceCases(view, item.Value());
      if queue.tail != null && queue.tail.len + item.len <= CAPACITY {
        MergeLast(item.Front(item.len));
      } else {
        PushPiece(item);
      }
      length := length + item.len;
      ReadableFacts();
    }

    /** Moves the last piece to the front of its block and appends d to it. */
    method MergeLast(d: seq<byte>)
      requires Shape() && queue.TailOk() && view != [] && |Last(view).bytes| + |d| <= CAPACITY
      modifies `view, queue.tail`off, queue.tail`len, queue.tail`data
      ensures Shape() && queue.TailOk() && view == SetLast(old(view), Last(old(view)).Compacted().Plus(d))
    {
      hide *;
      TailFacts();
      ShapeFacts();
      HoldsSplit(queue.items, view, |view| - 1);
      CompactedFacts(Last(view));
      queue.tail.Compact();
      ItemFacts(queue.tail);
      queue.tail.Append(d);
      HoldsSetLast(queue.items, view, Last(view).Compacted().Plus(d));
      view := SetLast(view, Last(view).Compacted().Plus(d));
      ShapeFacts();
    }

    // -------------------------------------------------------------------
    // The output buffer of a connection
    // -------------------------------------------------------------------

    /** Takes the first piece out, grown by the following ones while they fit. */
    method ReadPiece() returns (first: Piece)
      requires Valid() && length > 0
      modifies this, queue, queue.repr
      ensures Valid() && queue.repr <= old(queue.repr) && first in old(queue.repr) && first !in queue.repr
      ensures old(view) != [] && first.Ok()
      ensures Taken(first.Value(), view) == Coalesced(old(view)[0], old(view)[1..])
      ensures first.Value().bytes + Flat(view) == Flat(old(view))
    {
      hide *;
      ReadableFacts();
      HeadFacts();
      FlatHead(view);
      CoalescedExact(view[0], view[1..]);
      ghost var goal := Coalesced(view[0], view[1..]);
      first := PopPiece();
      ItemFacts(first);
      while first.len < CAPACITY && queue.head != null && first.len + queue.head.len <= CAPACITY
        invariant Shape() && queue.TailOk() && length == old(length)
        invariant queue.repr <= old(queue.repr) && first in old(queue.repr) && first !in queue.repr
        invariant first.Ok() && Coalesced(first.Value(), view) == goal
        invariant first.len == |first.Value().bytes|
        decreases |view|
      {
        HeadFacts();
        CoalescedStep(first.Value(), view);
        CompactedFacts(first.Value());
        first.Compact();
        ItemFacts(first);
        var next := PopPiece();
        ItemFacts(next);
        first.Append(next.Front(next.len));
        ItemFacts(first);
      }
      HeadFacts();
      CoalescedStep(first.Value(), view);
      length := length - first.len;
      ReadableFacts();
    }

    /** Appends a chain of pieces given by its head.  Pushing a piece clears its link
        before the loop follows it, so only the head is appended. */
    method WritePieceQueue(queueHead: Piece, ghost chain: seq<Piece>, ghost values: seq<Chunk>)
      requires Valid() && Chain(chain) && Holds(chain, values) && chain != [] && queueHead == chain[0]
      requires values[0].bytes != [] && forall i | 0 <= i < |chain| :: chain[i] !in queue.repr
      modifies this, queue, queue.repr, chain
      ensures Valid() && view == old(view) + [values[0]] && Flat(view) == Flat(old(view)) + values[0].bytes
      ensures queue.repr == old(queue.repr) + {queueHead}
    {
      var item: Piece? := queueHead;
      FlatPush(view, values[0]);
      while item != null
        invariant item == queueHead ==> view == old(view) && queue.repr == old(queue.repr) && length == old(length)
                                        && item.Ok() && item.Value() == values[0] && Valid()
        invariant item == null ==> Valid() && view == old(view) + [values[0]]
                                   && queue.repr == old(queue.repr) + {queueHead}
        invariant item == null || item == queueHead
        decreases if item == null then 0 else 1
      {
        item := AppendAndFollow(item);
      }
    }

    /** Appends a chain of pieces with a loop that reads each link before it pushes the
        piece, as intended: the whole chain is appended. */
    method WriteWholeQueue(queueHead: Piece, ghost chain: seq<Piece>, ghost values: seq<Chunk>)
      requires Valid() && Chain(chain) && Holds(chain, values) && chain != [] && queueHead == chain[0]
      requires Dense(values) && forall i | 0 <= i < |chain| :: chain[i] !in queue.repr
      modifies this, queue, queue.repr, chain
      ensures Valid() && view == old(view) + values && Flat(view) == Flat(old(view)) + Flat(values)
      ensures forall p | p in queue.repr :: p in old(queue.repr) || p in chain
    {
      hide *;
      FlatConcat(view, values);
      ChainHead(chain, values);
      ghost var rest, left := chain, values;
      var item: Piece? := queueHead;
      while item != null
        invariant |rest| == |left| && item == (if rest == [] then null else rest[0])
        invariant Valid() && view + left == old(view) + values && Chain(rest) && Holds(rest, left)
        invariant forall p | p in rest :: p in chain && p !in queue.repr
        invariant forall p | p in queue.repr :: p in old(queue.repr) || p in chain
        decreases |rest|
      {
        ChainHead(rest, left);
        var next := item.next;
        var cleared := AppendAndFollow(item);
        rest, left := rest[1..], left[1..];
        item := next;
      }
      assert left == [] && view + left == view;
    }

    lemma ChainHead(items: seq<Piece>, v: seq<Chunk>)
      requires Chain(items) && Holds(items, v) && items != []
      ensures |v| == |items| && items[0].Ok() && items[0].Value() == v[0]
      ensures items[0].next == if |items| > 1 then items[1] else null
      ensures Chain(items[1..]) && Holds(items[1..], v[1..]) && items[0] !in items[1..]
    {
    }

    /** One round of the loop above: the link read is the one just cleared. */
    method AppendAndFollow(item: Piece) returns (next: Piece?)
      requires Valid() && item.Ok() && item !in queue.repr
      modifies this, queue, queue.repr, item`next
      ensures Valid() && view == old(view) + [old(item.Value())] && next == null
      ensures queue.repr == old(queue.repr) + {item}
    {
      hide *;
      ReadableFacts();
      ItemFacts(item);
      TailFacts();
      FlatPush(view, item.Value());
      PushPiece(item);
      length := length + item.len;
      ReadableFacts();
      LastLink();
      next := item.next;
    }

    lemma LastLink()
      requires Valid() && view != []
      ensures queue.tail.next == null
    {
    }

    // -------------------------------------------------------------------
    // What the zero-copy streams do to a buffer
    // -------------------------------------------------------------------

    /** Hands the first piece out, unless there is none or it is empty. */
    method FlatNext() returns (drop: Piece?)
      requires Readable()
      modifies this, queue
      ensures Readable() && (queue.TailOk() <==> old(queue.TailOk()) || view == [])
      ensures drop == null <==> old(view) == [] || old(view)[0].bytes == []
      ensures drop == null ==> view == old(view) && queue.repr == old(queue.repr)
      ensures drop != null ==>
                && drop.Ok() && drop.Value() == old(view)[0] && view == old(view)[1..]
                && drop in old(queue.repr) && queue.repr == old(queue.repr) - {drop}
    {
      hide *;
      ReadableFacts();
      HeadFacts();
      TailCases();
      if queue.head != null && queue.head.len > 0 {
        FlatHead(view);
        length := length - queue.head.len;
        drop := PopPiece();
      } else {
        drop := null;
      }
      ReadableFacts();
    }

    /** Puts the last n bytes of the piece handed out back in front.  As written the queue's
        tail is left alone, so it is lost when the queue had become empty. */
    method FlatBackUp(n: nat, drop: Piece, restore: bool)
      requires Readable() && drop.Ok() && drop.len > n && drop !in queue.repr
      modifies this, queue, drop
      ensures Readable() && view == [old(drop.Value()).Skipped(old(drop.len) - n)] + old(view)
      ensures Flat(view) == old(drop.Value()).bytes[old(drop.len) - n..] + Flat(old(view))
      ensures queue.repr == old(queue.repr) + {drop}
      ensures queue.TailOk() <==> if old(view) == [] then restore else old(queue.TailOk())
    {
      hide *;
      ReadableFacts();
      HeadFacts();
      ShapeFacts();
      ItemFacts(drop);
      RestoreFlat(view, drop.Value(), n);
      ItemsOwned();
      ghost var c := drop.Value().Skipped(drop.len - n);
      drop.Advance(drop.len - n);
      HoldsOne(drop);
      HoldsJoin([drop], [c], queue.items, view);
      TailBefore();
      queue.PushFront(drop, restore);
      view := [c] + view;
      length := length + n;
      TailAfter(drop);
      ShapeFacts();
      ReadableFacts();
    }

    lemma ChainFacts()
      requires Shape()
      ensures Chain(queue.items) && |queue.items| == |view| && Flat([]) == []
      ensures forall i | 0 <= i < |queue.items| :: queue.items[i] in queue.repr
    {
    }

    lemma ItemsOwned()
      requires Shape()
      ensures forall i | 0 <= i < |queue.items| :: queue.items[i] in queue.repr
    {
    }

    lemma TailBefore()
      requires Shape()
      ensures queue.items == [] ==> queue.tail == null
      ensures queue.TailOk() <==> queue.tail == if queue.items == [] then null else queue.items[|queue.items| - 1]
    {
    }

    lemma TailAfter(first: Piece)
      requires queue.items != [] && queue.items[0] == first
      ensures queue.TailOk() <==> queue.tail == queue.items[|queue.items| - 1]
    {
    }

    /** Lends the free end of the last piece, opening a new one if it is full. */
    method Lend() returns (size: nat, ghost junk: seq<byte>)
      requires Valid()
      modifies this, queue, queue.repr
      ensures Valid() && size == |junk| > 0 && Flat(view) == Flat(old(view)) + junk
      ensures OpenTail(old(view)) != [] && AllOk(old(view))
      ensures view == SetLast(OpenTail(old(view)), Last(OpenTail(old(view))).Plus(junk))
      ensures size == Last(OpenTail(old(view))).Room()
      ensures old(queue.repr) <= queue.repr && fresh(queue.repr - old(queue.repr))
    {
      hide *;
      ReadableFacts();
      TailFacts();
      OpenTailFlat(view);
      OpenTailCases(view);
      if queue.tail == null || queue.tail.off + queue.tail.len == CAPACITY {
        PushNew();
      }
      size, junk := ExtendLast();
      ReadableFacts();
    }

    /** Takes the free end of the last piece into the buffer, whatever it contains. */
    method ExtendLast() returns (size: nat, ghost junk: seq<byte>)
      requires Shape() && queue.TailOk() && view != [] && length == |Flat(view)| && Last(view).Room() > 0
      modifies this, queue.tail`len
      ensures Shape() && queue.TailOk() && size == |junk| > 0
      ensures view == SetLast(old(view), Last(old(view)).Plus(junk)) && Last(old(view)).Room() == size
      ensures Flat(view) == Flat(old(view)) + junk && length == |Flat(view)|
    {
      hide *;
      TailFacts();
      ShapeFacts();
      HoldsSplit(queue.items, view, |view| - 1);
      size := CAPACITY - queue.tail.off - queue.tail.len;
      junk := queue.tail.Extend();
      HoldsSetLast(queue.items, view, Last(view).Plus(junk));
      PlusFlat(view, junk);
      view := SetLast(view, Last(view).Plus(junk));
      length := length + size;
      ShapeFacts();
    }

    /** What the borrower of a region does: stores d over the bytes from `at` on. */
    method StoreLast(at: nat, d: seq<byte>)
      requires Valid() && view != [] && at + |d| <= |Last(view).bytes|
      modifies `view, queue.tail`data
      ensures Valid() && view == SetLast(old(view), Last(old(view)).With(at, d))
    {
      hide *;
      ReadableFacts();
      TailFacts();
      ShapeFacts();
      WithFlat(view, at, d);
      HoldsSplit(queue.items, view, |view| - 1);
      queue.tail.Overwrite(at, d);
      HoldsSetLast(queue.items, view, Last(view).With(at, d));
      view := SetLast(view, Last(view).With(at, d));
      ShapeFacts();
      ReadableFacts();
    }

    /** Takes the last n bytes back from the last piece. */
    method TrimLast(n: nat)
      requires Valid() && view != [] && n < |Last(view).bytes|
      modifies this, queue.tail`len
      ensures Valid() && view == SetLast(old(view), Last(old(view)).Cut(n))
      ensures n <= |Flat(old(view))| && Flat(view) == Flat(old(view))[..|Flat(old(view))| - n]
    {
      hide *;
      ReadableFacts();
      TailFacts();
      ShapeFacts();
      CutFlat(view, n);
      HoldsSplit(queue.items, view, |view| - 1);
      queue.tail.Shorten(n);
      HoldsSetLast(queue.items, view, Last(view).Cut(n));
      view := SetLast(view, Last(view).Cut(n));
      length := length - n;
      ShapeFacts();
      ReadableFacts();
    }
  }
}
