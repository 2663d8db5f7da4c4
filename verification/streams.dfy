/**
 The zero-copy streams over a buffer: the input stream hands pieces out and takes
 them back, the output stream lends the free end of the last piece.
 */
module Streams {
  import opened Common
  import opened Chunks
  import opened Pieces
  import opened Buffers

  class BufferInputStream {
    const buffer: Buffer
    var drop: Piece?
    var originalSize: nat
    ghost var original: seq<byte>  // the bytes when the stream was opened
    ghost var consumed: seq<byte>  // the bytes handed out and not given back
    ghost var lent: bool           // the last call handed `drop` out

    constructor (buf: Buffer)
      requires buf.Readable()
      ensures Valid() && buffer == buf && original == Flat(buf.view) && consumed == [] && !lent
    {
      buffer := buf;
      drop := null;
      originalSize := buf.length;
      original, consumed, lent := Flat(buf.view), [], false;
    }

    /** What was consumed and what is left always make up the original bytes. */
    ghost predicate Valid()
      reads this, buffer, buffer.queue, buffer.queue.repr, if drop == null then {} else {drop}
    {
      && buffer.Readable() && originalSize == |original| && original == consumed + Flat(buffer.view)
      && (drop != null ==> drop !in buffer.queue.repr && drop.Ok())
      && (lent ==> drop != null && drop.len <= |consumed|
                   && drop.Value().bytes == consumed[|consumed| - drop.len..])
    }

    lemma Facts()
      ensures Valid() <==>
              && buffer.Readable() && originalSize == |original| && original == consumed + Flat(buffer.view)
              && (drop != null ==> drop !in buffer.queue.repr && drop.Ok())
              && (lent ==> drop != null && drop.len <= |consumed|
                           && drop.Value().bytes == consumed[|consumed| - drop.len..])
    {
    }

    /** The next region, or None at the end of the data.  An empty piece, too, reads
        as the end. */
    method Next() returns (region: Option<seq<byte>>)
      requires Valid()
      modifies this, buffer, buffer.queue
      ensures Valid() && original == old(original) && lent == region.Some?
      ensures region.None? <==> old(buffer.view) == [] || old(buffer.view)[0].bytes == []
      ensures Dense(old(buffer.view)) ==> (region.None? <==> Flat(old(buffer.view)) == [])
      ensures region.None? ==> consumed == old(consumed) && buffer.view == old(buffer.view)
      ensures region.Some? ==> region.value == old(buffer.view)[0].bytes != [] && consumed == old(consumed) + region.value
                               && buffer.view == old(buffer.view)[1..]
      ensures region.Some? ==> drop.Ok() && drop.Value() == old(buffer.view)[0] && drop.len == |region.value|
                               && drop in old(buffer.queue.repr)
      ensures buffer.queue.repr <= old(buffer.queue.repr)
      ensures buffer.queue.TailOk() <==> old(buffer.queue.TailOk()) || buffer.view == []
    {
      hide *;
      Facts();
      DenseFacts(buffer.view);
      drop := buffer.FlatNext();
      if drop != null {
        HandOutFlat(old(buffer.view), consumed);
        ItemFacts(drop);
        region := Some(drop.Front(drop.len));
        consumed, lent := consumed + region.value, true;
      } else {
        region := None;
        lent := false;
      }
      Facts();
    }

    /** Gives the last `count` bytes of the region just handed out back.  As written the
        buffer can be appended to afterwards only if it still held a piece. */
    method BackUp(count: nat, restore: bool)
      requires Valid() && lent && count < drop.len
      modifies this, buffer, buffer.queue, drop
      ensures Valid() && original == old(original) && !lent
      ensures count <= |old(consumed)| && consumed == old(consumed)[..|old(consumed)| - count]
      ensures buffer.view == [old(drop.Value()).Skipped(old(drop.len) - count)] + old(buffer.view)
      ensures buffer.queue.repr == old(buffer.queue.repr) + {old(drop)}
      ensures count > 0 && Dense(old(buffer.view)) ==> Dense(buffer.view)
      ensures buffer.queue.TailOk() <==> if old(buffer.view) == [] then restore else old(buffer.queue.TailOk())
    {
      hide *;
      Facts();
      ItemFacts(drop);
      GiveBackFlat(consumed, drop.Value().bytes, count, Flat(buffer.view));
      DenseRestored(buffer.view, drop.Value(), count);
      buffer.FlatBackUp(count, drop, restore);
      consumed, lent := consumed[..|consumed| - count], false;
      drop := null;
      Facts();
    }

    method Skip(count: nat) returns (ok: bool)
      requires Valid() && (buffer.view != [] || count > 0)
      modifies this, buffer, buffer.queue, buffer.queue.repr
      ensures Valid() && original == old(original) && !lent
      ensures ok <==> count <= |Flat(old(buffer.view))|
      ensures consumed == old(consumed) + if ok then Flat(old(buffer.view))[..count] else []
      ensures Dense(old(buffer.view)) ==> Dense(buffer.view)
      ensures buffer.queue.TailOk() <==> old(buffer.queue.TailOk()) || (ok && buffer.view == [])
    {
      hide *;
      Facts();
      buffer.ReadableFacts();
      ok := count <= buffer.length;
      lent := false;
      if ok {
        ghost var all := Flat(buffer.view);
        assert consumed + all == (consumed + all[..count]) + all[count..];
        consumed := consumed + all[..count];
        buffer.Skip(count);
      }
      Facts();
    }

    method ByteCount() returns (n: int)
      requires Valid()
      ensures n == |consumed|
    {
      buffer.ReadableFacts();
      n := originalSize - buffer.length;
    }
  }

  class BufferOutputStream {
    const buffer: Buffer
    var originalSize: nat
    ghost var original: seq<byte>  // the bytes when the stream was opened
    ghost var kept: seq<byte>      // the bytes of all regions lent, less those given back
    ghost var lent: nat            // how many of them the last call lent

    constructor (buf: Buffer)
      requires buf.Valid()
      ensures Valid() && buffer == buf && original == Flat(buf.view) && kept == [] && lent == 0
    {
      buffer := buf;
      originalSize := buf.length;
      original, kept, lent := Flat(buf.view), [], 0;
      new;
      buf.ReadableFacts();
    }

    /** The buffer holds its old bytes and exactly those kept by the caller. */
    ghost predicate Valid()
      reads this, buffer, buffer.queue, buffer.queue.repr
    {
      && buffer.Valid() && originalSize == |original| && Flat(buffer.view) == original + kept
      && lent <= |kept| && (lent > 0 ==> buffer.view != [] && lent <= |Last(buffer.view).bytes|)
    }

    lemma Facts()
      ensures Valid() <==>
              && buffer.Valid() && originalSize == |original| && Flat(buffer.view) == original + kept
              && lent <= |kept| && (lent > 0 ==> buffer.view != [] && lent <= |Last(buffer.view).bytes|)
    {
    }

    /** Lends all the room at the end of the buffer. */
    method Next() returns (size: nat)
      requires Valid()
      modifies this, buffer, buffer.queue, buffer.queue.repr
      ensures Valid() && original == old(original) && size > 0 && lent == size
      ensures buffer.view != [] && Last(buffer.view).Room() == 0
      ensures |kept| == |old(kept)| + size && kept[..|old(kept)|] == old(kept)
      ensures buffer.view != [] && (Packed(old(buffer.view)) ==> Packed(buffer.view))
      ensures Dense(old(buffer.view)) ==> Dense(buffer.view)
      ensures old(buffer.view) != [] ==> buffer.view[0].off == old(buffer.view)[0].off
      ensures old(buffer.queue.repr) <= buffer.queue.repr && fresh(buffer.queue.repr - old(buffer.queue.repr))
    {
      hide *;
      Facts();
      ghost var junk;
      size, junk := buffer.Lend();
      LentFacts(old(buffer.view), junk);
      assert original + kept + junk == original + (kept + junk);
      kept, lent := kept + junk, size;
      Facts();
    }

    /** The caller's use of the region of `size` bytes: d over its first bytes. */
    method Store(size: nat, d: seq<byte>)
      requires Valid() && |d| <= size == lent && size > 0
      modifies this, buffer, buffer.queue.repr
      ensures Valid() && original == old(original) && lent == old(lent)
      ensures |kept| == |old(kept)| && size <= |kept|
      ensures kept[..|kept| - size + |d|] == old(kept)[..|old(kept)| - size] + d
      ensures buffer.view != [] && (Packed(old(buffer.view)) ==> Packed(buffer.view))
      ensures Dense(old(buffer.view)) ==> Dense(buffer.view)
      ensures buffer.view[0].off == old(buffer.view)[0].off && buffer.queue.repr == old(buffer.queue.repr)
    {
      hide *;
      Facts();
      StoreFacts(buffer.view, original, kept, size, d);
      buffer.ReadableFacts();
      buffer.TailFacts();
      buffer.StoreLast(buffer.queue.tail.len - size, d);
      kept := Flat(buffer.view)[|original|..];
      Facts();
    }

    /** Gives the last `count` bytes of the region just lent back. */
    method BackUp(count: nat)
      requires Valid() && count <= lent && buffer.view != [] && count < |Last(buffer.view).bytes|
      modifies this, buffer, buffer.queue.repr
      ensures Valid() && original == old(original) && lent == 0
      ensures count <= |old(kept)| && kept == old(kept)[..|old(kept)| - count]
      ensures buffer.view != [] && (Packed(old(buffer.view)) ==> Packed(buffer.view))
      ensures Dense(old(buffer.view)) ==> Dense(buffer.view)
      ensures buffer.view[0].off == old(buffer.view)[0].off && buffer.queue.repr == old(buffer.queue.repr)
    {
      hide *;
      Facts();
      CutFacts(buffer.view, count);
      buffer.ReadableFacts();
      buffer.TailFacts();
      buffer.TrimLast(count);
      assert (original + kept)[..|original + kept| - count] == original + kept[..|kept| - count];
      kept, lent := kept[..|kept| - count], 0;
      Facts();
    }

    /** What a serialiser does with d: it borrows a region, stores as much of d as fits,
        and gives the unused end back. */
    method Put(d: seq<byte>) returns (n: nat)
      requires Valid() && d != []
      modifies this, buffer, buffer.queue, buffer.queue.repr
      ensures Valid() && original == old(original) && 0 < n <= |d| && kept == old(kept) + d[..n]
      ensures buffer.view != [] && (Packed(old(buffer.view)) ==> Packed(buffer.view))
      ensures Dense(old(buffer.view)) ==> Dense(buffer.view)
      ensures old(buffer.view) != [] ==> buffer.view[0].off == old(buffer.view)[0].off
      ensures old(buffer.queue.repr) <= buffer.queue.repr && fresh(buffer.queue.repr - old(buffer.queue.repr))
    {
      hide *;
      var size := Next();
      n := if |d| < size then |d| else size;
      Store(size, d[..n]);
      assert kept[..|kept| - size + n] == old(kept) + d[..n];
      if n < size {
        Facts();
        BackUp(size - n);
      } else {
        assert kept[..|kept|] == kept;
      }
    }

    method ByteCount() returns (n: int)
      requires Valid()
      ensures n == |kept|
    {
      buffer.ReadableFacts();
      n := buffer.length - originalSize;
    }
  }

  lemma LentFacts(v: seq<Chunk>, junk: seq<byte>)
    requires AllOk(v)
    ensures var w := OpenTail(v);
            var u := SetLast(w, Last(w).Plus(junk));
            && u != [] && |junk| <= |Last(u).bytes| && (v != [] ==> u[0].off == v[0].off)
            && (Packed(v) ==> Packed(u)) && (Dense(v) && junk != [] ==> Dense(u))
            && (|junk| == Last(w).Room() ==> Last(u).Room() == 0)
  {
  }

  lemma CutFacts(v: seq<Chunk>, n: nat)
    requires v != [] && n <= |Last(v).bytes|
    ensures var w := SetLast(v, Last(v).Cut(n));
            w != [] && w[0].off == v[0].off && (Packed(v) ==> Packed(w))
            && (Dense(v) && n < |Last(v).bytes| ==> Dense(w))
  {
  }

  /** Storing in the lent end of the last piece changes just those bytes. */
  lemma StoreFacts(v: seq<Chunk>, original: seq<byte>, kept: seq<byte>, lent: nat, d: seq<byte>)
    requires v != [] && |d| <= lent <= |kept| && lent <= |Last(v).bytes| && Flat(v) == original + kept
    ensures var at := |Last(v).bytes| - lent;
            var w := SetLast(v, Last(v).With(at, d));
            && w != [] && w[0].off == v[0].off && lent <= |Last(w).bytes| && (Packed(v) ==> Packed(w))
            && (Dense(v) ==> Dense(w))
            && |Flat(w)| == |original| + |kept| && Flat(w) == original + Flat(w)[|original|..]
            && Flat(w)[|original|..][..|kept| - lent + |d|] == kept[..|kept| - lent] + d
  {
    hide Flat;
    var c, front := Last(v), v[..|v| - 1];
    var at := |c.bytes| - lent;
    var stored := c.With(at, d);
    assert v == front + [c] && SetLast(v, stored) == front + [stored];
    FlatPush(front, c);
    FlatPush(front, stored);
    StoredBytes(Flat(front), c.bytes, original, kept, lent, d);
  }

  lemma StoredBytes(front: seq<byte>, last: seq<byte>, original: seq<byte>, kept: seq<byte>, lent: nat, d: seq<byte>)
    requires |d| <= lent <= |kept| && lent <= |last| && front + last == original + kept
    ensures var at := |last| - lent;
            var all := front + (last[..at] + d + last[at + |d|..]);
            && |all| == |original| + |kept| && all == original + all[|original|..]
            && all[|original|..][..|kept| - lent + |d|] == kept[..|kept| - lent] + d
  {
    var at := |last| - lent;
    var all := front + (last[..at] + d + last[at + |d|..]);
    var n := |front| + at;
    assert all[..n] == (front + last)[..n] == (original + kept)[..n];
    assert (original + kept)[..n] == original + kept[..|kept| - lent];
    assert all[n..n + |d|] == d;
    assert all[|original|..][..|kept| - lent + |d|] == all[|original|..n] + all[n..n + |d|];
    assert all[|original|..n] == all[..n][|original|..];
  }
}
