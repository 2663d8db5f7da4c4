/**
 Pieces, the fixed-size byte blocks buffers are made of, and the intrusive queue
 that links them through their own `next` field.
 */
module Pieces {
  import opened Chunks

  /** A slice of a block that contains the bytes stored last. */
  lemma SliceOfStore(data: seq<byte>, at: nat, d: seq<byte>, lo: nat, hi: nat)
    requires lo <= at && at + |d| <= hi <= |data|
    ensures (data[..at] + d + data[at + |d|..])[lo..hi] == data[lo..at] + d + data[at + |d|..hi]
  {
  }

  lemma OfSlice(data: seq<byte>, lo: nat, hi: nat, i: nat, j: nat)
    requires lo <= hi <= |data| && i <= j <= hi - lo
    ensures data[lo..hi][..i] == data[lo..lo + i] && data[lo..hi][j..] == data[lo + j..hi]
  {
  }

  /** A piece and its block.  The block is part of the piece, so no two pieces share
      one; the methods below are the copies and moves made within it. */
  class Piece {
    var next: Piece?
    var off: nat
    var len: nat
    var data: seq<byte>

    constructor ()
      ensures next == null && Ok() && Value() == EMPTY_CHUNK
    {
      next := null;
      off, len := 0, 0;
      data := seq(CAPACITY, _ => 0);
    }

    /** The fields stay within the block; in particular they fit 16 bits. */
    ghost predicate Ok()
      reads `off, `len, `data
    {
      |data| == CAPACITY && off + len <= CAPACITY
    }

    ghost function Value(): Chunk
      requires Ok()
      reads `off, `len, `data
    {
      Chunk(off, data[off..off + len])
    }

    /** The first n of the bytes held. */
    function Front(n: nat): (d: seq<byte>)
      requires Ok() && n <= len
      reads `off, `len, `data
      ensures d == Value().bytes[..n]
    {
      data[off..off + n]
    }

    /** Overwrites the block from `at` on, as a memory copy does. */
    method Store(at: nat, d: seq<byte>)
      requires |data| == CAPACITY && at + |d| <= CAPACITY
      modifies `data
      ensures |data| == CAPACITY && data == old(data)[..at] + d + old(data)[at + |d|..]
    {
      data := data[..at] + d + data[at + |d|..];
    }

    /** Copies bytes behind the ones held. */
    method Append(d: seq<byte>)
      requires Ok() && off + len + |d| <= CAPACITY
      modifies `len, `data
      ensures Ok() && Value() == old(Value()).Plus(d)
    {
      Store(off + len, d);
      len := len + |d|;
      SliceOfStore(old(data), old(off + len), d, off, off + len);
    }

    /** Copies bytes in front of the ones held. */
    method Prepend(d: seq<byte>)
      requires Ok() && |d| <= off
      modifies `off, `len, `data
      ensures Ok() && Value() == old(Value()).Under(d)
    {
      off := off - |d|;
      Store(off, d);
      len := len + |d|;
      SliceOfStore(old(data), off, d, off, off + len);
    }

    /** Moves the bytes held to the front of the block, over themselves. */
    method Compact()
      requires Ok()
      modifies `off, `data
      ensures Ok() && Value() == old(Value()).Compacted()
    {
      if off > 0 {
        Store(0, data[off..off + len]);
        SliceOfStore(old(data), 0, old(data)[off..off + len], 0, len);
        off := 0;
      }
    }

    /** Gives up the last n bytes. */
    method Shorten(n: nat)
      requires Ok() && n <= len
      modifies `len
      ensures Ok() && Value() == old(Value()).Cut(n)
    {
      len := len - n;
    }

    /** Takes the rest of the block in, whatever it contains. */
    method Extend() returns (ghost d: seq<byte>)
      requires Ok()
      modifies `len
      ensures Ok() && Value() == old(Value()).Plus(d) && |d| == CAPACITY - off - old(len)
    {
      d := data[off + len..];
      len := CAPACITY - off;
      assert data[off..off + len] == old(data[off..off + len]) + d;
    }

    /** Overwrites bytes held, from position `at` on. */
    method Overwrite(at: nat, d: seq<byte>)
      requires Ok() && at + |d| <= len
      modifies `data
      ensures Ok() && Value() == old(Value()).With(at, d)
    {
      Store(off + at, d);
      SliceOfStore(old(data), off + at, d, off, off + len);
      OfSlice(old(data), off, off + len, at, at + |d|);
    }

    /** Gives up the first n bytes. */
    method Advance(n: nat)
      requires Ok() && n <= len
      modifies `off, `len
      ensures Ok() && Value() == old(Value()).Skipped(n)
    {
      off := off + n;
      len := len - n;
    }
  }

  ghost function Successor(items: seq<Piece>, i: nat): Piece? {
    if i + 1 < |items| then items[i + 1] else null
  }

  /** Links, distinctness: what makes a list of pieces a chain. */
  ghost predicate Chain(items: seq<Piece>)
    reads items`next
  {
    && (forall i | 0 <= i < |items| :: items[i].next == Successor(items, i))
    && (forall i, j | 0 <= i < j < |items| :: items[i] != items[j])
  }

  /** The fields of a queue describe the chain `items` of its own pieces. */
  ghost predicate WellLinked(head: Piece?, tail: Piece?, size: nat, items: seq<Piece>, repr: set<Piece>)
    reads repr`next
  {
    && (forall i | 0 <= i < |items| :: items[i] in repr)
    && Chain(items) && size == |items|
    && (head == if items == [] then null else items[0])
    && (tail != null ==> items != [] && tail == items[|items| - 1])
  }

  class Queue {
    var head: Piece?
    var tail: Piece?
    var size: nat
    ghost var items: seq<Piece>
    ghost var repr: set<Piece>  // the pieces owned by the queue

    constructor ()
      ensures Valid() && TailOk() && items == [] && repr == {}
    {
      head, tail, size := null, null, 0;
      items, repr := [], {};
    }

    ghost predicate Valid()
      reads this, repr`next
    {
      WellLinked(head, tail, size, items, repr)
    }

    ghost predicate TailOk()
      reads this
    {
      tail == if items == [] then null else items[|items| - 1]
    }

    lemma SizeFacts()
      requires Valid()
      ensures size == |items| && (items != [] ==> items[0] in repr)
      ensures TailOk() && tail != null ==> tail in repr
    {
    }

    ghost function TailSet(): (s: set<Piece>)
      reads this
      ensures forall p | p in s :: p == tail
    {
      if tail == null then {} else {tail}
    }

    method Push(item: Piece)
      requires Valid() && TailOk() && item !in repr
      modifies this, item`next, TailSet()`next
      ensures Valid() && TailOk() && items == old(items) + [item] && repr == old(repr) + {item}
    {
      item.next := null;
      if tail != null {
        tail.next := item;
      } else {
        head := item;
      }
      tail := item;
      size := size + 1;
      items, repr := items + [item], repr + {item};
    }

    method Pop() returns (item: Piece?)
      requires Valid()
      modifies this
      ensures Valid() && (TailOk() <==> old(TailOk()) || items == [])
      ensures old(items) == [] ==> item == null && items == [] && repr == old(repr)
      ensures old(items) != [] ==> item == old(items)[0] && items == old(items)[1..] && repr == old(repr) - {item}
      ensures items != [] ==> tail == old(tail)
    {
      item := head;
      if head != null {
        head := head.next;
        items, repr := items[1..], repr - {item};
        assert forall i | 0 <= i < |items| :: items[i] == old(items)[i + 1];
        if head == null {
          tail := null;
        }
        size := size - 1;
      }
    }

    /** Links a piece in front, as the input stream does.  As written the tail is not
        updated; as intended it is restored in a queue that was empty. */
    method PushFront(item: Piece, restore: bool)
      requires Valid() && item !in repr
      modifies this, item`next
      ensures Valid() && items == [item] + old(items) && repr == old(repr) + {item}
      ensures tail == if restore && old(items) == [] then item else old(tail)
    {
      if restore && head == null {
        tail := item;
      }
      item.next := head;
      head := item;
      size := size + 1;
      items, repr := [item] + items, repr + {item};
      assert forall i | 0 < i < |items| :: items[i] == old(items)[i - 1];
    }

    /** Exchanges the contents of two queues. */
    method Swap(other: Queue)
      requires other != this && Valid() && TailOk() && other.Valid() && other.TailOk()
      modifies this, other
      ensures Valid() && TailOk() && items == old(other.items) && repr == old(other.repr)
      ensures other.Valid() && other.TailOk() && other.items == old(items) && other.repr == old(repr)
    {
      hide WellLinked;
      head, other.head := other.head, head;
      tail, other.tail := other.tail, tail;
      size, other.size := other.size, size;
      items, other.items := other.items, items;
      repr, other.repr := other.repr, repr;
    }

    /** Gives the whole chain away. */
    method Release() returns (first: Piece?)
      requires Valid()
      modifies this
      ensures Valid() && TailOk() && items == [] && repr == {}
      ensures first == if old(items) == [] then null else old(items)[0]
    {
      first := head;
      head, tail, size := null, null, 0;
      items, repr := [], {};
    }
  }
}
