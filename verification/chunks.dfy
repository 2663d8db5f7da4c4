/**
 Values of the segmented byte buffer.  A chunk is what one piece holds; a list of
 chunks is what a buffer holds; the operations of the buffer are functions on such
 lists, each proved to be the plain byte-sequence operation on their contents.
 */
module Chunks {
  import opened Common

  /** Bytes in one piece. */
  const CAPACITY: nat := 4096

  type byte = b: int | 0 <= b < 256

  /** The offset of a piece and the bytes it holds from there. */
  datatype Chunk = Chunk(off: nat, bytes: seq<byte>) {
    predicate Ok() {
      off + |bytes| <= CAPACITY
    }

    function Room(): int {
      CAPACITY - off - |bytes|
    }

    /** With bytes added behind the ones held. */
    function Plus(d: seq<byte>): Chunk {
      Chunk(off, bytes + d)
    }

    /** With bytes added in front of the ones held. */
    function Under(d: seq<byte>): Chunk
      requires |d| <= off
    {
      Chunk(off - |d|, d + bytes)
    }

    /** Without the first n bytes. */
    function Skipped(n: nat): Chunk
      requires n <= |bytes|
    {
      Chunk(off + n, bytes[n..])
    }

    /** Without the last n bytes. */
    function Cut(n: nat): Chunk
      requires n <= |bytes|
    {
      Chunk(off, bytes[..|bytes| - n])
    }

    /** With the bytes from `at` on overwritten. */
    function With(at: nat, d: seq<byte>): Chunk
      requires at + |d| <= |bytes|
    {
      Chunk(off, bytes[..at] + d + bytes[at + |d|..])
    }

    /** Moved to the front of the block. */
    function Compacted(): Chunk {
      Chunk(0, bytes)
    }
  }

  const EMPTY_CHUNK := Chunk(0, [])

  predicate AllOk(v: seq<Chunk>) {
    forall i | 0 <= i < |v| :: v[i].Ok()
  }

  /** No piece is empty. */
  predicate Dense(v: seq<Chunk>) {
    forall i | 0 <= i < |v| :: v[i].bytes != []
  }

  /** Every piece but the last is full to the end of its block. */
  predicate Packed(v: seq<Chunk>) {
    forall i | 0 <= i < |v| - 1 :: v[i].Room() == 0
  }

  /** The bytes of a list of chunks, in order. */
  function Flat(v: seq<Chunk>): seq<byte> {
    if v == [] then [] else v[0].bytes + Flat(v[1..])
  }

  function SetLast(v: seq<Chunk>, c: Chunk): seq<Chunk>
    requires v != []
  {
    v[|v| - 1 := c]
  }

  function SetFirst(v: seq<Chunk>, c: Chunk): seq<Chunk>
    requires v != []
  {
    [c] + v[1..]
  }

  function Last(v: seq<Chunk>): Chunk
    requires v != []
  {
    v[|v| - 1]
  }

  lemma {:induction false} FlatConcat(a: seq<Chunk>, b: seq<Chunk>)
    ensures Flat(a + b) == Flat(a) + Flat(b)
  {
    if a == [] {
      assert a + b == b;
    } else {
      assert (a + b)[1..] == a[1..] + b;
      FlatConcat(a[1..], b);
    }
  }

  lemma FlatOne(c: Chunk)
    ensures Flat([c]) == c.bytes
  {
    assert [c][1..] == [];
  }

  lemma FlatPush(v: seq<Chunk>, c: Chunk)
    ensures Flat(v + [c]) == Flat(v) + c.bytes
  {
    FlatConcat(v, [c]);
    FlatOne(c);
  }

  lemma FlatSetLast(v: seq<Chunk>, c: Chunk, d: seq<byte>)
    requires v != [] && c.bytes == Last(v).bytes + d
    ensures Flat(SetLast(v, c)) == Flat(v) + d
  {
    var front := v[..|v| - 1];
    assert v == front + [Last(v)] && SetLast(v, c) == front + [c];
    FlatPush(front, Last(v));
    FlatPush(front, c);
    assert Flat(front) + (Last(v).bytes + d) == (Flat(front) + Last(v).bytes) + d;
  }

  lemma PlusFlat(v: seq<Chunk>, d: seq<byte>)
    requires v != []
    ensures Flat(SetLast(v, Last(v).Plus(d))) == Flat(v) + d
  {
    FlatSetLast(v, Last(v).Plus(d), d);
  }

  lemma {:induction false} FlatNotEmpty(v: seq<Chunk>)
    requires Dense(v)
    ensures |Flat(v)| >= |v|
  {
    if v != [] {
      FlatNotEmpty(v[1..]);
    }
  }

  // ---------------------------------------------------------------------
  // Consuming from the front
  // ---------------------------------------------------------------------

  /** Skipping n bytes pops the pieces used up and advances the next one. */
  function Drop(v: seq<Chunk>, n: nat): (r: seq<Chunk>)
    requires v != [] && n <= |Flat(v)|
    ensures Flat(r) == Flat(v)[n..]
    ensures AllOk(v) ==> AllOk(r)
    ensures Dense(v) ==> Dense(r)
  {
    var first := v[0].bytes;
    if n < |first| then
      FlatConcat([Chunk(v[0].off + n, first[n..])], v[1..]);
      FlatOne(Chunk(v[0].off + n, first[n..]));
      assert (first + Flat(v[1..]))[n..] == first[n..] + Flat(v[1..]);
      SetFirst(v, v[0].Skipped(n))
    else if n == |first| then v[1..]
    else Drop(v[1..], n - |first|)
  }

  /** A reading loop in progress: `d` has been read, `left` bytes of `v` are still
      to be read, and `rest` is what will then remain. */
  ghost predicate Reading(v: seq<Chunk>, left: nat, d: seq<byte>, all: seq<byte>, len: nat, rest: seq<Chunk>) {
    && v != [] && left <= |Flat(v)| && Drop(v, left) == rest
    && all == d + Flat(v) && len == |d| + left
  }

  lemma ReadingStart(v: seq<Chunk>, len: nat)
    requires v != [] && len <= |Flat(v)|
    ensures Reading(v, len, [], Flat(v), len, Drop(v, len))
  {
    assert [] + Flat(v) == Flat(v);
  }

  /** A round that uses up the first piece. */
  lemma ReadingWhole(v: seq<Chunk>, left: nat, d: seq<byte>, all: seq<byte>, len: nat, rest: seq<Chunk>)
    requires Reading(v, left, d, all, len, rest) && |v[0].bytes| < left
    ensures v[1..] != [] && Reading(v[1..], left - |v[0].bytes|, d + v[0].bytes, all, len, rest)
  {
    assert d + (v[0].bytes + Flat(v[1..])) == (d + v[0].bytes) + Flat(v[1..]);
  }

  /** The last round takes what is still needed. */
  lemma ReadingLast(v: seq<Chunk>, left: nat, d: seq<byte>, all: seq<byte>, len: nat, rest: seq<Chunk>)
    requires Reading(v, left, d, all, len, rest) && left <= |v[0].bytes|
    ensures v != [] && len <= |all| && d + v[0].bytes[..left] == all[..len] && Flat(rest) == all[len..]
    ensures rest == if left < |v[0].bytes| then SetFirst(v, v[0].Skipped(left)) else v[1..]
  {
    assert Flat(v)[..left] == v[0].bytes[..left];
    assert (d + Flat(v))[..len] == d + Flat(v)[..left];
  }

  /** Moving n bytes out moves whole pieces and copies the part of the last one. */
  function Take(v: seq<Chunk>, n: nat): (r: seq<Chunk>)
    requires v != [] && n <= |Flat(v)|
    ensures Flat(r) == Flat(v)[..n]
    ensures AllOk(v) ==> AllOk(r)
  {
    var first := v[0].bytes;
    if n < |first| then
      FlatOne(Chunk(0, first[..n]));
      [Chunk(0, first[..n])]
    else if n == |first| then
      FlatOne(v[0]);
      [v[0]]
    else
      var rest := Take(v[1..], n - |first|);
      FlatConcat([v[0]], rest);
      FlatOne(v[0]);
      [v[0]] + rest
  }

  // ---------------------------------------------------------------------
  // Appending at the back
  // ---------------------------------------------------------------------

  /** Bytes fill the last piece, then as many new pieces as they need. */
  function Fill(v: seq<Chunk>, d: seq<byte>): seq<Chunk>
    requires v != [] && Last(v).Ok()
    decreases |d|, if Last(v).Room() == 0 then 1 else 0
  {
    var c := Last(v);
    if |d| <= c.Room() then SetLast(v, c.Plus(d))
    else Fill(SetLast(v, c.Plus(d[..c.Room()])) + [EMPTY_CHUNK], d[c.Room()..])
  }

  /** A piece with room at the back, a new one if there is none. */
  function OpenTail(v: seq<Chunk>): (r: seq<Chunk>)
    requires AllOk(v)
    ensures r != [] && AllOk(r) && Last(r).Room() > 0
  {
    if v == [] || Last(v).Room() == 0 then v + [EMPTY_CHUNK] else v
  }

  function Write(v: seq<Chunk>, d: seq<byte>): seq<Chunk>
    requires AllOk(v)
  {
    Fill(OpenTail(v), d)
  }

  lemma OpenTailFlat(v: seq<Chunk>)
    requires AllOk(v)
    ensures Flat(OpenTail(v)) == Flat(v)
  {
    FlatPush(v, EMPTY_CHUNK);
  }

  lemma OpenTailFacts(v: seq<Chunk>, d: seq<byte>)
    requires AllOk(v)
    ensures v == [] || Last(v).Room() == 0 ==> Last(v + [EMPTY_CHUNK]).Room() > 0 && Last(v + [EMPTY_CHUNK]).Ok()
    ensures v == [] || Last(v).Room() == 0 ==> Write(v, d) == Fill(v + [EMPTY_CHUNK], d)
    ensures v != [] && Last(v).Room() != 0 ==> Last(v).Room() > 0 && Write(v, d) == Fill(v, d)
  {
  }

  /** One round of a filling loop with `left` bytes to go. */
  lemma FillStep(v: seq<Chunk>, d: seq<byte>, left: nat)
    requires v != [] && Last(v).Ok() && left <= |d|
    ensures var rest := d[|d| - left..];
            if left <= Last(v).Room() then Fill(v, rest) == SetLast(v, Last(v).Plus(rest))
            else && var w := SetLast(v, Last(v).Plus(rest[..Last(v).Room()])) + [EMPTY_CHUNK];
                 && Last(w).Ok() && Last(w).Room() > 0
                 && Fill(v, rest) == Fill(w, d[|d| - (left - Last(v).Room())..])
  {
    if left > Last(v).Room() {
      assert d[|d| - left..][Last(v).Room()..] == d[|d| - (left - Last(v).Room())..];
    }
  }

  lemma {:induction false} FillFlat(v: seq<Chunk>, d: seq<byte>)
    requires v != [] && AllOk(v)
    ensures Flat(Fill(v, d)) == Flat(v) + d && AllOk(Fill(v, d))
    decreases |d|, if Last(v).Room() == 0 then 1 else 0
  {
    hide Flat;
    var c := Last(v);
    if |d| <= c.Room() {
      PlusFlat(v, d);
    } else {
      var room := c.Room();
      var w := SetLast(v, c.Plus(d[..room]));
      PlusFlat(v, d[..room]);
      FlatPush(w, EMPTY_CHUNK);
      FillFlat(w + [EMPTY_CHUNK], d[room..]);
      assert d[..room] + d[room..] == d;
    }
  }

  lemma SetLastPacked(v: seq<Chunk>, c: Chunk)
    requires v != [] && Packed(v)
    ensures Packed(SetLast(v, c)) && SetLast(v, c) != []
    ensures c.off == Last(v).off ==> SetLast(v, c)[0].off == v[0].off
  {
  }

  lemma OpenTailPacked(v: seq<Chunk>)
    requires AllOk(v) && Packed(v)
    ensures Packed(OpenTail(v)) && (v != [] ==> OpenTail(v)[0].off == v[0].off)
  {
  }

  lemma {:induction false} FillPacked(v: seq<Chunk>, d: seq<byte>)
    requires v != [] && AllOk(v) && Packed(v)
    ensures Packed(Fill(v, d)) && Fill(v, d) != [] && Fill(v, d)[0].off == v[0].off
    decreases |d|, if Last(v).Room() == 0 then 1 else 0
  {
    var c := Last(v);
    if |d| <= c.Room() {
      SetLastPacked(v, c.Plus(d));
    } else {
      var w := SetLast(v, c.Plus(d[..c.Room()]));
      SetLastPacked(v, c.Plus(d[..c.Room()]));
      FillPacked(w + [EMPTY_CHUNK], d[c.Room()..]);
    }
  }

  /** Writing packs the pieces and keeps the room in front of the first one. */
  lemma WritePacked(v: seq<Chunk>, d: seq<byte>)
    requires AllOk(v) && Packed(v)
    ensures Packed(Write(v, d)) && Write(v, d) != []
    ensures Write(v, d)[0].off == if v == [] then 0 else v[0].off
  {
    OpenTailPacked(v);
    FillPacked(OpenTail(v), d);
  }

  lemma {:induction false} FillDense(v: seq<Chunk>, d: seq<byte>)
    requires v != [] && AllOk(v) && Dense(v[..|v| - 1]) && Last(v).Room() > 0 && d != []
    ensures Dense(Fill(v, d))
    decreases |d|, if Last(v).Room() == 0 then 1 else 0
  {
    var c, front := Last(v), v[..|v| - 1];
    if |d| <= c.Room() {
      assert SetLast(v, c.Plus(d)) == front + [c.Plus(d)];
    } else {
      var e := c.Plus(d[..c.Room()]);
      assert SetLast(v, e) == front + [e];
      var w := front + [e] + [EMPTY_CHUNK];
      assert w[..|w| - 1] == front + [e];
      FillDense(w, d[c.Room()..]);
    }
  }

  /** Writing something leaves no piece empty, if only the last one was. */
  lemma WriteDense(v: seq<Chunk>, d: seq<byte>)
    requires AllOk(v) && d != [] && (v != [] ==> Dense(v[..|v| - 1]) && (Last(v).Room() == 0 ==> Dense(v)))
    ensures Dense(Write(v, d))
  {
    var w := OpenTail(v);
    assert w == v || w[..|w| - 1] == v;
    FillDense(w, d);
  }

  lemma UnderPacked(v: seq<Chunk>, d: seq<byte>)
    requires v != [] && Packed(v) && |d| <= v[0].off
    ensures var w := SetFirst(v, v[0].Under(d)); Packed(w) && w != [] && w[0].off == v[0].off - |d|
  {
  }

  /** As much of d as one block holds. */
  function FirstBlock(d: seq<byte>): seq<byte> {
    if |d| <= CAPACITY then d else d[..CAPACITY]
  }

  /** In a packed list the first piece holds as many of the bytes as its block can. */
  lemma PackedFirst(v: seq<Chunk>)
    requires v != [] && AllOk(v) && Packed(v)
    ensures var n := CAPACITY - v[0].off;
            v[0].bytes == if |Flat(v)| <= n then Flat(v) else Flat(v)[..n]
    ensures v[0].off == 0 ==> v[0].bytes == FirstBlock(Flat(v))
  {
    if |v| == 1 {
      FlatOne(v[0]);
      assert v == [v[0]];
    } else {
      FlatHead(v);
    }
  }

  /** Writing appends exactly the bytes written. */
  lemma WriteFlat(v: seq<Chunk>, d: seq<byte>)
    requires AllOk(v)
    ensures Flat(Write(v, d)) == Flat(v) + d && AllOk(Write(v, d))
  {
    OpenTailFlat(v);
    FillFlat(OpenTail(v), d);
  }

  // ---------------------------------------------------------------------
  // Prepending, peeking
  // ---------------------------------------------------------------------

  /** The first piece grows backwards. */
  lemma PrependFlat(v: seq<Chunk>, d: seq<byte>)
    requires v != [] && |d| <= v[0].off
    ensures Flat(SetFirst(v, v[0].Under(d))) == d + Flat(v)
  {
    assert SetFirst(v, v[0].Under(d))[1..] == v[1..];
    assert (d + v[0].bytes) + Flat(v[1..]) == d + (v[0].bytes + Flat(v[1..]));
  }

  /** What peeking n bytes gives.  The copy is right when the first piece that holds
      any bytes holds all n of them; otherwise the second copy lands outside the
      destination, and the result is undefined. */
  function Peeked(v: seq<Chunk>, n: nat): (r: Option<seq<byte>>)
    ensures r.Some? ==> |r.value| == n
  {
    if v == [] then None
    else if v[0].bytes == [] then Peeked(v[1..], n)
    else if n <= |v[0].bytes| then Some(v[0].bytes[..n])
    else None
  }

  /** Some piece holds the first n bytes together, behind empty pieces only. */
  ghost predicate FirstHolds(v: seq<Chunk>, n: nat) {
    exists k | 0 <= k < |v| :: |v[k].bytes| >= n && forall i | 0 <= i < k :: v[i].bytes == []
  }

  lemma FirstHoldsBehind(v: seq<Chunk>, n: nat)
    requires n > 0 && v != [] && v[0].bytes == []
    ensures FirstHolds(v, n) <==> FirstHolds(v[1..], n)
  {
    if FirstHolds(v[1..], n) {
      var k :| 0 <= k < |v[1..]| && |v[1..][k].bytes| >= n && forall i | 0 <= i < k :: v[1..][i].bytes == [];
      assert forall i | 1 <= i <= k + 1 :: v[i] == v[1..][i - 1];
      assert |v[k + 1].bytes| >= n && forall i | 0 <= i < k + 1 :: v[i].bytes == [];
    }
    if FirstHolds(v, n) {
      var k :| 0 <= k < |v| && |v[k].bytes| >= n && forall i | 0 <= i < k :: v[i].bytes == [];
      assert v[1..][k - 1] == v[k];
      assert forall i | 0 <= i < k - 1 :: v[1..][i].bytes == [];
    }
  }

  /** Peeking is defined exactly when the first n bytes lie together, and then it
      gives them. */
  lemma {:induction false} PeekedExact(v: seq<Chunk>, n: nat)
    requires 0 < n <= |Flat(v)|
    ensures Peeked(v, n).Some? <==> FirstHolds(v, n)
    ensures Peeked(v, n).Some? ==> Peeked(v, n).value == Flat(v)[..n]
  {
    if v == [] {
    } else if v[0].bytes == [] {
      assert Flat(v) == Flat(v[1..]);
      PeekedExact(v[1..], n);
      FirstHoldsBehind(v, n);
    } else if n <= |v[0].bytes| {
      assert Flat(v)[..n] == v[0].bytes[..n];
    }
  }

  /** A peek at piece k with `left` of its n bytes to go. */
  ghost predicate Peeking(v: seq<Chunk>, k: nat, n: nat, left: nat) {
    && k < |v| && 0 < left <= n && left <= |Flat(v[k..])|
    && Peeked(v, n) == if left == n then Peeked(v[k..], n) else None
  }

  lemma PeekingStart(v: seq<Chunk>, n: nat)
    requires 0 < n <= |Flat(v)|
    ensures Peeking(v, 0, n, n)
  {
    assert v[0..] == v;
  }

  /** One round: a copy beside the start of the destination is out of bounds. */
  lemma PeekingStep(v: seq<Chunk>, k: nat, n: nat, left: nat)
    requires Peeking(v, k, n, left)
    ensures var len := |v[k].bytes|;
            var count := if left <= len then left else len;
            && (count > 0 ==> ((n - left) * n + count > n <==> left < n))
            && (left == n ==> (n - left) * n == 0)
            && (left < n && count > 0 ==> Peeked(v, n) == None)
            && (left == n <= len ==> Peeked(v, n) == Some(v[k].bytes[..n]))
            && (left > len && (left == n || len == 0) ==> Peeking(v, k + 1, n, left - len))
  {
    assert v[k..][1..] == v[k + 1..];
    assert Flat(v[k..]) == v[k].bytes + Flat(v[k + 1..]);
    if left < n {
      assert (n - left) * n >= n by { TimesAtLeast(n - left, n); }
    }
  }

  // ---------------------------------------------------------------------
  // Appending and taking whole pieces, with coalescing
  // ---------------------------------------------------------------------

  /** Appending a received piece: into the last piece when both fit one block. */
  function WithPiece(v: seq<Chunk>, c: Chunk): seq<Chunk> {
    if v != [] && |Last(v).bytes| + |c.bytes| <= CAPACITY
    then SetLast(v, Last(v).Compacted().Plus(c.bytes))
    else v + [c]
  }

  /** Coalescing or not, exactly the bytes of the piece are appended. */
  lemma WithPieceFlat(v: seq<Chunk>, c: Chunk)
    requires AllOk(v) && c.Ok()
    ensures Flat(WithPiece(v, c)) == Flat(v) + c.bytes && AllOk(WithPiece(v, c))
    ensures Dense(v) && c.bytes != [] ==> Dense(WithPiece(v, c))
  {
    if v != [] && |Last(v).bytes| + |c.bytes| <= CAPACITY {
      FlatSetLast(v, Last(v).Compacted().Plus(c.bytes), c.bytes);
    } else {
      FlatPush(v, c);
    }
  }

  lemma WithPieceCases(v: seq<Chunk>, c: Chunk)
    ensures v != [] && |Last(v).bytes| + |c.bytes| <= CAPACITY ==>
              WithPiece(v, c) == SetLast(v, Last(v).Compacted().Plus(c.bytes))
    ensures v == [] || |Last(v).bytes| + |c.bytes| > CAPACITY ==> WithPiece(v, c) == v + [c]
  {
  }

  /** Two pieces next to each other never fit one block, except that the first may have been
      read from. */
  ghost predicate Tight(v: seq<Chunk>) {
    forall i | 0 < i < |v| - 1 :: |v[i].bytes| + |v[i + 1].bytes| > CAPACITY
  }

  /** Received pieces are coalesced whenever they fit. */
  lemma WithPieceTight(v: seq<Chunk>, c: Chunk)
    requires Tight(v)
    ensures Tight(WithPiece(v, c))
    ensures |WithPiece(v, c)| == if v != [] && |Last(v).bytes| + |c.bytes| <= CAPACITY then |v| else |v| + 1
  {
  }

  lemma {:induction false} DropTight(v: seq<Chunk>, n: nat)
    requires v != [] && n <= |Flat(v)| && Tight(v)
    ensures Tight(Drop(v, n))
    decreases |v|
  {
    hide Flat, Tight, Dense, AllOk;
    FlatHead(v);
    DenseFacts(v[1..]);
    TightBehind(v, v[0]);
    if n < |v[0].bytes| {
      TightBehind(v, v[0].Skipped(n));
    } else if n > |v[0].bytes| {
      DropTight(v[1..], n - |v[0].bytes|);
    }
  }

  lemma TightBehind(v: seq<Chunk>, c: Chunk)
    requires v != [] && Tight(v)
    ensures Tight(v[1..]) && Tight(SetFirst(v, c))
  {
    assert forall i | 0 < i < |v| - 2 :: v[1..][i] == v[i + 1];
  }

  /** So the pieces of an input buffer are at least half full, but for two of them. */
  lemma TightBound(v: seq<Chunk>)
    requires Tight(v)
    ensures CAPACITY * (|v| - 2) <= 2 * |Flat(v)|
  {
    if |v| > 1 {
      TightSum(v[1..]);
    }
  }

  lemma {:induction false} TightSum(v: seq<Chunk>)
    requires v != [] && forall i | 0 <= i < |v| - 1 :: |v[i].bytes| + |v[i + 1].bytes| > CAPACITY
    ensures CAPACITY * (|v| - 1) + |v[0].bytes| <= 2 * |Flat(v)|
  {
    if |v| > 1 {
      TightSum(v[1..]);
    }
  }

  /** A piece to send and what stays behind. */
  datatype Taken = Taken(first: Chunk, rest: seq<Chunk>)

  /** The first piece absorbs the following ones for as long as they fit. */
  function Coalesced(first: Chunk, rest: seq<Chunk>): Taken
    decreases |rest|
  {
    if |first.bytes| < CAPACITY && rest != [] && |first.bytes| + |rest[0].bytes| <= CAPACITY
    then Coalesced(first.Compacted().Plus(rest[0].bytes), rest[1..])
    else Taken(first, rest)
  }

  lemma CoalescedStep(first: Chunk, rest: seq<Chunk>)
    ensures if |first.bytes| < CAPACITY && rest != [] && |first.bytes| + |rest[0].bytes| <= CAPACITY
            then Coalesced(first, rest) == Coalesced(first.Compacted().Plus(rest[0].bytes), rest[1..])
            else Coalesced(first, rest) == Taken(first, rest)
  {
  }

  lemma FlatHead(v: seq<Chunk>)
    requires v != []
    ensures Flat(v) == v[0].bytes + Flat(v[1..]) && (AllOk(v) ==> v[0].Ok() && AllOk(v[1..]))
  {
  }

  /** Nothing is lost or reordered, the piece fits a block, and it stops growing only
      when it is full, nothing is left, or the next piece does not fit. */
  lemma {:induction false} CoalescedExact(first: Chunk, rest: seq<Chunk>)
    requires first.Ok() && AllOk(rest)
    ensures var t := Coalesced(first, rest);
            && t.first.Ok() && AllOk(t.rest) && |t.rest| <= |rest| && t.rest == rest[|rest| - |t.rest|..]
            && t.first.bytes + Flat(t.rest) == first.bytes + Flat(rest)
            && (|t.first.bytes| == CAPACITY || t.rest == []
                || |t.first.bytes| + |t.rest[0].bytes| > CAPACITY)
            && |t.first.bytes| >= |first.bytes|
    decreases |rest|
  {
    if |first.bytes| < CAPACITY && rest != [] && |first.bytes| + |rest[0].bytes| <= CAPACITY {
      var grown := first.Compacted().Plus(rest[0].bytes);
      CoalescedExact(grown, rest[1..]);
      var t := Coalesced(grown, rest[1..]);
      assert rest[1..][|rest| - 1 - |t.rest|..] == rest[|rest| - |t.rest|..];
      assert first.bytes + (rest[0].bytes + Flat(rest[1..])) == grown.bytes + Flat(rest[1..]);
    }
  }

  /** Moving bytes between buffers, in progress. */
  ghost predicate Moving(v: seq<Chunk>, left: nat, out: seq<Chunk>, v0: seq<Chunk>, len: nat, out0: seq<Chunk>) {
    && v != [] && left <= |Flat(v)| && v0 != [] && len <= |Flat(v0)|
    && out + Take(v, left) == out0 + Take(v0, len) && Drop(v, left) == Drop(v0, len)
  }

  lemma MovingStart(v: seq<Chunk>, len: nat, out: seq<Chunk>)
    requires v != [] && len <= |Flat(v)|
    ensures Moving(v, len, out, v, len, out)
  {
  }

  lemma MovingWhole(v: seq<Chunk>, left: nat, out: seq<Chunk>, v0: seq<Chunk>, len: nat, out0: seq<Chunk>)
    requires Moving(v, left, out, v0, len, out0) && |v[0].bytes| < left
    ensures v[1..] != [] && Moving(v[1..], left - |v[0].bytes|, out + [v[0]], v0, len, out0)
  {
    assert out + ([v[0]] + Take(v[1..], left - |v[0].bytes|)) == (out + [v[0]]) + Take(v[1..], left - |v[0].bytes|);
  }

  lemma MovingLast(v: seq<Chunk>, left: nat, out: seq<Chunk>, v0: seq<Chunk>, len: nat, out0: seq<Chunk>)
    requires Moving(v, left, out, v0, len, out0) && left <= |v[0].bytes|
    ensures v != [] && v0 != [] && len <= |Flat(v0)|
    ensures left < |v[0].bytes| ==> out + [EMPTY_CHUNK.Plus(v[0].bytes[..left])] == out0 + Take(v0, len)
                                    && Drop(v0, len) == SetFirst(v, v[0].Skipped(left))
    ensures left == |v[0].bytes| ==> out + [v[0]] == out0 + Take(v0, len) && Drop(v0, len) == v[1..]
  {
    assert EMPTY_CHUNK.Plus(v[0].bytes[..left]) == Chunk(0, v[0].bytes[..left]);
  }

  // ---------------------------------------------------------------------
  // Lending regions to the zero-copy streams
  // ---------------------------------------------------------------------

  /** Handing the first piece out. */
  lemma HandOutFlat(v: seq<Chunk>, consumed: seq<byte>)
    requires v != []
    ensures consumed + Flat(v) == (consumed + v[0].bytes) + Flat(v[1..])
    ensures (consumed + v[0].bytes)[|consumed|..] == v[0].bytes
  {
    assert consumed + (v[0].bytes + Flat(v[1..])) == (consumed + v[0].bytes) + Flat(v[1..]);
  }

  /** Taking the last n of the consumed bytes back. */
  lemma GiveBackFlat(consumed: seq<byte>, b: seq<byte>, n: nat, rest: seq<byte>)
    requires n <= |b| <= |consumed| && b == consumed[|consumed| - |b|..]
    ensures consumed + rest == consumed[..|consumed| - n] + (b[|b| - n..] + rest)
  {
    assert b[|b| - n..] == consumed[|consumed| - n..];
  }

  lemma DenseFacts(v: seq<Chunk>)
    ensures Dense(v) && v != [] ==> v[0].bytes != [] && Dense(v[1..]) && Flat(v) != []
    ensures v == [] ==> Flat(v) == []
  {
  }

  lemma DenseRestored(v: seq<Chunk>, c: Chunk, n: nat)
    requires n <= |c.bytes|
    ensures n > 0 && Dense(v) ==> Dense([c.Skipped(|c.bytes| - n)] + v)
  {
  }

  /** Giving back the last n bytes of a piece handed out. */
  lemma RestoreFlat(v: seq<Chunk>, c: Chunk, n: nat)
    requires n <= |c.bytes|
    ensures Flat(([c.Skipped(|c.bytes| - n)] + v)) == c.bytes[|c.bytes| - n..] + Flat(v)
  {
    assert ([c.Skipped(|c.bytes| - n)] + v)[1..] == v;
  }

  /** Giving back the last n bytes of the last piece. */
  lemma CutFlat(v: seq<Chunk>, n: nat)
    requires v != [] && n <= |Last(v).bytes|
    ensures n <= |Flat(v)| && Flat(SetLast(v, Last(v).Cut(n))) == Flat(v)[..|Flat(v)| - n]
  {
    var c := Last(v);
    var w := SetLast(v, c.Cut(n));
    assert SetLast(w, c) == v;
    FlatSetLast(w, c, c.bytes[|c.bytes| - n..]);
  }

  lemma OpenTailCases(v: seq<Chunk>)
    requires AllOk(v)
    ensures OpenTail(v) == if v == [] || Last(v).Room() == 0 then v + [EMPTY_CHUNK] else v
  {
  }

  /** Overwriting bytes of the last piece changes no length. */
  lemma WithFlat(v: seq<Chunk>, at: nat, d: seq<byte>)
    requires v != [] && at + |d| <= |Last(v).bytes|
    ensures |Flat(SetLast(v, Last(v).With(at, d)))| == |Flat(v)|
  {
    var c, front := Last(v), v[..|v| - 1];
    assert v == front + [c] && SetLast(v, c.With(at, d)) == front + [c.With(at, d)];
    FlatPush(front, c);
    FlatPush(front, c.With(at, d));
  }
}
