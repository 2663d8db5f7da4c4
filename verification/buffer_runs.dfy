/**
 Whole runs of buffer operations against the same operations on plain byte sequences.
 */
module BufferRuns {
  import opened Common
  import opened Chunks
  import opened Pieces
  import opened Buffers

  /** Operations on two buffers, the first of which is written, read and peeked. */
  datatype Op =
    | OpWrite(d: seq<byte>)
    | OpRead(n: nat)
    | OpSkip(n: nat)
    | OpReserve(n: nat)      // room in front of an empty buffer
    | OpPrepend(d: seq<byte>)
    | OpPeek(n: nat, byBytes: bool)  // with the destination advanced by whole values or by bytes
    | OpMove(n: nat)         // n bytes to the back of the second buffer
    | OpSwap

  /** Both buffers as lists of pieces, and what the operations returned. */
  datatype Pieced = Pieced(a: seq<Chunk>, b: seq<Chunk>, out: seq<seq<byte>>)

  /** Both buffers as bytes. */
  datatype Plain = Plain(a: seq<byte>, b: seq<byte>, out: seq<seq<byte>>)

  /** What the operations demand, by their assertions and by what they dereference. */
  ghost predicate Allowed(s: Pieced, op: Op) {
    match op
    case OpWrite(_) => true
    case OpRead(n) => 0 < n <= |Flat(s.a)|
    case OpSkip(n) => s.a != [] && n <= |Flat(s.a)|
    case OpReserve(n) => s.a == [] && n < CAPACITY
    case OpPrepend(d) => s.a != [] && |d| <= s.a[0].off
    case OpPeek(n, byBytes) => 0 < n <= |Flat(s.a)| && (byBytes || FirstHolds(s.a, n))
    case OpMove(n) => 0 < n <= |Flat(s.a)|
    case OpSwap => true
  }

  function StepPieced(s: Pieced, op: Op): Pieced
    requires AllOk(s.a) && AllOk(s.b) && Allowed(s, op)
  {
    match op
    case OpWrite(d) => s.(a := Write(s.a, d))
    case OpRead(n) => s.(a := Drop(s.a, n), out := s.out + [Flat(s.a)[..n]])
    case OpSkip(n) => s.(a := Drop(s.a, n))
    case OpPrepend(d) => s.(a := SetFirst(s.a, s.a[0].Under(d)))
    case OpReserve(n) => s.(a := [Chunk(n, [])])
    case OpPeek(n, byBytes) => s.(out := s.out + [if byBytes then Flat(s.a)[..n] else PeekValue(s.a, n)])
    case OpMove(n) => s.(a := Drop(s.a, n), b := s.b + Take(s.a, n))
    case OpSwap => s.(a := s.b, b := s.a)
  }

  function PeekValue(v: seq<Chunk>, n: nat): seq<byte> {
    match Peeked(v, n) case Some(d) => d case None => []
  }

  /** The same operation on bytes; total, so that nothing but `Allowed` restricts runs. */
  function StepPlain(s: Plain, op: Op): Plain {
    match op
    case OpWrite(d) => s.(a := s.a + d)
    case OpRead(n) => if n <= |s.a| then s.(a := s.a[n..], out := s.out + [s.a[..n]]) else s
    case OpSkip(n) => if n <= |s.a| then s.(a := s.a[n..]) else s
    case OpPrepend(d) => s.(a := d + s.a)
    case OpReserve(n) => s
    case OpPeek(n, _) => if n <= |s.a| then s.(out := s.out + [s.a[..n]]) else s
    case OpMove(n) => if n <= |s.a| then s.(a := s.a[n..], b := s.b + s.a[..n]) else s
    case OpSwap => s.(a := s.b, b := s.a)
  }

  function Bytes(s: Pieced): Plain {
    Plain(Flat(s.a), Flat(s.b), s.out)
  }

  lemma StepRefines(s: Pieced, op: Op)
    requires AllOk(s.a) && AllOk(s.b) && Allowed(s, op)
    ensures var t := StepPieced(s, op);
            AllOk(t.a) && AllOk(t.b) && Bytes(t) == StepPlain(Bytes(s), op)
  {
    match op {
      case OpWrite(d) => WriteFlat(s.a, d);
      case OpPrepend(d) => PrependFlat(s.a, d);
      case OpReserve(n) => FlatOne(Chunk(n, []));
      case OpPeek(n, _) => PeekedExact(s.a, n);
      case OpMove(n) => FlatConcat(s.b, Take(s.a, n));
      case _ =>
    }
  }

  ghost predicate ValidRun(s: Pieced, ops: seq<Op>)
    requires AllOk(s.a) && AllOk(s.b)
    decreases |ops|
  {
    ops != [] ==>
      && Allowed(s, ops[0])
      && (StepRefines(s, ops[0]); ValidRun(StepPieced(s, ops[0]), ops[1..]))
  }

  ghost function RunPieced(s: Pieced, ops: seq<Op>): Pieced
    requires AllOk(s.a) && AllOk(s.b) && ValidRun(s, ops)
    decreases |ops|
  {
    if ops == [] then s
    else
      StepRefines(s, ops[0]);
      RunPieced(StepPieced(s, ops[0]), ops[1..])
  }

  function RunPlain(s: Plain, ops: seq<Op>): Plain
    decreases |ops|
  {
    if ops == [] then s else RunPlain(StepPlain(s, ops[0]), ops[1..])
  }

  /** Every run on pieces is the run on bytes: same contents, same results. */
  lemma {:induction false} RunRefines(s: Pieced, ops: seq<Op>)
    requires AllOk(s.a) && AllOk(s.b) && ValidRun(s, ops)
    ensures Bytes(RunPieced(s, ops)) == RunPlain(Bytes(s), ops)
    decreases |ops|
  {
    if ops != [] {
      StepRefines(s, ops[0]);
      RunRefines(StepPieced(s, ops[0]), ops[1..]);
    }
  }

  /** Runs the operations on two buffers in memory. */
  method Execute(a: Buffer, b: Buffer, ops: seq<Op>) returns (out: seq<seq<byte>>)
    requires a.Valid() && b.Valid() && a != b && a.queue != b.queue && a.queue.repr !! b.queue.repr
    requires AllOk(a.view) && AllOk(b.view) && ValidRun(Pieced(a.view, b.view, []), ops)
    modifies a, a.queue, a.queue.repr, b, b.queue, b.queue.repr
    ensures a.Valid() && b.Valid() && a.queue.repr !! b.queue.repr
    ensures Pieced(a.view, b.view, out) == RunPieced(Pieced(old(a.view), old(b.view), []), ops)
    ensures Plain(Flat(a.view), Flat(b.view), out) == RunPlain(Plain(Flat(old(a.view)), Flat(old(b.view)), []), ops)
  {
    hide *;
    out := [];
    ghost var s0 := Pieced(a.view, b.view, []);
    BytesOf(s0);
    RunRefines(s0, ops);
    var i: nat := 0;
    assert ops[0..] == ops;
    while i < |ops|
      invariant i <= |ops| && a.Valid() && b.Valid() && a.queue.repr !! b.queue.repr
      invariant fresh(a.queue.repr + b.queue.repr - old(a.queue.repr) - old(b.queue.repr))
      invariant AllOk(a.view) && AllOk(b.view)
      invariant ValidRun(Pieced(a.view, b.view, out), ops[i..])
      invariant RunPieced(Pieced(a.view, b.view, out), ops[i..]) == RunPieced(s0, ops)
    {
      RunStep(Pieced(a.view, b.view, out), ops[i..]);
      assert ops[i..][1..] == ops[i + 1..];
      out := Perform(a, b, ops[i], out);
      i := i + 1;
    }
    RunEnd(Pieced(a.view, b.view, out));
    assert ops[|ops|..] == [];
    BytesOf(Pieced(a.view, b.view, out));
  }

  lemma BytesOf(s: Pieced)
    ensures Bytes(s) == Plain(Flat(s.a), Flat(s.b), s.out)
  {
  }

  lemma RunStep(s: Pieced, ops: seq<Op>)
    requires AllOk(s.a) && AllOk(s.b) && ValidRun(s, ops) && ops != []
    ensures Allowed(s, ops[0])
    ensures var t := StepPieced(s, ops[0]);
            AllOk(t.a) && AllOk(t.b) && ValidRun(t, ops[1..]) && RunPieced(s, ops) == RunPieced(t, ops[1..])
  {
    StepRefines(s, ops[0]);
  }

  lemma RunEnd(s: Pieced)
    requires AllOk(s.a) && AllOk(s.b)
    ensures ValidRun(s, []) && RunPieced(s, []) == s
  {
  }

  /** One operation on two buffers in memory. */
  method Perform(a: Buffer, b: Buffer, op: Op, before: seq<seq<byte>>) returns (out: seq<seq<byte>>)
    requires a.Valid() && b.Valid() && a != b && a.queue != b.queue && a.queue.repr !! b.queue.repr
    requires AllOk(a.view) && AllOk(b.view) && Allowed(Pieced(a.view, b.view, before), op)
    modifies a, a.queue, a.queue.repr, b, b.queue, b.queue.repr
    ensures a.Valid() && b.Valid() && a.queue.repr !! b.queue.repr
    ensures fresh(a.queue.repr + b.queue.repr - old(a.queue.repr) - old(b.queue.repr))
    ensures Pieced(a.view, b.view, out) == StepPieced(Pieced(old(a.view), old(b.view), before), op)
  {
    hide *;
    StepCases(Pieced(a.view, b.view, before), op);
    a.ReadableFacts();
    b.ReadableFacts();
    out := before;
    match op {
      case OpWrite(d) => a.Write(d);
      case OpRead(n) =>
        var d := a.Read(n);
        out := out + [d];
      case OpSkip(n) => a.Skip(n);
      case OpPrepend(d) => a.Prepend(d);
      case OpReserve(n) => a.ReservedPrepend(n);
      case OpPeek(n, byBytes) =>
        if byBytes {
          var d := a.PeekByBytes(n);
          out := out + [d];
        } else {
          var r := a.Peek(n);
          out := out + [r.value];
        }
      case OpMove(n) => a.ReadInto(n, b);
      case OpSwap => a.Swap(b);
    }
    a.ReadableFacts();
  }

  lemma StepCases(s: Pieced, op: Op)
    requires AllOk(s.a) && AllOk(s.b) && Allowed(s, op)
    ensures match op
      case OpWrite(d) => StepPieced(s, op) == Pieced(Write(s.a, d), s.b, s.out)
      case OpRead(n) => 0 < n <= |Flat(s.a)| && s.a != []
                        && StepPieced(s, op) == Pieced(Drop(s.a, n), s.b, s.out + [Flat(s.a)[..n]])
      case OpSkip(n) => s.a != [] && n <= |Flat(s.a)| && StepPieced(s, op) == Pieced(Drop(s.a, n), s.b, s.out)
      case OpPrepend(d) => s.a != [] && |d| <= s.a[0].off
                           && StepPieced(s, op) == Pieced(SetFirst(s.a, s.a[0].Under(d)), s.b, s.out)
      case OpReserve(n) => s.a == [] && n < CAPACITY && StepPieced(s, op) == Pieced([Chunk(n, [])], s.b, s.out)
      case OpPeek(n, byBytes) =>
        && 0 < n <= |Flat(s.a)| && (!byBytes ==> FirstHolds(s.a, n) && Peeked(s.a, n).Some?)
        && StepPieced(s, op) == Pieced(s.a, s.b, s.out + [if byBytes then Flat(s.a)[..n] else Peeked(s.a, n).value])
      case OpMove(n) => 0 < n <= |Flat(s.a)| && s.a != []
                        && StepPieced(s, op) == Pieced(Drop(s.a, n), s.b + Take(s.a, n), s.out)
      case OpSwap => StepPieced(s, op) == Pieced(s.b, s.a, s.out)
  {
    if op.OpPeek? {
      PeekedExact(s.a, op.n);
    }
  }
}
