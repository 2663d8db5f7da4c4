/**
 Receiving frames in fragments: what the connection's callbacks make of a byte stream
 that arrives in arbitrary parts.
 */
module Receiving {
  import opened Common
  import opened Chunks
  import opened Frames

  // ---------------------------------------------------------------------
  // Receiving a frame in fragments
  // ---------------------------------------------------------------------

  /** Fragments as the socket delivers them: each fills part of one block. */
  ghost predicate ValidFragments(fragments: seq<seq<byte>>) {
    forall i | 0 <= i < |fragments| :: 0 < |fragments[i]| <= CAPACITY
  }

  function Concat(fragments: seq<seq<byte>>): seq<byte> {
    if fragments == [] then [] else fragments[0] + Concat(fragments[1..])
  }

  /** A fragment is appended as a piece and the message callback called.  Without a
      tail the append fails its assertion, or drops what the buffer held. */
  function Arrive(v: seq<Chunk>, tail: bool, d: seq<byte>, env: Env): Decoded {
    if tail then OnMessage(WithPiece(v, Chunk(0, d)), true, env) else Decoded(v, false, [Undefined])
  }

  /** Fragment after fragment, up to the first thing undefined. */
  function Receive(v: seq<Chunk>, tail: bool, fragments: seq<seq<byte>>, env: Env): Decoded
    decreases |fragments|
  {
    if fragments == [] then Decoded(v, tail, [])
    else
      var step := Arrive(v, tail, fragments[0], env);
      if Undefined in step.events then step
      else Then(step.events, Receive(step.view, step.tail, fragments[1..], env))
  }

  lemma ReceiveNone(v: seq<Chunk>, tail: bool, env: Env)
    ensures Receive(v, tail, [], env) == Decoded(v, tail, [])
  {
  }

  lemma ReceiveCons(v: seq<Chunk>, tail: bool, fragments: seq<seq<byte>>, env: Env)
    requires fragments != []
    ensures var step := Arrive(v, tail, fragments[0], env);
            Receive(v, tail, fragments, env)
            == if Undefined in step.events then step
               else Then(step.events, Receive(step.view, step.tail, fragments[1..], env))
  {
  }

  /** Receiving goes on where it stopped. */
  lemma {:induction false} ReceiveConcat(v: seq<Chunk>, tail: bool, a: seq<seq<byte>>, b: seq<seq<byte>>, env: Env)
    ensures var r := Receive(v, tail, a, env);
            Receive(v, tail, a + b, env)
            == if Undefined in r.events then r else Then(r.events, Receive(r.view, r.tail, b, env))
    decreases |a|
  {
    hide *;
    if a == [] {
      assert a + b == b;
      ReceiveNone(v, tail, env);
      ThenFacts([], [], Receive(v, tail, b, env));
    } else {
      ReceiveCons(v, tail, a, env);
      ReceiveCons(v, tail, a + b, env);
      assert (a + b)[0] == a[0] && (a + b)[1..] == a[1..] + b;
      var step := Arrive(v, tail, a[0], env);
      ReceiveConcat(step.view, step.tail, a[1..], b, env);
      var mid := Receive(step.view, step.tail, a[1..], env);
      ThenFacts(step.events, mid.events, Receive(mid.view, mid.tail, b, env));
      ThenFacts(step.events, [], mid);
    }
  }

  lemma RestTight(v: seq<Chunk>, n: nat)
    requires n <= |Flat(v)| && Tight(v)
    ensures Tight(Rest(v, n))
  {
    if v != [] {
      DropTight(v, n);
    }
  }

  lemma ParseTight(v: seq<Chunk>, len: int, tail: bool, env: Env)
    requires |Flat(v)| >= HEADER_LEN && Tight(v)
    ensures Tight(Parse(v, len, tail, env).view)
  {
    hide Tight, Drop, Flat, FromBigEndian, CString, Rest;
    RestTight(v, HEADER_LEN);
    var named, nameLen := Rest(v, HEADER_LEN), FromBigEndian(Flat(v)[..HEADER_LEN]);
    if 0 < nameLen <= |Flat(named)| {
      RestTight(named, nameLen);
      var body := Rest(named, nameLen);
      var d := Offered(env, Flat(body), len - HEADER_LEN - nameLen);
      RestTight(body, Used(env, CString(Flat(named)[..nameLen]), d));
    }
  }

  lemma {:induction false} OnMessageTight(v: seq<Chunk>, tail: bool, env: Env)
    requires Tight(v)
    ensures Tight(OnMessage(v, tail, env).view)
    decreases |Flat(v)|
  {
    hide *;
    Sizes();
    OnMessageCases(v, tail, env);
    if Whole(v, env) {
      var w, r := Rest(v, HEADER_LEN), Round(v, tail, env);
      RestTight(v, HEADER_LEN);
      ParseTight(w, FromBigEndian(Header(v, env).value), tail, env);
      OnMessageTight(r.view, r.tail, env);
      ThenFacts(r.events, [], OnMessage(r.view, r.tail, env));
    }
  }

  /** Over every run of reads, whatever is decoded in between, the pieces of the input
      buffer stay at least half full, but for two of them. */
  lemma {:induction false} InputStaysTight(v: seq<Chunk>, tail: bool, fragments: seq<seq<byte>>, env: Env)
    requires Tight(v)
    ensures var w := Receive(v, tail, fragments, env).view;
            Tight(w) && CAPACITY * (|w| - 2) <= 2 * |Flat(w)|
    decreases |fragments|
  {
    hide *;
    if fragments == [] {
      ReceiveNone(v, tail, env);
      TightBound(v);
    } else {
      ReceiveCons(v, tail, fragments, env);
      var step := Arrive(v, tail, fragments[0], env);
      ArriveTight(v, tail, fragments[0], env);
      TightBound(step.view);
      InputStaysTight(step.view, step.tail, fragments[1..], env);
      ThenFacts(step.events, [], Receive(step.view, step.tail, fragments[1..], env));
    }
  }

  lemma ArriveTight(v: seq<Chunk>, tail: bool, d: seq<byte>, env: Env)
    requires Tight(v)
    ensures Tight(Arrive(v, tail, d, env).view)
  {
    WithPieceTight(v, Chunk(0, d));
    OnMessageTight(WithPiece(v, Chunk(0, d)), true, env);
  }

  /** Some fragment arrives behind one to three bytes and does not fit their block, so
      that the length field straddles two pieces. */
  ghost predicate Straddles(received: nat, fragments: seq<seq<byte>>)
    decreases |fragments|
  {
    fragments != [] &&
    ((0 < received < HEADER_LEN && received + |fragments[0]| > CAPACITY)
     || Straddles(received + |fragments[0]|, fragments[1..]))
  }

  /** The peek at the length field of a frame in these fragments is undefined. */
  ghost predicate Fails(received: nat, fragments: seq<seq<byte>>, env: Env) {
    !env.byteOffsets && Straddles(received, fragments)
  }

  /** A buffer that is waiting for the rest of a frame. */
  ghost predicate Waiting(v: seq<Chunk>, env: Env) {
    AllOk(v) && Dense(v) && (!env.byteOffsets && |v| > 1 ==> |v[0].bytes| >= HEADER_LEN)
  }

  lemma WaitingPeek(v: seq<Chunk>, env: Env)
    requires Waiting(v, env) && |Flat(v)| >= HEADER_LEN
    ensures env.byteOffsets || FirstHolds(v, HEADER_LEN)
  {
    if !env.byteOffsets {
      if |v| == 1 {
        FlatOne(v[0]);
        assert v == [v[0]];
      }
      assert |v[0].bytes| >= HEADER_LEN;
    }
  }

  /** The next fragment is the one that straddles. */
  ghost predicate Breaks(received: nat, d: seq<byte>, env: Env) {
    !env.byteOffsets && 0 < received < HEADER_LEN && received + |d| > CAPACITY
  }

  /** Appending a fragment keeps the length field together, or is the straddling case. */
  lemma AppendFragment(v: seq<Chunk>, d: seq<byte>, env: Env)
    requires Waiting(v, env) && 0 < |d| <= CAPACITY
    ensures var w := WithPiece(v, Chunk(0, d));
            && Flat(w) == Flat(v) + d && AllOk(w) && Dense(w)
            && if Breaks(|Flat(v)|, d, env)
               then |Flat(w)| >= MIN_MESSAGE_LEN + HEADER_LEN && Header(w, env) == None
               else Waiting(w, env)
  {
    WithPieceFlat(v, Chunk(0, d));
    FlatNotEmpty(v);
    if |v| == 1 {
      FlatOne(v[0]);
      assert v == [v[0]];
    } else if |v| > 1 {
      FlatHead(v);
    }
  }

  /** A fragment that straddles ends in an undefined peek. */
  lemma ArriveBroken(v: seq<Chunk>, d: seq<byte>, env: Env)
    requires Waiting(v, env) && 0 < |d| <= CAPACITY && Breaks(|Flat(v)|, d, env)
    ensures Arrive(v, true, d, env).events == [Undefined]
  {
    AppendFragment(v, d, env);
  }

  /** What receiving part of a frame in fragments comes to: nothing before the last byte,
      then the message and an empty buffer; or an undefined peek. */
  ghost predicate OutcomeOk(m: Message, received: seq<byte>, fragments: seq<seq<byte>>, env: Env, r: Decoded) {
    if Fails(|received|, fragments, env) then r.events == [Undefined]
    else if received + Concat(fragments) == Frame(m) then r == Decoded([], true, [Deliver(m)])
    else r.events == [] && r.tail && Flat(r.view) == received + Concat(fragments) && Waiting(r.view, env)
  }

  lemma OutcomeOfNone(m: Message, v: seq<Chunk>, env: Env)
    requires Waiting(v, env) && |Flat(v)| < |Frame(m)|
    ensures OutcomeOk(m, Flat(v), [], env, Receive(v, true, [], env))
  {
    assert Flat(v) + Concat([]) == Flat(v);
  }

  lemma OutcomeBehind(m: Message, received: seq<byte>, fragments: seq<seq<byte>>, env: Env, r: Decoded)
    requires fragments != [] && OutcomeOk(m, received + fragments[0], fragments[1..], env, r)
    requires !Breaks(|received|, fragments[0], env)
    ensures OutcomeOk(m, received, fragments, env, r)
  {
    assert (received + fragments[0]) + Concat(fragments[1..]) == received + Concat(fragments);
  }

  lemma OutcomeUndefined(m: Message, v: seq<Chunk>, fragments: seq<seq<byte>>, env: Env)
    requires Waiting(v, env) && fragments != [] && 0 < |fragments[0]| <= CAPACITY
    requires Breaks(|Flat(v)|, fragments[0], env)
    ensures OutcomeOk(m, Flat(v), fragments, env, Receive(v, true, fragments, env))
  {
    ArriveBroken(v, fragments[0], env);
  }

  lemma {:induction false} ReceivePart(m: Message, v: seq<Chunk>, fragments: seq<seq<byte>>, env: Env)
    requires Receivable(m, env) && Waiting(v, env) && ValidFragments(fragments)
    requires Flat(v) + Concat(fragments) <= Frame(m) && |Flat(v)| < |Frame(m)|
    ensures OutcomeOk(m, Flat(v), fragments, env, Receive(v, true, fragments, env))
    decreases |fragments|
  {
    hide *;
    if fragments == [] {
      OutcomeOfNone(m, v, env);
    } else {
      FragmentsFacts(fragments);
      var d, rest := fragments[0], fragments[1..];
      if Breaks(|Flat(v)|, d, env) {
        OutcomeUndefined(m, v, fragments, env);
      } else {
        var w := WithPiece(v, Chunk(0, d));
        AppendFragment(v, d, env);
        assert Flat(w) + Concat(rest) == Flat(v) + Concat(fragments);
        if |Flat(w)| < |Frame(m)| {
          ReceiveWaiting(m, v, fragments, env);
          ReceivePart(m, w, rest, env);
          OutcomeBehind(m, Flat(v), fragments, env, Receive(v, true, fragments, env));
        } else {
          ReceiveComplete(m, v, fragments, env);
          assert rest == [];
          OutcomeOfAll(m, env);
          OutcomeBehind(m, Flat(v), fragments, env, Receive(v, true, fragments, env));
        }
      }
    }
  }

  lemma FragmentsFacts(fragments: seq<seq<byte>>)
    requires ValidFragments(fragments) && fragments != []
    ensures 0 < |fragments[0]| <= CAPACITY && ValidFragments(fragments[1..])
    ensures Concat(fragments) == fragments[0] + Concat(fragments[1..])
  {
  }

  lemma OutcomeOfAll(m: Message, env: Env)
    ensures OutcomeOk(m, Frame(m), [], env, Decoded([], true, [Deliver(m)]))
  {
    assert Frame(m) + Concat([]) == Frame(m);
  }

  /** A fragment that does not complete the frame is only stored. */
  lemma ReceiveWaiting(m: Message, v: seq<Chunk>, fragments: seq<seq<byte>>, env: Env)
    requires Receivable(m, env) && fragments != []
    requires var w := WithPiece(v, Chunk(0, fragments[0]));
             Waiting(w, env) && Flat(w) < Frame(m)
    ensures Receive(v, true, fragments, env)
            == Receive(WithPiece(v, Chunk(0, fragments[0])), true, fragments[1..], env)
  {
    var w := WithPiece(v, Chunk(0, fragments[0]));
    if |Flat(w)| >= HEADER_LEN {
      WaitingPeek(w, env);
    }
    WaitForFrame(m, w, true, env);
    ThenFacts([], [], Receive(w, true, fragments[1..], env));
  }

  lemma ConcatNotEmpty(fragments: seq<seq<byte>>)
    requires ValidFragments(fragments)
    ensures fragments != [] ==> |Concat(fragments)| > 0
  {
  }

  /** The fragment that completes the frame is the last one and delivers the message. */
  lemma ReceiveComplete(m: Message, v: seq<Chunk>, fragments: seq<seq<byte>>, env: Env)
    requires Receivable(m, env) && fragments != [] && ValidFragments(fragments)
    requires var w := WithPiece(v, Chunk(0, fragments[0]));
             Waiting(w, env) && Flat(w) + Concat(fragments[1..]) <= Frame(m) && |Flat(w)| >= |Frame(m)|
    ensures |fragments| == 1 && Receive(v, true, fragments, env) == Decoded([], true, [Deliver(m)])
    ensures Flat(WithPiece(v, Chunk(0, fragments[0]))) == Frame(m)
  {
    var w, rest := WithPiece(v, Chunk(0, fragments[0])), fragments[1..];
    ConcatNotEmpty(rest);
    assert Flat(w) == Frame(m);
    WaitingPeek(w, env);
    DecodeLast(m, w, true, env);
  }

  /** The round trip: whatever the fragments, the receiver gets exactly the message,
      with the last fragment, if and only if `peek` goes by bytes or no fragment straddles
      the length field. */
  lemma FrameRoundTrip(m: Message, fragments: seq<seq<byte>>, env: Env)
    requires Receivable(m, env) && ValidFragments(fragments) && Concat(fragments) == Frame(m)
    ensures Receive([], true, fragments, env) == Decoded([], true, [Deliver(m)])
            <==> env.byteOffsets || !Straddles(0, fragments)
    ensures Fails(0, fragments, env) ==> Receive([], true, fragments, env).events == [Undefined]
    ensures !Fails(0, fragments, env) ==>
              forall k | 0 <= k < |fragments| :: Receive([], true, fragments[..k], env).events == []
  {
    hide *;
    FailsFacts(0, fragments, env);
    ReceiveFromEmpty(m, fragments, env);
    if !Fails(0, fragments, env) {
      forall k | 0 <= k < |fragments|
        ensures Receive([], true, fragments[..k], env).events == []
      {
        ConcatPrefix(fragments, k);
        ReceiveFromEmpty(m, fragments[..k], env);
        FailsFacts(0, fragments[..k], env);
        if Straddles(0, fragments[..k]) {
          StraddlesPrefix(0, fragments, k);
        }
      }
    }
  }

  lemma FailsFacts(received: nat, fragments: seq<seq<byte>>, env: Env)
    ensures Fails(received, fragments, env) <==> !env.byteOffsets && Straddles(received, fragments)
  {
  }

  lemma ReceiveFromEmpty(m: Message, fragments: seq<seq<byte>>, env: Env)
    requires Receivable(m, env) && ValidFragments(fragments) && Concat(fragments) <= Frame(m)
    ensures var r := Receive([], true, fragments, env);
            if Fails(0, fragments, env) then r.events == [Undefined]
            else if Concat(fragments) == Frame(m) then r == Decoded([], true, [Deliver(m)])
            else r.events == [] && r.tail && Flat(r.view) == Concat(fragments) && Waiting(r.view, env)
  {
    assert [] + Concat(fragments) == Concat(fragments);
    ReceivePart(m, [], fragments, env);
  }

  lemma {:induction false} ConcatPrefix(fragments: seq<seq<byte>>, k: nat)
    requires k < |fragments| && ValidFragments(fragments)
    ensures Concat(fragments[..k]) < Concat(fragments) && ValidFragments(fragments[..k])
  {
    if k > 0 {
      ConcatPrefix(fragments[1..], k - 1);
      assert fragments[..k][1..] == fragments[1..][..k - 1];
    }
  }

  lemma {:induction false} StraddlesPrefix(received: nat, fragments: seq<seq<byte>>, k: nat)
    requires k <= |fragments| && Straddles(received, fragments[..k])
    ensures Straddles(received, fragments)
    decreases k
  {
    if k > 0 && Straddles(received + |fragments[0]|, fragments[..k][1..]) {
      assert fragments[..k][1..] == fragments[1..][..k - 1];
      StraddlesPrefix(received + |fragments[0]|, fragments[1..], k - 1);
    }
  }

  /** A frame of one block never straddles: it round-trips in any fragments. */
  lemma {:induction false} SmallFramesNeverStraddle(received: nat, fragments: seq<seq<byte>>)
    requires received + |Concat(fragments)| <= CAPACITY
    ensures !Straddles(received, fragments)
    decreases |fragments|
  {
    if fragments != [] {
      SmallFramesNeverStraddle(received + |fragments[0]|, fragments[1..]);
    }
  }

  // ---------------------------------------------------------------------
  // Several messages on one stream
  // ---------------------------------------------------------------------

  function FramesOf(ms: seq<Message>): seq<byte> {
    if ms == [] then [] else Frame(ms[0]) + FramesOf(ms[1..])
  }

  function Deliveries(ms: seq<Message>): seq<Event> {
    if ms == [] then [] else [Deliver(ms[0])] + Deliveries(ms[1..])
  }

  /** How many fragments it takes to get n bytes. */
  function Reach(n: nat, fragments: seq<seq<byte>>): (k: nat)
    ensures k <= |fragments|
    decreases |fragments|
  {
    if n == 0 || fragments == [] then 0
    else 1 + Reach(if |fragments[0]| < n then n - |fragments[0]| else 0, fragments[1..])
  }

  /** Every frame ends where a fragment ends, and none is straddled. */
  ghost predicate InStep(ms: seq<Message>, fragments: seq<seq<byte>>, env: Env)
    decreases |ms|
  {
    if ms == [] then fragments == []
    else
      var k := Reach(|Frame(ms[0])|, fragments);
      Concat(fragments[..k]) == Frame(ms[0]) && !Fails(0, fragments[..k], env) && InStep(ms[1..], fragments[k..], env)
  }

  /** What messages of generated types under 16 megabytes are like: their parser ends at a
      zero tag, their length begins with a zero byte, and no type is called like theirs
      without the first character. */
  ghost predicate Ordinary(m: Message, env: Env) {
    && Receivable(m, env) && StopsAtZeroTag(m, env) && FrameLen(m) < 0x100_0000
    && m.name != [] && m.name[1..] !in env.registry
  }

  lemma {:induction false} ConcatSplit(fragments: seq<seq<byte>>, k: nat)
    requires k <= |fragments|
    ensures Concat(fragments) == Concat(fragments[..k]) + Concat(fragments[k..])
    ensures ValidFragments(fragments) ==> ValidFragments(fragments[..k]) && ValidFragments(fragments[k..])
  {
    ConcatJoin(fragments[..k], fragments[k..]);
    assert fragments == fragments[..k] + fragments[k..];
  }

  lemma {:induction false} ConcatJoin(a: seq<seq<byte>>, b: seq<seq<byte>>)
    ensures Concat(a + b) == Concat(a) + Concat(b)
  {
    if a == [] {
      assert a + b == b;
    } else {
      assert (a + b)[0] == a[0] && (a + b)[1..] == a[1..] + b;
      ConcatJoin(a[1..], b);
    }
  }

  /** The last fragment that is needed is needed. */
  lemma {:induction false} ReachExact(n: nat, fragments: seq<seq<byte>>)
    requires 0 < n <= |Concat(fragments)|
    ensures var k := Reach(n, fragments);
            && 0 < k <= |fragments| && |Concat(fragments[..k - 1])| < n <= |Concat(fragments[..k])|
            && Concat(fragments[..k]) == Concat(fragments[..k - 1]) + fragments[k - 1]
    decreases |fragments|
  {
    var k := Reach(n, fragments);
    var f := fragments[0];
    if |f| < n {
      ReachExact(n - |f|, fragments[1..]);
      assert fragments[..k][1..] == fragments[1..][..k - 1] && fragments[..k - 1][1..] == fragments[1..][..k - 2];
      assert f + (Concat(fragments[1..][..k - 2]) + fragments[k - 1]) == (f + Concat(fragments[1..][..k - 2])) + fragments[k - 1];
    } else {
      assert k == 1 && fragments[..1] == [f] && fragments[..1][1..] == fragments[..0] == [];
      assert f + [] == f && [] + f == f;
    }
  }

  /** Nothing, or something other than a message first. */
  predicate NoMessage(events: seq<Event>) {
    events == [] || !events[0].Deliver?
  }

  /** A frame without its first byte, with anything behind it, gives no message. */
  lemma OutOfStep(m: Message, v: seq<Chunk>, tail: bool, behind: seq<byte>, env: Env)
    requires Ordinary(m, env) && Dense(v) && Flat(v) <= (Frame(m) + behind)[1..]
    ensures var r := OnMessage(v, tail, env);
            r == Decoded(v, tail, []) || (r.events != [] && !r.events[0].Deliver?)
  {
    hide *;
    Sizes();
    OnMessageCases(v, tail, env);
    if Whole(v, env) {
      HeaderExact(v, env);
      OrdinaryFacts(m, env);
      ShiftedName(m, behind);
      WrongName(m, Rest(v, HEADER_LEN), FromBigEndian(Header(v, env).value), tail, behind, env);
    } else {
      UnparsedCases(v, env);
    }
  }

  lemma OrdinaryFacts(m: Message, env: Env)
    requires Ordinary(m, env)
    ensures Receivable(m, env) && StopsAtZeroTag(m, env) && MIN_MESSAGE_LEN <= FrameLen(m) < 0x100_0000
    ensures |m.name| + 1 < FrameLen(m) && 0 !in m.name && m.name != [] && m.name[1..] !in env.registry
    ensures |Frame(m)| == HEADER_LEN + FrameLen(m) && Frame(m)[0] == 0
  {
    FirstByte(FrameLen(m));
    FrameShifted(m);
  }

  lemma UnparsedCases(v: seq<Chunk>, env: Env)
    ensures Unparsed(v, env) == [] || Unparsed(v, env) == [Undefined] || Unparsed(v, env) == [Error(InvalidLength)]
  {
  }

  /** What stands in the place of the name length and the name. */
  lemma ShiftedName(m: Message, behind: seq<byte>)
    requires m.name != []
    ensures |Frame(m)| > 2 * HEADER_LEN + 1
    ensures var d := (Frame(m) + behind)[1..][HEADER_LEN..];
            && |d| > HEADER_LEN && d[..HEADER_LEN] == BigEndian(|m.name| + 1)[1..] + [m.name[0]]
            && d[HEADER_LEN..] == m.name[1..] + [0] + (m.body + behind)
  {
    hide BigEndian;
    var a, b, c := BigEndian(FrameLen(m)), BigEndian(|m.name| + 1), m.body + behind;
    assert m.name == [m.name[0]] + m.name[1..];
    assert Frame(m) + behind == a + (b + (m.name + [0] + c));
    assert (Frame(m) + behind)[1..][HEADER_LEN..] == b[1..] + [m.name[0]] + (m.name[1..] + [0] + c);
  }

  lemma WrongName(m: Message, v: seq<Chunk>, len: int, tail: bool, behind: seq<byte>, env: Env)
    requires m.name != [] && 0 !in m.name && m.name[1..] !in env.registry && |m.name| + 1 < 0x100_0000
    requires |Flat(v)| >= HEADER_LEN && Flat(v) <= BigEndian(|m.name| + 1)[1..] + [m.name[0]] + (m.name[1..] + [0] + (m.body + behind))
    ensures Parse(v, len, tail, env).events[0].Error?
  {
    hide Flat, Drop, Dense, AllOk, BigEndian, FromBigEndian, Used, Offered, TailAfter, CString;
    var d := BigEndian(|m.name| + 1)[1..] + [m.name[0]];
    var s := m.name[1..] + [0] + (m.body + behind);
    assert Flat(v)[..HEADER_LEN] == d;
    ShiftedBytes(|m.name| + 1, m.name[0]);
    var nameLen := FromBigEndian(d);
    var named := Flat(v)[HEADER_LEN..];
    assert named <= s;
    if 0 < nameLen <= |named| {
      var x := named[|m.name|..nameLen];
      assert named[..nameLen] == s[..nameLen] == m.name[1..] + [0] + x;
      CStringOf(m.name[1..], x);
    }
  }

  /** Once out of step, no fragment brings a message before something else. */
  lemma {:induction false} ReceiveOutOfStep(m: Message, v: seq<Chunk>, tail: bool, behind: seq<byte>,
                                            fragments: seq<seq<byte>>, env: Env)
    requires Ordinary(m, env) && AllOk(v) && Dense(v) && ValidFragments(fragments)
    requires Flat(v) + Concat(fragments) <= (Frame(m) + behind)[1..]
    ensures NoMessage(Receive(v, tail, fragments, env).events)
    decreases |fragments|
  {
    hide *;
    NoMessageFacts();
    if fragments == [] {
      ReceiveNone(v, tail, env);
    } else {
      ReceiveCons(v, tail, fragments, env);
      FragmentsFacts(fragments);
      ArriveOutOfStep(m, v, tail, behind, fragments[0], env);
      var d := fragments[0];
      var w := WithPiece(v, Chunk(0, d));
      var step := Arrive(v, tail, d, env);
      ThenFacts(step.events, [], Receive(step.view, step.tail, fragments[1..], env));
      if step.events == [] {
        assert Flat(w) + Concat(fragments[1..]) == Flat(v) + Concat(fragments);
        ReceiveOutOfStep(m, w, true, behind, fragments[1..], env);
      }
    }
  }

  lemma NoMessageFacts()
    ensures forall events: seq<Event> {:trigger NoMessage(events)} :: NoMessage(events) <==> events == [] || !events[0].Deliver?
  {
  }

  lemma ArriveOutOfStep(m: Message, v: seq<Chunk>, tail: bool, behind: seq<byte>, d: seq<byte>, env: Env)
    requires Ordinary(m, env) && AllOk(v) && Dense(v) && 0 < |d| <= CAPACITY
    requires Flat(v) + d <= (Frame(m) + behind)[1..]
    ensures var w := WithPiece(v, Chunk(0, d));
            var r := Arrive(v, tail, d, env);
            && Flat(w) == Flat(v) + d && AllOk(w) && Dense(w)
            && (r == Decoded(w, true, []) || (r.events != [] && !r.events[0].Deliver?))
  {
    WithPieceFlat(v, Chunk(0, d));
    if tail {
      OutOfStep(m, WithPiece(v, Chunk(0, d)), true, behind, env);
    }
  }

  /** A fragment that brings the end of a frame and more delivers that message and puts
      the receiver out of step. */
  lemma ArriveBeyond(m: Message, next: Message, v: seq<Chunk>, d: seq<byte>, x: seq<byte>, behind: seq<byte>, env: Env)
    requires Ordinary(m, env) && Ordinary(next, env) && !env.limited && Waiting(v, env) && 0 < |d| <= CAPACITY
    requires !Breaks(|Flat(v)|, d, env) && Flat(v) + d == Frame(m) + x && x != [] && x <= Frame(next) + behind
    ensures var r := Arrive(v, true, d, env);
            && r.events != [] && r.events[0] == Deliver(m) && NoMessage(r.events[1..])
            && (r.events == [Deliver(m)] ==> AllOk(r.view) && Dense(r.view) && Flat(r.view) == x[1..])
  {
    hide *;
    Sizes();
    NoMessageFacts();
    OrdinaryFacts(m, env);
    OrdinaryFacts(next, env);
    AppendFragment(v, d, env);
    var w := WithPiece(v, Chunk(0, d));
    WaitingPeek(w, env);
    assert x == [0] + x[1..] && x[1..] <= (Frame(next) + behind)[1..];
    DecodeBeforeZero(m, w, true, x[1..], env);
    var rest, tail := Rest(w, |Flat(w)| - (|x| - 1)), TailAfter(w, |x| - 1, true, env);
    OutOfStep(next, rest, tail, behind, env);
    ThenFacts([Deliver(m)], [], OnMessage(rest, tail, env));
    ArriveIs(v, d, env);
  }

  lemma ArriveIs(v: seq<Chunk>, d: seq<byte>, env: Env)
    ensures Arrive(v, true, d, env) == OnMessage(WithPiece(v, Chunk(0, d)), true, env)
  {
  }

  /** The frames of any messages, in step with the fragments, are delivered in order,
      each once. */
  lemma {:induction false} InStepDelivers(ms: seq<Message>, fragments: seq<seq<byte>>, env: Env)
    requires forall i | 0 <= i < |ms| :: Receivable(ms[i], env)
    requires ValidFragments(fragments) && InStep(ms, fragments, env)
    ensures Receive([], true, fragments, env) == Decoded([], true, Deliveries(ms))
    decreases |ms|
  {
    hide *;
    if ms == [] {
      NothingInStep(fragments, env);
    } else {
      var k := Reach(|Frame(ms[0])|, fragments);
      InStepCases(ms, fragments, env);
      ConcatSplit(fragments, k);
      ReceiveFromEmpty(ms[0], fragments[..k], env);
      InStepDelivers(ms[1..], fragments[k..], env);
      ReceiveConcat([], true, fragments[..k], fragments[k..], env);
      assert fragments == fragments[..k] + fragments[k..];
      ThenFacts([Deliver(ms[0])], [], Receive([], true, fragments[k..], env));
      DeliveriesCons(ms);
    }
  }

  lemma NothingInStep(fragments: seq<seq<byte>>, env: Env)
    requires InStep([], fragments, env)
    ensures Receive([], true, fragments, env) == Decoded([], true, Deliveries([]))
  {
  }

  lemma DeliveriesCons(ms: seq<Message>)
    requires ms != []
    ensures Deliveries(ms) == [Deliver(ms[0])] + Deliveries(ms[1..])
  {
  }

  /** Several messages on one stream, as `parse` is written: exactly they are delivered if and only if every frame
      ends where a fragment ends and `peek` does not fail.  A fragment with bytes of two
      frames loses all messages but the first of them. */
  lemma {:induction false} MessagesRoundTrip(ms: seq<Message>, fragments: seq<seq<byte>>, env: Env)
    requires !env.limited && forall i | 0 <= i < |ms| :: Ordinary(ms[i], env)
    requires ValidFragments(fragments) && Concat(fragments) == FramesOf(ms)
    ensures Receive([], true, fragments, env).events == Deliveries(ms) <==> InStep(ms, fragments, env)
    decreases |ms|
  {
    hide *;
    if ms == [] {
      NoFragments(fragments, env);
    } else {
      MessagesFacts(ms, env);
      var m, n, later := ms[0], |Frame(ms[0])|, ms[1..];
      OrdinaryFacts(m, env);
      ReachExact(n, fragments);
      var k := Reach(n, fragments);
      ConcatSplit(fragments, k);
      InStepCases(ms, fragments, env);
      ReceiveConcat([], true, fragments[..k], fragments[k..], env);
      assert fragments == fragments[..k] + fragments[k..];
      if |Concat(fragments[..k])| == n {
        assert Concat(fragments[..k]) == (Frame(m) + FramesOf(later))[..n] == Frame(m);
        assert Concat(fragments[k..]) == (Frame(m) + FramesOf(later))[n..] == FramesOf(later);
        FirstInStep(ms, fragments[..k], fragments[k..], env);
        MessagesRoundTrip(later, fragments[k..], env);
      } else {
        FirstBeyond(ms, fragments, k, env);
      }
    }
  }

  lemma NoFragments(fragments: seq<seq<byte>>, env: Env)
    requires ValidFragments(fragments) && Concat(fragments) == FramesOf([])
    ensures fragments == [] && InStep([], fragments, env) && Receive([], true, fragments, env).events == Deliveries([])
  {
    ConcatNotEmpty(fragments);
  }

  lemma MessagesFacts(ms: seq<Message>, env: Env)
    requires ms != [] && forall i | 0 <= i < |ms| :: Ordinary(ms[i], env)
    ensures Ordinary(ms[0], env) && forall i | 0 <= i < |ms[1..]| :: Ordinary(ms[1..][i], env)
    ensures FramesOf(ms) == Frame(ms[0]) + FramesOf(ms[1..]) && |FramesOf(ms)| >= |Frame(ms[0])| > 0
    ensures Deliveries(ms) == [Deliver(ms[0])] + Deliveries(ms[1..])
    ensures ms[1..] == [] ==> FramesOf(ms[1..]) == []
  {
  }

  lemma InStepCases(ms: seq<Message>, fragments: seq<seq<byte>>, env: Env)
    requires ms != []
    ensures var k := Reach(|Frame(ms[0])|, fragments);
            InStep(ms, fragments, env) <==> Concat(fragments[..k]) == Frame(ms[0]) && !Fails(0, fragments[..k], env)
                                            && InStep(ms[1..], fragments[k..], env)
  {
  }

  /** The first frame has fragments of its own. */
  lemma FirstInStep(ms: seq<Message>, a: seq<seq<byte>>, b: seq<seq<byte>>, env: Env)
    requires ms != [] && Receivable(ms[0], env) && ValidFragments(a) && Concat(a) == Frame(ms[0])
    ensures var r, s := Receive([], true, a, env), Receive([], true, b, env);
            (if Undefined in r.events then r else Then(r.events, Receive(r.view, r.tail, b, env))).events == Deliveries(ms)
            <==> !Fails(0, a, env) && s.events == Deliveries(ms[1..])
  {
    ReceiveFromEmpty(ms[0], a, env);
    var s := Receive([], true, b, env);
    assert ([Deliver(ms[0])] + s.events)[1..] == s.events;
    assert Deliveries(ms)[0] == Deliver(ms[0]) && Deliveries(ms)[1..] == Deliveries(ms[1..]);
  }

  /** The fragment that completes the first frame brings some of the next one. */
  lemma FirstBeyond(ms: seq<Message>, fragments: seq<seq<byte>>, k: nat, env: Env)
    requires ms != [] && !env.limited && forall i | 0 <= i < |ms| :: Ordinary(ms[i], env)
    requires ValidFragments(fragments) && Concat(fragments) == FramesOf(ms) && 0 < k <= |fragments|
    requires |Concat(fragments[..k - 1])| < |Frame(ms[0])| < |Concat(fragments[..k])|
    requires Concat(fragments[..k]) == Concat(fragments[..k - 1]) + fragments[k - 1]
    ensures Receive([], true, fragments, env).events != Deliveries(ms)
  {
    hide *;
    MessagesFacts(ms, env);
    OrdinaryFacts(ms[0], env);
    var m, n, a, d, b := ms[0], |Frame(ms[0])|, fragments[..k - 1], fragments[k - 1], fragments[k..];
    ConcatSplit(fragments, k);
    ConcatSplit(fragments, k - 1);
    assert fragments[k - 1..][1..] == b;
    FragmentsFacts(fragments[k - 1..]);
    var all := Frame(m) + FramesOf(ms[1..]);
    assert Concat(a) + d + Concat(b) == all;
    assert Concat(a) == all[..|Concat(a)|] == Frame(m)[..|Concat(a)|];
    assert ms[1..] != [];
    MessagesFacts(ms[1..], env);
    var x := (Concat(a) + d)[n..];
    assert Concat(a) + d == Frame(m) + x by {
      assert (Concat(a) + d)[..n] == all[..n] == Frame(m);
    }
    assert x + Concat(b) == all[n..] == FramesOf(ms[1..]);
    ReceiveFromEmpty(m, a, env);
    ReceiveConcat([], true, a, [d] + b, env);
    assert fragments == a + ([d] + b);
    var r := Receive([], true, a, env);
    if Undefined in r.events {
    } else {
      ThenFacts([], [], Receive(r.view, r.tail, [d] + b, env));
      ReceiveBeyond(m, ms[1], r.view, d, x, FramesOf(ms[2..]), b, env);
      assert ms[1..][1..] == ms[2..];
      DeliveriesTwo(ms);
    }
  }

  lemma DeliveriesTwo(ms: seq<Message>)
    requires |ms| > 1
    ensures |Deliveries(ms)| > 1 && Deliveries(ms)[1].Deliver?
  {
    assert Deliveries(ms) == [Deliver(ms[0])] + Deliveries(ms[1..]);
    assert Deliveries(ms[1..]) == [Deliver(ms[1])] + Deliveries(ms[1..][1..]);
  }

  lemma ReceiveBeyond(m: Message, next: Message, v: seq<Chunk>, d: seq<byte>, x: seq<byte>, behind: seq<byte>,
                      b: seq<seq<byte>>, env: Env)
    requires Ordinary(m, env) && Ordinary(next, env) && !env.limited && Waiting(v, env)
    requires 0 < |d| <= CAPACITY && ValidFragments(b)
    requires Flat(v) + d == Frame(m) + x && x != [] && x + Concat(b) == Frame(next) + behind
    ensures var events := Receive(v, true, [d] + b, env).events;
            |events| <= 1 || !events[1].Deliver?
  {
    hide *;
    NoMessageFacts();
    ReceiveCons(v, true, [d] + b, env);
    assert ([d] + b)[1..] == b;
    var step := Arrive(v, true, d, env);
    if Breaks(|Flat(v)|, d, env) {
      ArriveBroken(v, d, env);
    } else {
      ArriveBeyond(m, next, v, d, x, behind, env);
      if step.events == [Deliver(m)] {
        assert x[1..] + Concat(b) == (x + Concat(b))[1..];
        ReceiveOutOfStep(next, step.view, step.tail, behind, b, env);
      }
      ThenFacts(step.events, [], Receive(step.view, step.tail, b, env));
    }
  }

  /** A message whose frame is lost to a straddled length field: its first byte arrives
      alone, and the other 4096 fill a block of their own. */
  lemma StraddlingExample(env: Env)
    requires !env.byteOffsets && [65] in env.registry
    requires forall d: seq<byte> :: env.parse([65], d) == Parsed(d, |d|)
    ensures var m := Message([65], seq(4087, _ => 1));
            var fragments := [Frame(m)[..1], Frame(m)[1..]];
            && Receivable(m, env) && ValidFragments(fragments) && Concat(fragments) == Frame(m)
            && Straddles(0, fragments) && Receive([], true, fragments, env).events == [Undefined]
  {
    var m := Message([65], seq(4087, _ => 1));
    var a, b := Frame(m)[..1], Frame(m)[1..];
    var fragments: seq<seq<byte>> := [a, b];
    assert FrameLen(m) == 4093 && |Frame(m)| == 4097;
    assert fragments[1..] == [b] && |fragments[1..][1..]| == 0;
    assert Concat(fragments[1..]) == b + [] == b;
    assert Concat(fragments) == a + b == Frame(m);
    assert Straddles(1, fragments[1..]);
    FrameRoundTrip(m, fragments, env);
  }

  /** A receiver with one type, of fields without zero bytes. */
  function ExampleEnv(): Env {
    Env({[65]}, (name, d) => Parsed(CString(d), if |CString(d)| < |d| then |CString(d)| + 1 else |d|),
        false, false, false)
  }

  lemma {:induction false} CStringWhole(s: seq<byte>)
    requires 0 !in s
    ensures CString(s) == s
  {
    if s != [] {
      CStringWhole(s[1..]);
    }
  }

  lemma ExampleIsOrdinary(m: Message)
    requires m == Message([65], [1, 1, 1, 1])
    ensures Ordinary(m, ExampleEnv())
  {
    CStringWhole(m.body);
    forall x: seq<byte>
      ensures ExampleEnv().parse(m.name, m.body + ([0] + x)) == Parsed(m.body, |m.body| + 1)
    {
      CStringOf(m.body, x);
      assert m.body + ([0] + x) == m.body + [0] + x;
    }
    assert m.name[1..] == [];
  }

  /** Two frames in one fragment: the second message is lost, and so is the tail. */
  lemma SharedFragmentExample()
    ensures var m := Message([65], [1, 1, 1, 1]);
            var r := Receive([], true, [Frame(m) + Frame(m)], ExampleEnv());
            Ordinary(m, ExampleEnv()) && r.events == [Deliver(m)] && Flat(r.view) == Frame(m)[1..] && !r.tail
  {
    var m, env := Message([65], [1, 1, 1, 1]), ExampleEnv();
    ExampleIsOrdinary(m);
    var d := Frame(m) + Frame(m);
    var fragments: seq<seq<byte>> := [d];
    var v := [Chunk(0, d)];
    assert FrameLen(m) == 10 && |d| == 28 && WithPiece([], Chunk(0, d)) == v;
    FlatOne(v[0]);
    assert |v[0].bytes| >= HEADER_LEN;
    FrameAndNext(m, m, v, true, Frame(m), env);
    var r := OnMessage(v, true, env);
    assert Arrive([], true, d, env) == r && fragments[1..] == [];
    ReceiveNone(r.view, r.tail, env);
    assert r.events + [] == r.events;
  }

  // ---------------------------------------------------------------------
  // The stream as intended
  // ---------------------------------------------------------------------

  /** The three parts of the code that fail are as intended. */
  predicate AsIntended(env: Env) {
    env.byteOffsets && env.limited && env.restoresTail
  }

  /** How many of the messages are complete in the bytes b. */
  function CompleteIn(ms: seq<Message>, b: seq<byte>): (n: nat)
    ensures n <= |ms|
    decreases |ms|
  {
    if ms == [] || |b| < |Frame(ms[0])| then 0
    else 1 + CompleteIn(ms[1..], b[|Frame(ms[0])|..])
  }

  /** A buffer that holds the beginning of a stream of frames: exactly the messages that are
      complete are taken out, and the bytes behind them stay. */
  lemma {:induction false} DecodeStream(ms: seq<Message>, v: seq<Chunk>, env: Env)
    requires AsIntended(env) && forall i | 0 <= i < |ms| :: Receivable(ms[i], env)
    requires AllOk(v) && Dense(v) && Flat(v) <= FramesOf(ms)
    ensures var r, n := OnMessage(v, true, env), CompleteIn(ms, Flat(v));
            && r.events == Deliveries(ms[..n]) && r.tail && AllOk(r.view) && Dense(r.view)
            && Flat(v) == FramesOf(ms[..n]) + Flat(r.view)
            && (n < |ms| ==> |Flat(r.view)| < |Frame(ms[n])|)
    decreases |ms|
  {
    hide *;
    IntendedFacts(env);
    CompleteCases(ms, Flat(v));
    if ms == [] {
      NoStream(v, env);
    } else {
      StreamFacts(ms, env);
      var m, f := ms[0], Frame(ms[0]);
      if |Flat(v)| < |f| {
        assert Flat(v) < f;
        KnownOf(m, env);
        WaitForFrame(m, v, true, env);
        StreamNone(ms, Flat(v));
      } else {
        var extra := Flat(v)[|f|..];
        assert Flat(v) == f + extra && extra <= FramesOf(ms[1..]);
        DecodeLimited(m, v, true, extra, env);
        var w := Rest(v, |Flat(v)| - |extra|);
        DecodeStream(ms[1..], w, env);
        ThenFacts([Deliver(m)], [], OnMessage(w, true, env));
        StreamCons(ms, CompleteIn(ms[1..], extra), Flat(OnMessage(w, true, env).view));
      }
    }
  }

  lemma IntendedFacts(env: Env)
    ensures AsIntended(env) <==> env.byteOffsets && env.limited && env.restoresTail
  {
  }

  lemma KnownOf(m: Message, env: Env)
    requires Receivable(m, env)
    ensures Known(m, env)
  {
  }

  lemma CompleteCases(ms: seq<Message>, b: seq<byte>)
    ensures ms == [] ==> CompleteIn(ms, b) == 0
    ensures ms != [] && |b| < |Frame(ms[0])| ==> CompleteIn(ms, b) == 0
    ensures ms != [] && |b| >= |Frame(ms[0])| ==> CompleteIn(ms, b) == 1 + CompleteIn(ms[1..], b[|Frame(ms[0])|..])
  {
  }

  lemma StreamFacts(ms: seq<Message>, env: Env)
    requires ms != [] && forall i | 0 <= i < |ms| :: Receivable(ms[i], env)
    ensures Receivable(ms[0], env) && forall i | 0 <= i < |ms[1..]| :: Receivable(ms[1..][i], env)
    ensures FramesOf(ms) == Frame(ms[0]) + FramesOf(ms[1..]) && |Frame(ms[0])| > 0
    ensures Deliveries(ms) == [Deliver(ms[0])] + Deliveries(ms[1..])
  {
  }

  lemma NoStream(v: seq<Chunk>, env: Env)
    requires Dense(v) && Flat(v) <= FramesOf([])
    ensures v == [] && OnMessage(v, true, env) == Decoded([], true, Deliveries([])) && FramesOf([]) == []
  {
    DenseFacts(v);
  }

  lemma StreamNone(ms: seq<Message>, b: seq<byte>)
    ensures Deliveries(ms[..0]) == [] && FramesOf(ms[..0]) + b == b
  {
  }

  lemma StreamCons(ms: seq<Message>, n: nat, b: seq<byte>)
    requires ms != [] && n < |ms|
    ensures Deliveries(ms[..n + 1]) == [Deliver(ms[0])] + Deliveries(ms[1..][..n])
    ensures FramesOf(ms[..n + 1]) + b == Frame(ms[0]) + (FramesOf(ms[1..][..n]) + b)
    ensures n < |ms| - 1 ==> ms[1..][n] == ms[n + 1]
  {
    assert ms[..n + 1][1..] == ms[1..][..n];
  }

  /** The stream as intended: any messages, in any fragments, are delivered in order, each
      once and as soon as it is complete, and the buffer is left empty. */
  lemma StreamRoundTrip(ms: seq<Message>, fragments: seq<seq<byte>>, env: Env)
    requires AsIntended(env) && forall i | 0 <= i < |ms| :: Receivable(ms[i], env)
    requires ValidFragments(fragments) && Concat(fragments) <= FramesOf(ms)
    ensures Receive([], true, fragments, env).events == Deliveries(ms[..CompleteIn(ms, Concat(fragments))])
    ensures Concat(fragments) == FramesOf(ms) ==>
              Receive([], true, fragments, env) == Decoded([], true, Deliveries(ms))
  {
    hide *;
    NothingYet(ms, fragments);
    ReceiveStream(ms, [], fragments, env);
    if Concat(fragments) == FramesOf(ms) {
      CompleteAll(ms);
      assert ms[..|ms|] == ms;
      var r := Receive([], true, fragments, env);
      assert |FramesOf(ms) + Flat(r.view)| == |FramesOf(ms)|;
      DenseFacts(r.view);
    }
  }

  lemma NothingYet(ms: seq<Message>, fragments: seq<seq<byte>>)
    ensures AllOk([]) && Dense([]) && Flat([]) == [] && Flat([]) + Concat(fragments) == Concat(fragments)
    ensures ms != [] ==> |Frame(ms[0])| > 0
  {
  }

  lemma {:induction false} CompleteAll(ms: seq<Message>)
    ensures CompleteIn(ms, FramesOf(ms)) == |ms|
  {
    if ms != [] {
      assert FramesOf(ms)[|Frame(ms[0])|..] == FramesOf(ms[1..]);
      CompleteAll(ms[1..]);
    }
  }

  /** Receiving on, with part of the first frame in the buffer. */
  lemma {:induction false} ReceiveStream(ms: seq<Message>, v: seq<Chunk>, fragments: seq<seq<byte>>, env: Env)
    requires AsIntended(env) && forall i | 0 <= i < |ms| :: Receivable(ms[i], env)
    requires AllOk(v) && Dense(v) && (ms != [] ==> |Flat(v)| < |Frame(ms[0])|)
    requires ValidFragments(fragments) && Flat(v) + Concat(fragments) <= FramesOf(ms)
    ensures var r, n := Receive(v, true, fragments, env), CompleteIn(ms, Flat(v) + Concat(fragments));
            && r.events == Deliveries(ms[..n]) && r.tail && Dense(r.view)
            && Flat(v) + Concat(fragments) == FramesOf(ms[..n]) + Flat(r.view)
    decreases |fragments|
  {
    hide *;
    if fragments == [] {
      NoFragment(ms, v);
      ReceiveNone(v, true, env);
      StreamNone(ms, Flat(v));
    } else {
      FragmentsFacts(fragments);
      var d, rest := fragments[0], fragments[1..];
      var w := WithPiece(v, Chunk(0, d));
      PieceAppended(v, d);
      assert Flat(w) + Concat(rest) == Flat(v) + Concat(fragments);
      DecodeStream(ms, w, env);
      var step, k := OnMessage(w, true, env), CompleteIn(ms, Flat(w));
      FramesSplit(ms, k);
      PrefixBehind(FramesOf(ms[..k]), Flat(step.view), Concat(rest), FramesOf(ms[k..]));
      ReceiveStream(ms[k..], step.view, rest, env);
      var r := Receive(step.view, true, rest, env);
      ReceiveCons(v, true, fragments, env);
      ArriveIs(v, d, env);
      DeliveriesDefined(ms[..k]);
      ThenFacts(step.events, [], r);
      CompleteSplit(ms, Flat(w), Concat(rest));
      DeliveriesSplit(ms, k, CompleteIn(ms[k..], Flat(step.view) + Concat(rest)));
    }
  }

  lemma NoFragment(ms: seq<Message>, v: seq<Chunk>)
    requires ms != [] ==> |Flat(v)| < |Frame(ms[0])|
    ensures Flat(v) + Concat([]) == Flat(v) && CompleteIn(ms, Flat(v)) == 0
  {
  }

  lemma PieceAppended(v: seq<Chunk>, d: seq<byte>)
    requires AllOk(v) && Dense(v) && 0 < |d| <= CAPACITY
    ensures var w := WithPiece(v, Chunk(0, d)); Flat(w) == Flat(v) + d && AllOk(w) && Dense(w)
  {
    WithPieceFlat(v, Chunk(0, d));
  }

  lemma {:induction false} DeliveriesDefined(ms: seq<Message>)
    ensures Undefined !in Deliveries(ms)
  {
    if ms != [] {
      DeliveriesDefined(ms[1..]);
    }
  }

  lemma PrefixBehind(a: seq<byte>, b: seq<byte>, c: seq<byte>, d: seq<byte>)
    requires (a + b) + c <= a + d
    ensures b + c <= d && (a + b)[|a|..] == b
  {
    assert (a + b) + c == a + (b + c);
    assert (a + d)[|a|..] == d && (a + (b + c))[|a|..] == b + c;
  }

  lemma {:induction false} FramesJoin(a: seq<Message>, b: seq<Message>)
    ensures FramesOf(a + b) == FramesOf(a) + FramesOf(b)
    ensures Deliveries(a + b) == Deliveries(a) + Deliveries(b)
  {
    if a == [] {
      assert a + b == b;
    } else {
      assert (a + b)[0] == a[0] && (a + b)[1..] == a[1..] + b;
      FramesJoin(a[1..], b);
    }
  }

  lemma {:induction false} FramesSplit(ms: seq<Message>, k: nat)
    requires k <= |ms|
    ensures FramesOf(ms) == FramesOf(ms[..k]) + FramesOf(ms[k..])
  {
    FramesJoin(ms[..k], ms[k..]);
    assert ms == ms[..k] + ms[k..];
  }

  lemma {:induction false} DeliveriesSplit(ms: seq<Message>, k: nat, n: nat)
    requires k + n <= |ms|
    ensures Deliveries(ms[..k]) + Deliveries(ms[k..][..n]) == Deliveries(ms[..k + n])
    ensures FramesOf(ms[..k]) + FramesOf(ms[k..][..n]) == FramesOf(ms[..k + n])
  {
    FramesJoin(ms[..k], ms[k..][..n]);
    assert ms[..k + n] == ms[..k] + ms[k..][..n];
  }

  /** Complete in the bytes so far, and then in the rest of them with more behind. */
  lemma {:induction false} CompleteSplit(ms: seq<Message>, a: seq<byte>, b: seq<byte>)
    ensures var k := CompleteIn(ms, a);
            && |FramesOf(ms[..k])| <= |a|
            && CompleteIn(ms, a + b) == k + CompleteIn(ms[k..], a[|FramesOf(ms[..k])|..] + b)
    decreases |ms|
  {
    if ms == [] || |a| < |Frame(ms[0])| {
      assert ms[..0] == [] && ms[0..] == ms && a[0..] == a;
    } else {
      var f, k := |Frame(ms[0])|, CompleteIn(ms, a);
      CompleteSplit(ms[1..], a[f..], b);
      assert (a + b)[f..] == a[f..] + b;
      assert ms[..k][1..] == ms[1..][..k - 1] && ms[k..] == ms[1..][k - 1..];
      assert a[|FramesOf(ms[..k])|..] == a[f..][|FramesOf(ms[1..][..k - 1])|..];
    }
  }
}
