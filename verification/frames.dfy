/**
 The wire format of a protobuf message and what the decoder makes of a buffer that
 has received part of one.

   [length: 4][name length: 4][type name, NUL][body]

 Both integers are big-endian; the length counts everything behind itself.
 */
module Frames {
  import opened Common
  import opened Chunks

  const HEADER_LEN := 4
  const MIN_MESSAGE_LEN := 2 * HEADER_LEN + 2
  const MAX_MESSAGE_LEN := 64 * 1024 * 1024

  lemma Sizes()
    ensures HEADER_LEN == 4 && MIN_MESSAGE_LEN == 10 && MAX_MESSAGE_LEN == 0x400_0000 && CAPACITY == 4096
  {
  }

  /** A message as its type name and its serialised fields. */
  datatype Message = Message(name: seq<byte>, body: seq<byte>)

  datatype ErrorCode = InvalidLength | InvalidNameLen | UnknownMessageType | ParseError

  /** What a callback gets; Undefined marks what the code leaves undefined: a peek whose
      bytes lie apart, and an append to a queue that has lost its tail. */
  datatype Event = Deliver(message: Message) | Error(code: ErrorCode) | Undefined

  /** What the parser of a type makes of the bytes behind the name: the fields it has
      read, serialised, and the number of bytes it has used. */
  datatype Parsed = Parsed(body: seq<byte>, used: nat)

  /** A receiver: the types it knows and their parsers, and which parts of its code are as
      intended.  As written, all three flags are false. */
  datatype Env = Env(
    registry: set<seq<byte>>,
    parse: (seq<byte>, seq<byte>) -> Parsed,
    byteOffsets: bool,    // `peek` advances its destination by bytes, not by whole values
    limited: bool,        // `parse` heeds the length, instead of offering all bytes there are
    restoresTail: bool)   // `flatBackUp` sets the tail of a queue that has become empty

  /** What a parser is offered of the bytes behind the name, of which the length field
      covers n. */
  function Offered(env: Env, d: seq<byte>, n: int): (r: seq<byte>)
    ensures r <= d
  {
    if !env.limited || n >= |d| then d else if n <= 0 then [] else d[..n]
  }

  /** The bytes a parser uses: not more than there are, and, since it begins by reading
      a tag, at least one if there is one. */
  function Used(env: Env, name: seq<byte>, d: seq<byte>): (n: nat)
    ensures n <= |d| && (n == 0 <==> d == [])
  {
    var n := env.parse(name, d).used;
    if d == [] then 0 else if n == 0 then 1 else if n > |d| then |d| else n
  }

  // ---------------------------------------------------------------------
  // 32-bit integers in network order
  // ---------------------------------------------------------------------

  const TWO_31 := 0x8000_0000
  const TWO_32 := 0x1_0000_0000

  /** The low 32 bits of x, most significant byte first. */
  function BigEndian(x: int): (d: seq<byte>)
    ensures |d| == 4
  {
    var u := x % TWO_32;
    [u / 0x100_0000, u / 0x1_0000 % 0x100, u / 0x100 % 0x100, u % 0x100]
  }

  /** The signed integer of four bytes. */
  function FromBigEndian(d: seq<byte>): int
    requires |d| == 4
  {
    var u := d[0] as int * 0x100_0000 + d[1] as int * 0x1_0000 + d[2] as int * 0x100 + d[3] as int;
    if u >= TWO_31 then u - TWO_32 else u
  }

  lemma SplitBytes(u: nat)
    requires u < TWO_32
    ensures u == u / 0x100_0000 * 0x100_0000 + u / 0x1_0000 % 0x100 * 0x1_0000 + u / 0x100 % 0x100 * 0x100 + u % 0x100
  {
    assert u / 0x1_0000 == u / 0x100 / 0x100;
    assert u / 0x100_0000 == u / 0x1_0000 / 0x100;
  }

  /** Reading back what was written gives the integer, wrapped to 32 bits. */
  lemma BigEndianRoundTrip(x: int)
    ensures -TWO_31 <= x < TWO_31 ==> FromBigEndian(BigEndian(x)) == x
    ensures (FromBigEndian(BigEndian(x)) - x) % TWO_32 == 0
  {
    SplitBytes(x % TWO_32);
  }

  lemma BigEndianOf(d: seq<byte>)
    requires |d| == 4
    ensures BigEndian(FromBigEndian(d)) == d
  {
    var u := d[0] as int * 0x100_0000 + d[1] as int * 0x1_0000 + d[2] as int * 0x100 + d[3] as int;
    assert FromBigEndian(d) % TWO_32 == u;
    JoinedBytes(d[0], d[1], d[2], d[3]);
  }

  lemma JoinedBytes(a: byte, b: byte, c: byte, d: byte)
    ensures var u := a as int * 0x100_0000 + b as int * 0x1_0000 + c as int * 0x100 + d as int;
            u / 0x100_0000 == a && u / 0x1_0000 % 0x100 == b && u / 0x100 % 0x100 == c && u % 0x100 == d
  {
    var ab := a as int * 0x100 + b as int;
    var abc := ab * 0x100 + c as int;
    var u := abc * 0x100 + d as int;
    assert u / 0x100 == abc && abc / 0x100 == ab && ab / 0x100 == a;
    assert u / 0x1_0000 == u / 0x100 / 0x100 && u / 0x100_0000 == u / 0x1_0000 / 0x100;
  }

  // ---------------------------------------------------------------------
  // Frames
  // ---------------------------------------------------------------------

  function NamePart(m: Message): seq<byte> {
    BigEndian(|m.name| + 1) + m.name + [0]
  }

  /** What the length field counts. */
  function FrameLen(m: Message): nat {
    HEADER_LEN + |m.name| + 1 + |m.body|
  }

  function Frame(m: Message): (f: seq<byte>)
    ensures |f| == HEADER_LEN + FrameLen(m)
  {
    BigEndian(FrameLen(m)) + NamePart(m) + m.body
  }

  /** The bytes before the first NUL. */
  function CString(d: seq<byte>): seq<byte> {
    if d == [] || d[0] == 0 then [] else [d[0]] + CString(d[1..])
  }

  lemma {:induction false} CStringOf(s: seq<byte>, rest: seq<byte>)
    requires 0 !in s
    ensures CString(s + [0] + rest) == s
  {
    if s != [] {
      assert (s + [0] + rest)[1..] == s[1..] + [0] + rest;
      CStringOf(s[1..], rest);
    }
  }

  // ---------------------------------------------------------------------
  // Decoding
  // ---------------------------------------------------------------------

  /** What a buffer holds, whether its queue knows its last piece, and what happened. */
  datatype Decoded = Decoded(view: seq<Chunk>, tail: bool, events: seq<Event>)

  function Then(events: seq<Event>, r: Decoded): Decoded {
    Decoded(r.view, r.tail, events + r.events)
  }

  lemma ThenFacts(a: seq<Event>, b: seq<Event>, r: Decoded)
    ensures Then(a, Then(b, r)) == Then(a + b, r) && Then([], r) == r
    ensures Then(a, r).view == r.view && Then(a, r).tail == r.tail && Then(a, r).events == a + r.events
  {
    assert a + (b + r.events) == (a + b) + r.events && [] + r.events == r.events;
  }

  /** The pieces behind the first n bytes. */
  function Rest(v: seq<Chunk>, n: nat): (r: seq<Chunk>)
    requires n <= |Flat(v)|
    ensures Flat(r) == Flat(v)[n..] && (Dense(v) ==> Dense(r)) && (AllOk(v) ==> AllOk(r))
  {
    if v == [] then [] else Drop(v, n)
  }

  /** The last k bytes are a proper part of the last piece. */
  predicate InsideLast(v: seq<Chunk>, k: nat) {
    v != [] && 0 < k < |Last(v).bytes|
  }

  /** Whether the last piece is known after a parser has used all but k bytes: it gives
      the rest of a piece back, and if that was the last one the queue was empty. */
  predicate TailAfter(v: seq<Chunk>, k: nat, tail: bool, env: Env) {
    k == 0 || if InsideLast(v, k) then env.restoresTail else tail
  }

  /** Reads the name and has the rest parsed, of a message of length len. */
  function Parse(v: seq<Chunk>, len: int, tail: bool, env: Env): (r: Decoded)
    requires |Flat(v)| >= HEADER_LEN
    ensures |r.events| == 1 && |Flat(r.view)| <= |Flat(v)| - HEADER_LEN
  {
    var nameLen := FromBigEndian(Flat(v)[..HEADER_LEN]);
    var named := Rest(v, HEADER_LEN);
    if nameLen <= 0 then Decoded(named, tail || named == [], [Error(InvalidNameLen)])
    else if |Flat(named)| < nameLen then Decoded(named, tail || named == [], [Error(ParseError)])
    else
      var name := CString(Flat(named)[..nameLen]);
      var body := Rest(named, nameLen);
      if name !in env.registry then Decoded(body, tail || body == [], [Error(UnknownMessageType)])
      else ParseBody(name, body, len - HEADER_LEN - nameLen, tail, env)
  }

  /** The parser takes what it uses of what it is offered; what it makes of it is
      delivered. */
  function ParseBody(name: seq<byte>, body: seq<Chunk>, n: int, tail: bool, env: Env): (r: Decoded)
    ensures |r.events| == 1 && |Flat(r.view)| <= |Flat(body)|
  {
    var d := Offered(env, Flat(body), n);
    var used := Used(env, name, d);
    Decoded(Rest(body, used), TailAfter(body, |Flat(body)| - used, tail, env),
            [Deliver(Message(name, env.parse(name, d).body))])
  }

  /** The length field, if peeking it is defined. */
  function Header(v: seq<Chunk>, env: Env): (r: Option<seq<byte>>)
    requires |Flat(v)| >= HEADER_LEN
    ensures r.Some? ==> |r.value| == HEADER_LEN
  {
    if env.byteOffsets then Some(Flat(v)[..HEADER_LEN]) else Peeked(v, HEADER_LEN)
  }

  lemma HeaderExact(v: seq<Chunk>, env: Env)
    requires |Flat(v)| >= HEADER_LEN
    ensures Header(v, env).Some? <==> env.byteOffsets || FirstHolds(v, HEADER_LEN)
    ensures Header(v, env).Some? ==> Header(v, env).value == Flat(v)[..HEADER_LEN]
  {
    PeekedExact(v, HEADER_LEN);
  }

  /** One call of the message callback on a buffer without empty pieces: messages are
      taken out until one is incomplete or wrong. */
  function OnMessage(v: seq<Chunk>, tail: bool, env: Env): Decoded
    decreases |Flat(v)|
  {
    if |Flat(v)| < MIN_MESSAGE_LEN + HEADER_LEN then Decoded(v, tail, [])
    else match Header(v, env)
      case None => Decoded(v, tail, [Undefined])
      case Some(d) =>
        var len := FromBigEndian(d);
        if len > MAX_MESSAGE_LEN || len < MIN_MESSAGE_LEN then Decoded(v, tail, [Error(InvalidLength)])
        else if |Flat(v)| < len + HEADER_LEN then Decoded(v, tail, [])
        else
          var r := Parse(Rest(v, HEADER_LEN), len, tail, env);
          if r.events[0].Deliver? then Then(r.events, OnMessage(r.view, r.tail, env)) else r
  }

  lemma ParseDense(v: seq<Chunk>, len: int, tail: bool, env: Env)
    requires Dense(v) && |Flat(v)| >= HEADER_LEN
    ensures Dense(Parse(v, len, tail, env).view)
  {
  }

  /** Decoding leaves no empty piece behind. */
  lemma {:induction false} OnMessageDense(v: seq<Chunk>, tail: bool, env: Env)
    requires Dense(v)
    ensures Dense(OnMessage(v, tail, env).view)
    decreases |Flat(v)|
  {
    OnMessageCases(v, tail, env);
    if Whole(v, env) {
      var r := Round(v, tail, env);
      ParseDense(Rest(v, HEADER_LEN), FromBigEndian(Header(v, env).value), tail, env);
      OnMessageDense(r.view, r.tail, env);
    }
  }

  /** A length within the limits is read, and that many bytes are there. */
  ghost predicate Whole(v: seq<Chunk>, env: Env) {
    && |Flat(v)| >= MIN_MESSAGE_LEN + HEADER_LEN && Header(v, env).Some?
    && var len := FromBigEndian(Header(v, env).value);
       MIN_MESSAGE_LEN <= len <= MAX_MESSAGE_LEN && |Flat(v)| >= len + HEADER_LEN
  }

  /** What one round does to a whole message. */
  ghost function Round(v: seq<Chunk>, tail: bool, env: Env): Decoded
    requires Whole(v, env)
  {
    Parse(Rest(v, HEADER_LEN), FromBigEndian(Header(v, env).value), tail, env)
  }

  /** What is done without parsing. */
  function Unparsed(v: seq<Chunk>, env: Env): seq<Event> {
    if |Flat(v)| < MIN_MESSAGE_LEN + HEADER_LEN then []
    else match Header(v, env)
      case None => [Undefined]
      case Some(d) =>
        if FromBigEndian(d) > MAX_MESSAGE_LEN || FromBigEndian(d) < MIN_MESSAGE_LEN then [Error(InvalidLength)] else []
  }

  /** One round of the loop. */
  lemma OnMessageCases(v: seq<Chunk>, tail: bool, env: Env)
    ensures !Whole(v, env) ==> OnMessage(v, tail, env) == Decoded(v, tail, Unparsed(v, env))
    ensures Whole(v, env) ==>
              && v != [] && |Flat(v)| >= 2 * HEADER_LEN && Header(v, env).Some? && |Flat(Rest(v, HEADER_LEN))| == |Flat(v)| - HEADER_LEN
              && (Dense(v) ==> Dense(Rest(v, HEADER_LEN)))
              && var r := Round(v, tail, env);
                 && r == Parse(Rest(v, HEADER_LEN), FromBigEndian(Header(v, env).value), tail, env)
                 && |r.events| == 1 && |Flat(r.view)| < |Flat(v)|
                 && OnMessage(v, tail, env)
                    == if r.events[0].Deliver? then Then(r.events, OnMessage(r.view, r.tail, env)) else r
  {
  }

  // ---------------------------------------------------------------------
  // The decoder on plain bytes
  // ---------------------------------------------------------------------

  datatype Outcome = Outcome(rest: seq<byte>, events: seq<Event>)

  function ParseBytes(b: seq<byte>, len: int, env: Env): (r: Outcome)
    requires |b| >= HEADER_LEN
    ensures |r.events| == 1 && |r.rest| <= |b| - HEADER_LEN
  {
    var nameLen, named := FromBigEndian(b[..HEADER_LEN]), b[HEADER_LEN..];
    if nameLen <= 0 then Outcome(named, [Error(InvalidNameLen)])
    else if |named| < nameLen then Outcome(named, [Error(ParseError)])
    else
      var name, body := CString(named[..nameLen]), named[nameLen..];
      if name !in env.registry then Outcome(body, [Error(UnknownMessageType)])
      else
        var d := Offered(env, body, len - HEADER_LEN - nameLen);
        Outcome(body[Used(env, name, d)..], [Deliver(Message(name, env.parse(name, d).body))])
  }

  function DecodeBytes(b: seq<byte>, env: Env): Outcome
    decreases |b|
  {
    if |b| < MIN_MESSAGE_LEN + HEADER_LEN then Outcome(b, [])
    else
      var len := FromBigEndian(b[..HEADER_LEN]);
      if len > MAX_MESSAGE_LEN || len < MIN_MESSAGE_LEN then Outcome(b, [Error(InvalidLength)])
      else if |b| < len + HEADER_LEN then Outcome(b, [])
      else
        var r := ParseBytes(b[HEADER_LEN..], len, env);
        if !r.events[0].Deliver? then r
        else
          var later := DecodeBytes(r.rest, env);
          Outcome(later.rest, r.events + later.events)
  }

  ghost predicate WholeBytes(b: seq<byte>) {
    && |b| >= MIN_MESSAGE_LEN + HEADER_LEN
    && var len := FromBigEndian(b[..HEADER_LEN]);
       MIN_MESSAGE_LEN <= len <= MAX_MESSAGE_LEN && |b| >= len + HEADER_LEN
  }

  /** One round of the loop. */
  lemma DecodeCases(b: seq<byte>, env: Env)
    ensures !WholeBytes(b) ==>
              DecodeBytes(b, env) == Outcome(b, []) || DecodeBytes(b, env) == Outcome(b, [Error(InvalidLength)])
    ensures WholeBytes(b) ==>
              && |b| >= 2 * HEADER_LEN
              && var r := ParseBytes(b[HEADER_LEN..], FromBigEndian(b[..HEADER_LEN]), env);
                 && |r.events| == 1 && |r.rest| < |b|
                 && DecodeBytes(b, env)
                    == if !r.events[0].Deliver? then r
                       else Outcome(DecodeBytes(r.rest, env).rest, r.events + DecodeBytes(r.rest, env).events)
  {
  }

  lemma ParseIsByBytes(v: seq<Chunk>, len: int, tail: bool, env: Env)
    requires |Flat(v)| >= HEADER_LEN
    ensures var r := Parse(v, len, tail, env);
            Outcome(Flat(r.view), r.events) == ParseBytes(Flat(v), len, env) && r.events[0] != Undefined
  {
    hide Flat, Drop, Dense, AllOk, FromBigEndian, CString, Rest, TailAfter;
    var nameLen := FromBigEndian(Flat(v)[..HEADER_LEN]);
    if 0 < nameLen <= |Flat(Rest(v, HEADER_LEN))| {
      var body := Rest(Rest(v, HEADER_LEN), nameLen);
      var used := Used(env, CString(Flat(Rest(v, HEADER_LEN))[..nameLen]),
                       Offered(env, Flat(body), len - HEADER_LEN - nameLen));
      assert Flat(Rest(body, used)) == Flat(body)[used..];
    }
  }

  lemma WholeIsByBytes(v: seq<Chunk>, env: Env)
    ensures Unparsed(v, env) == [Undefined] ==> !Whole(v, env) && !env.byteOffsets
    ensures Unparsed(v, env) != [Undefined] ==> (Whole(v, env) <==> WholeBytes(Flat(v)))
    ensures Whole(v, env) ==> |Flat(v)| >= HEADER_LEN && Header(v, env) == Some(Flat(v)[..HEADER_LEN])
    ensures Unparsed(v, env) != [Undefined] && !Whole(v, env) ==>
              Undefined !in Unparsed(v, env) && DecodeBytes(Flat(v), env) == Outcome(Flat(v), Unparsed(v, env))
  {
    if |Flat(v)| >= HEADER_LEN {
      HeaderExact(v, env);
    }
  }

  /** Decoding goes by the bytes alone, not by how they are spread over pieces, up to the
      first undefined peek; with byte offsets there is none. */
  lemma {:induction false} OnMessageIsByBytes(v: seq<Chunk>, tail: bool, env: Env)
    ensures var r, s := OnMessage(v, tail, env), DecodeBytes(Flat(v), env);
            && (Undefined !in r.events ==> Outcome(Flat(r.view), r.events) == s)
            && (Undefined in r.events ==> !env.byteOffsets && LastEvent(r.events) == Undefined && EarlierEvents(r.events) <= s.events)
    decreases |Flat(v)|
  {
    hide *;
    Sizes();
    OnMessageCases(v, tail, env);
    WholeIsByBytes(v, env);
    if Whole(v, env) {
      DecodeCases(Flat(v), env);
      var w := Rest(v, HEADER_LEN);
      var r := Round(v, tail, env);
      ParseIsByBytes(w, FromBigEndian(Header(v, env).value), tail, env);
      if r.events[0].Deliver? {
        OnMessageIsByBytes(r.view, r.tail, env);
        ByBytesBehind(r.events, OnMessage(r.view, r.tail, env), DecodeBytes(Flat(r.view), env), env);
      }
    } else if Unparsed(v, env) == [Undefined] {
      EndsOf([Undefined]);
    }
  }

  lemma EndsOf(events: seq<Event>)
    requires events != []
    ensures events == EarlierEvents(events) + [LastEvent(events)] && LastEvent(events) in events
  {
  }

  lemma ByBytesBehind(first: seq<Event>, r: Decoded, s: Outcome, env: Env)
    requires |first| == 1 && first[0] != Undefined
    requires Undefined !in r.events ==> Outcome(Flat(r.view), r.events) == s
    requires Undefined in r.events ==> LastEvent(r.events) == Undefined && EarlierEvents(r.events) <= s.events
    ensures var t := Then(first, r);
            && t.view == r.view && (Undefined in t.events <==> Undefined in r.events)
            && (Undefined !in t.events ==> Outcome(Flat(t.view), t.events) == Outcome(s.rest, first + s.events))
            && (Undefined in t.events ==> LastEvent(t.events) == Undefined && EarlierEvents(t.events) <= first + s.events)
  {
    if Undefined in r.events {
      assert EarlierEvents(first + r.events) == first + EarlierEvents(r.events);
    }
  }

  function EarlierEvents(events: seq<Event>): seq<Event>
    requires events != []
  {
    events[..|events| - 1]
  }

  function LastEvent(events: seq<Event>): Event
    requires events != []
  {
    events[|events| - 1]
  }

  /** What is done with bytes that are at least as many as the smallest message, by their
      length field, name length and name: nothing before all bytes counted are there, and
      otherwise which error is reported and what is left. */
  lemma DecodeErrors(len: int, k: int, rest: seq<byte>, env: Env)
    requires -TWO_31 <= len < TWO_31 && -TWO_31 <= k < TWO_31 && |rest| >= 6
    ensures var b := BigEndian(len) + BigEndian(k) + rest;
            var r := DecodeBytes(b, env);
            if len < 10 || len > 0x400_0000 then r == Outcome(b, [Error(InvalidLength)])
            else if |rest| + 4 < len then r == Outcome(b, [])
            else if k <= 0 then r == Outcome(rest, [Error(InvalidNameLen)])
            else if k > |rest| then r == Outcome(rest, [Error(ParseError)])
            else if CString(rest[..k]) !in env.registry then r == Outcome(rest[k..], [Error(UnknownMessageType)])
            else r.events != [] && r.events[0].Deliver? && r.events[0].message.name == CString(rest[..k])
  {
    hide BigEndian, FromBigEndian, CString, Used, Offered;
    var b := BigEndian(len) + BigEndian(k) + rest;
    BigEndianRoundTrip(len);
    BigEndianRoundTrip(k);
    assert b[..HEADER_LEN] == BigEndian(len) && b[HEADER_LEN..] == BigEndian(k) + rest;
    assert b[HEADER_LEN..][..HEADER_LEN] == BigEndian(k) && b[HEADER_LEN..][HEADER_LEN..] == rest;
  }

  /** With fewer bytes nothing is done. */
  lemma DecodeTooFew(b: seq<byte>, env: Env)
    ensures |b| < 14 ==> DecodeBytes(b, env) == Outcome(b, [])
  {
  }

  /** The bytes begin with a length within the limits that they cover, a name length and
      that many bytes naming a registered type; the message is what the parser of that
      type makes of what it is offered of the bytes behind them. */
  ghost predicate Framed(b: seq<byte>, m: Message, env: Env) {
    exists len: int, name: seq<byte>, behind: seq<byte> ::
      && MIN_MESSAGE_LEN <= len <= MAX_MESSAGE_LEN && len + HEADER_LEN <= |b|
      && b == BigEndian(len) + BigEndian(|name|) + name + behind
      && CString(name) == m.name && m.name in env.registry && m.body == env.parse(m.name, Offered(env, behind, len - HEADER_LEN - |name|)).body
  }

  /** Whatever is delivered was framed somewhere in the bytes. */
  lemma {:induction false} DeliverSound(b: seq<byte>, i: nat, env: Env)
    requires i < |DecodeBytes(b, env).events| && DecodeBytes(b, env).events[i].Deliver?
    ensures exists at | 0 <= at <= |b| :: Framed(b[at..], DecodeBytes(b, env).events[i].message, env)
    decreases |b|
  {
    hide *;
    Sizes();
    DecodeCases(b, env);
    var m := DecodeBytes(b, env).events[i].message;
    var len := FromBigEndian(b[..HEADER_LEN]);
    var r := ParseBytes(b[HEADER_LEN..], len, env);
    if i == 0 {
      FirstFramed(b, m, env);
      assert b[0..] == b;
    } else {
      DeliverSound(r.rest, i - 1, env);
      var at :| 0 <= at <= |r.rest| && Framed(r.rest[at..], m, env);
      RestIsSuffix(b[HEADER_LEN..], len, env);
      var k := |b| - |r.rest| + at;
      assert b[k..] == r.rest[at..];
    }
  }

  lemma RestIsSuffix(b: seq<byte>, len: int, env: Env)
    requires |b| >= HEADER_LEN
    ensures ParseBytes(b, len, env).rest == b[|b| - |ParseBytes(b, len, env).rest|..]
  {
  }

  lemma FirstFramed(b: seq<byte>, m: Message, env: Env)
    requires DecodeBytes(b, env).events != [] && DecodeBytes(b, env).events[0] == Deliver(m)
    ensures Framed(b, m, env)
  {
    hide BigEndian, FromBigEndian, CString, Used, Offered;
    var len, rest := FromBigEndian(b[..HEADER_LEN]), b[HEADER_LEN..];
    var k := FromBigEndian(rest[..HEADER_LEN]);
    var name, behind := rest[HEADER_LEN..][..k], rest[HEADER_LEN..][k..];
    BigEndianOf(b[..HEADER_LEN]);
    BigEndianOf(rest[..HEADER_LEN]);
    Refit(b, k);
    assert b == BigEndian(len) + BigEndian(|name|) + name + behind;
  }

  lemma Refit(b: seq<byte>, k: nat)
    requires |b| >= 2 * HEADER_LEN + k
    ensures var rest := b[HEADER_LEN..];
            b == b[..HEADER_LEN] + rest[..HEADER_LEN] + rest[HEADER_LEN..][..k] + rest[HEADER_LEN..][k..]
  {
  }

  // ---------------------------------------------------------------------
  // A frame and what is behind it
  // ---------------------------------------------------------------------

  /** A message that is taken for one: its type is registered under a name without NUL,
      and its length field is within the decoder's limits. */
  ghost predicate Known(m: Message, env: Env) {
    m.name in env.registry && 0 !in m.name && MIN_MESSAGE_LEN <= FrameLen(m) <= MAX_MESSAGE_LEN
  }

  /** The parser of its type reads back the body it has serialised. */
  ghost predicate Receivable(m: Message, env: Env) {
    Known(m, env) && env.parse(m.name, m.body) == Parsed(m.body, |m.body|)
  }

  lemma KnownFacts(m: Message, env: Env)
    requires Known(m, env)
    ensures MIN_MESSAGE_LEN <= FrameLen(m) <= MAX_MESSAGE_LEN && FrameLen(m) < TWO_31
    ensures |Frame(m)| == HEADER_LEN + FrameLen(m)
  {
  }

  lemma FrameHeader(m: Message)
    ensures Frame(m)[..HEADER_LEN] == BigEndian(FrameLen(m))
    ensures Frame(m)[HEADER_LEN..] == NamePart(m) + m.body
  {
  }

  /** The fields in the order they are put into a buffer: the length last, in front. */
  lemma FrameFields(m: Message)
    ensures NamePart(m) == BigEndian(|m.name| + 1) + (m.name + [0])
    ensures |NamePart(m) + m.body| == FrameLen(m)
    ensures BigEndian(FrameLen(m)) + (NamePart(m) + m.body) == Frame(m)
  {
  }

  lemma NamePartFields(m: Message, extra: seq<byte>)
    ensures var d := NamePart(m) + m.body + extra;
            && |d| >= HEADER_LEN + |m.name| + 1 && d[..HEADER_LEN] == BigEndian(|m.name| + 1)
            && d[HEADER_LEN..][..|m.name| + 1] == m.name + [0]
            && d[HEADER_LEN..][|m.name| + 1..] == m.body + extra
  {
  }

  /** What is read of a frame before it is parsed. */
  lemma FrameStart(m: Message, extra: seq<byte>)
    requires FrameLen(m) < TWO_31
    ensures var d := Frame(m) + extra;
            && |d| >= HEADER_LEN + FrameLen(m) && FromBigEndian(d[..HEADER_LEN]) == FrameLen(m)
            && d[HEADER_LEN..] == NamePart(m) + m.body + extra
  {
    FrameHeader(m);
    assert (Frame(m) + extra)[..HEADER_LEN] == Frame(m)[..HEADER_LEN];
    BigEndianRoundTrip(FrameLen(m));
  }

  lemma {:induction false} DropTwice(v: seq<Chunk>, a: nat, b: nat)
    requires v != [] && Dense(v) && a + b <= |Flat(v)|
    ensures Rest(Drop(v, a), b) == Drop(v, a + b)
    decreases |v|
  {
    hide *;
    DropCases(v, a);
    DropCases(v, a + b);
    if a < |v[0].bytes| {
      DropWithin(v, a, b);
    } else if a > |v[0].bytes| {
      DropTwice(v[1..], a - |v[0].bytes|, b);
    } else {
      DropNone(v[1..]);
      RestCases(v[1..], b);
    }
  }

  lemma RestCases(v: seq<Chunk>, n: nat)
    requires n <= |Flat(v)|
    ensures v != [] ==> Rest(v, n) == Drop(v, n)
    ensures v == [] ==> n == 0
  {
  }

  lemma DropCases(v: seq<Chunk>, n: nat)
    requires v != [] && Dense(v) && n <= |Flat(v)|
    ensures Dense(v[1..]) && |Flat(v)| == |v[0].bytes| + |Flat(v[1..])|
    ensures n < |v[0].bytes| ==> Drop(v, n) == SetFirst(v, v[0].Skipped(n))
    ensures n == |v[0].bytes| ==> Drop(v, n) == v[1..]
    ensures n > |v[0].bytes| ==> v[1..] != [] && Drop(v, n) == Drop(v[1..], n - |v[0].bytes|)
  {
  }

  lemma DropWithin(v: seq<Chunk>, a: nat, b: nat)
    requires v != [] && Dense(v) && a + b <= |Flat(v)| && a < |v[0].bytes|
    ensures Rest(Drop(v, a), b) == Drop(v, a + b)
  {
    hide *;
    DropCases(v, a);
    DropCases(v, a + b);
    var w := SetFirst(v, v[0].Skipped(a));
    SkippedFirst(v, a);
    RestCases(w, b);
    DropCases(w, b);
    if a + b < |v[0].bytes| {
      SkippedTwice(v, a, b);
    }
  }

  lemma SkippedFirst(v: seq<Chunk>, n: nat)
    requires v != [] && n < |v[0].bytes|
    ensures var w := SetFirst(v, v[0].Skipped(n)); w != [] && w[1..] == v[1..] && |w[0].bytes| == |v[0].bytes| - n
  {
  }

  lemma SkippedTwice(v: seq<Chunk>, a: nat, b: nat)
    requires v != [] && a + b <= |v[0].bytes|
    ensures var w := SetFirst(v, v[0].Skipped(a));
            w != [] && b <= |w[0].bytes| && SetFirst(w, w[0].Skipped(b)) == SetFirst(v, v[0].Skipped(a + b))
  {
    assert v[0].bytes[a..][b..] == v[0].bytes[a + b..];
  }

  lemma DropNone(v: seq<Chunk>)
    requires Dense(v)
    ensures Rest(v, 0) == v
  {
    if v != [] {
      assert v[0].Skipped(0) == v[0];
      assert v == [v[0]] + v[1..];
    }
  }

  lemma RestTwice(v: seq<Chunk>, a: nat, b: nat)
    requires Dense(v) && a + b <= |Flat(v)|
    ensures Rest(Rest(v, a), b) == Rest(v, a + b)
  {
    if v != [] {
      DropTwice(v, a, b);
    }
  }

  /** The last piece stays, unless it is the only one left and shortened. */
  lemma {:induction false} LastOfRest(v: seq<Chunk>, n: nat)
    requires v != [] && Dense(v) && n < |Flat(v)|
    ensures var r := Drop(v, n);
            && r != [] && |Last(r).bytes| <= |Last(v).bytes|
            && (Last(r).bytes == Last(v).bytes || Flat(r) == Last(r).bytes)
    decreases |v|
  {
    var first := v[0].bytes;
    if |v| == 1 {
      FlatOne(v[0]);
      assert v == [v[0]];
      FlatOne(v[0].Skipped(n));
    } else if n > |first| {
      LastOfRest(v[1..], n - |first|);
    }
  }

  lemma InsideLastOfRest(v: seq<Chunk>, n: nat, k: nat)
    requires Dense(v) && n <= |Flat(v)| && (k == 0 || k < |Flat(v)| - n)
    ensures InsideLast(Rest(v, n), k) <==> InsideLast(v, k)
  {
    if 0 < k {
      LastOfRest(v, n);
    }
  }

  /** A frame with anything behind it: its parser is offered the body with all of that
      behind it, or the body alone where the length is heeded; it delivers what it makes of
      them, and the loop goes on with the bytes the parser has not used.  The tail is lost
      if and only if these are a proper part of the last piece it was offered. */
  lemma DecodeFrame(m: Message, v: seq<Chunk>, tail: bool, extra: seq<byte>, env: Env)
    requires Known(m, env) && Dense(v) && Flat(v) == Frame(m) + extra
    requires env.byteOffsets || FirstHolds(v, HEADER_LEN)
    ensures var all := m.body + extra;
            var d := if env.limited then m.body else all;
            var k := |all| - Used(env, m.name, d);
            && k <= |all| <= |Flat(v)| && Flat(Rest(v, |Flat(v)| - k)) == all[|all| - k..]
            && OnMessage(v, tail, env)
               == Then([Deliver(Message(m.name, env.parse(m.name, d).body))],
                       OnMessage(Rest(v, |Flat(v)| - k), TailAfter(Rest(v, |Flat(v)| - |all|), k, tail, env), env))
  {
    hide *;
    Sizes();
    KnownFacts(m, env);
    FrameStart(m, extra);
    HeaderExact(v, env);
    OnMessageCases(v, tail, env);
    WholeFrame(m, v, extra, env);
    OfferedFrame(m, extra, env);
    ParseFrame(m, Rest(v, HEADER_LEN), tail, extra, env);
    var all := m.body + extra;
    var d := if env.limited then m.body else all;
    var used := Used(env, m.name, d);
    FrameRest(m, v, extra, |all| - used);
    var body := Rest(v, |Flat(v)| - |all|);
    var r := Round(v, tail, env);
    assert r.view == Rest(v, |Flat(v)| - (|all| - used)) && r.tail == TailAfter(body, |all| - used, tail, env);
    assert r.events == [Deliver(Message(m.name, env.parse(m.name, d).body))];
  }

  lemma OfferedFrame(m: Message, extra: seq<byte>, env: Env)
    ensures Offered(env, m.body + extra, |m.body|) == if env.limited then m.body else m.body + extra
  {
    assert (m.body + extra)[..|m.body|] == m.body;
  }

  lemma WholeFrame(m: Message, v: seq<Chunk>, extra: seq<byte>, env: Env)
    requires Known(m, env) && Flat(v) == Frame(m) + extra && Header(v, env).Some?
    requires FromBigEndian(Header(v, env).value) == FrameLen(m)
    ensures Whole(v, env)
  {
  }

  lemma FrameRest(m: Message, v: seq<Chunk>, extra: seq<byte>, k: nat)
    requires Dense(v) && Flat(v) == Frame(m) + extra && k <= |m.body + extra|
    ensures var all := m.body + extra;
            && HEADER_LEN + |m.name| + 1 <= |Flat(v)| - HEADER_LEN && k <= |all| <= |Flat(v)|
            && Flat(Rest(v, |Flat(v)| - k)) == all[|all| - k..]
            && var body := Rest(Rest(Rest(v, HEADER_LEN), HEADER_LEN), |m.name| + 1);
               && Flat(body) == all && body == Rest(v, |Flat(v)| - |all|)
               && Rest(body, |all| - k) == Rest(v, |Flat(v)| - k)
  {
    hide *;
    Sizes();
    var all, f := m.body + extra, |Flat(v)|;
    FrameEnd(m, extra);
    RestTwice(v, HEADER_LEN, HEADER_LEN);
    RestTwice(v, 2 * HEADER_LEN, |m.name| + 1);
    RestTwice(v, f - |all|, |all| - k);
    assert (Frame(m) + extra)[f - k..] == (Frame(m) + extra)[f - |all|..][|all| - k..];
  }

  lemma FrameEnd(m: Message, extra: seq<byte>)
    ensures |Frame(m) + extra| == 2 * HEADER_LEN + |m.name| + 1 + |m.body + extra|
    ensures (Frame(m) + extra)[2 * HEADER_LEN + |m.name| + 1..] == m.body + extra
  {
  }

  lemma ParseFrame(m: Message, v: seq<Chunk>, tail: bool, extra: seq<byte>, env: Env)
    requires Known(m, env) && Flat(v) == NamePart(m) + m.body + extra
    ensures |Flat(v)| >= HEADER_LEN && |Flat(Rest(v, HEADER_LEN))| >= |m.name| + 1
    ensures var body := Rest(Rest(v, HEADER_LEN), |m.name| + 1);
            var d := Offered(env, Flat(body), |m.body|);
            var used := Used(env, m.name, d);
            && Flat(body) == m.body + extra && used <= |Flat(body)|
            && Parse(v, FrameLen(m), tail, env)
               == Decoded(Rest(body, used), TailAfter(body, |Flat(body)| - used, tail, env),
                          [Deliver(Message(m.name, env.parse(m.name, d).body))])
  {
    hide Flat, Drop, Used, Offered, TailAfter, BigEndian, FromBigEndian, NamePart, Dense, AllOk;
    NamePartFields(m, extra);
    BigEndianRoundTrip(|m.name| + 1);
    CStringOf(m.name, []);
    assert m.name + [0] + [] == m.name + [0];
  }

  /** A frame with nothing behind it is delivered as it was sent. */
  lemma DecodeLast(m: Message, v: seq<Chunk>, tail: bool, env: Env)
    requires Receivable(m, env) && Dense(v) && Flat(v) == Frame(m)
    requires env.byteOffsets || FirstHolds(v, HEADER_LEN)
    ensures OnMessage(v, tail, env) == Decoded([], true, [Deliver(m)])
  {
    hide Flat, Rest, Frame, OnMessage, FirstHolds;
    assert Frame(m) + [] == Frame(m) && m.body + [] == m.body;
    DecodeFrame(m, v, tail, [], env);
    var w := Rest(v, |Flat(v)|);
    DenseFacts(w);
    assert w == [];
    OnMessageNothing(true, env);
  }

  /** Where the length is heeded, a frame with anything behind it is delivered as it was
      sent, and exactly that is left. */
  lemma DecodeLimited(m: Message, v: seq<Chunk>, tail: bool, extra: seq<byte>, env: Env)
    requires Receivable(m, env) && env.limited && Dense(v) && Flat(v) == Frame(m) + extra
    requires env.byteOffsets || FirstHolds(v, HEADER_LEN)
    ensures |extra| <= |Flat(v)| && Flat(Rest(v, |Flat(v)| - |extra|)) == extra
    ensures var all := m.body + extra;
            && |all| <= |Flat(v)|
            && var t := TailAfter(Rest(v, |Flat(v)| - |all|), |extra|, tail, env);
               && (tail && env.restoresTail ==> t)
               && OnMessage(v, tail, env) == Then([Deliver(m)], OnMessage(Rest(v, |Flat(v)| - |extra|), t, env))
  {
    hide Flat, Rest, Frame, OnMessage, FirstHolds, InsideLast;
    DecodeFrame(m, v, tail, extra, env);
    var all := m.body + extra;
    assert all[|all| - |extra|..] == extra;
  }

  lemma OnMessageNothing(tail: bool, env: Env)
    ensures OnMessage([], tail, env) == Decoded([], tail, [])
  {
  }

  /** The parser ends at a zero byte where it expects a tag, having used it. */
  ghost predicate StopsAtZeroTag(m: Message, env: Env) {
    forall x: seq<byte> :: env.parse(m.name, m.body + ([0] + x)) == Parsed(m.body, |m.body| + 1)
  }

  /** A frame with a zero byte behind it is delivered as it was sent, and that byte is
      lost. */
  lemma DecodeBeforeZero(m: Message, v: seq<Chunk>, tail: bool, x: seq<byte>, env: Env)
    requires Receivable(m, env) && StopsAtZeroTag(m, env) && !env.limited
    requires Dense(v) && Flat(v) == Frame(m) + ([0] + x)
    requires env.byteOffsets || FirstHolds(v, HEADER_LEN)
    ensures |x| <= |Flat(v)| && Flat(Rest(v, |Flat(v)| - |x|)) == x
    ensures OnMessage(v, tail, env)
            == Then([Deliver(m)], OnMessage(Rest(v, |Flat(v)| - |x|), TailAfter(v, |x|, tail, env), env))
  {
    hide Flat, Rest, Frame, OnMessage, FirstHolds, InsideLast;
    DecodeFrame(m, v, tail, [0] + x, env);
    InsideLastOfRest(v, |Flat(v)| - |m.body + ([0] + x)|, |x|);
    var all := m.body + ([0] + x);
    assert Used(env, m.name, all) == |m.body| + 1;
    assert all[|all| - |x|..] == x;
  }

  /** Without its first byte, the beginning of a frame reads as 256 times its length. */
  lemma ShiftedLength(m: Message)
    requires FrameLen(m) < 0x100_0000
    ensures |Frame(m)| > HEADER_LEN && Frame(m)[0] == 0
    ensures var u := 0x100 * FrameLen(m);
            FromBigEndian(Frame(m)[1..][..HEADER_LEN]) == if u >= TWO_31 then u - TWO_32 else u
  {
    hide Frame, FromBigEndian, BigEndian;
    FrameShifted(m);
    ShiftedBytes(FrameLen(m), 0);
    FirstByte(FrameLen(m));
    FirstByte(|m.name| + 1);
  }

  lemma FrameShifted(m: Message)
    ensures Frame(m)[0] == BigEndian(FrameLen(m))[0]
    ensures Frame(m)[1..][..HEADER_LEN] == BigEndian(FrameLen(m))[1..] + [BigEndian(|m.name| + 1)[0]]
  {
    hide BigEndian;
    var a, b, c := BigEndian(FrameLen(m)), BigEndian(|m.name| + 1), m.name + [0] + m.body;
    assert Frame(m) == a + (b + c);
  }

  lemma FirstByte(n: nat)
    requires n < 0x100_0000
    ensures BigEndian(n)[0] == 0
  {
    var _, _, _ := ThreeBytes(n);
  }

  lemma ShiftedBytes(n: nat, last: byte)
    requires n < 0x100_0000
    ensures var u := 0x100 * n + last as int;
            FromBigEndian(BigEndian(n)[1..] + [last]) == if u >= TWO_31 then u - TWO_32 else u
  {
    hide BigEndian;
    var b, c, d := ThreeBytes(n);
    assert BigEndian(n)[1..] + [last] == [b, c, d, last];
  }

  lemma ThreeBytes(n: nat) returns (b: byte, c: byte, d: byte)
    requires n < 0x100_0000
    ensures BigEndian(n) == [0, b, c, d] && n == b as int * 0x1_0000 + c as int * 0x100 + d as int
  {
    SplitBytes(n);
    b, c, d := n / 0x1_0000 % 0x100, n / 0x100 % 0x100, n % 0x100;
    assert n % TWO_32 == n && n / 0x100_0000 == 0;
  }

  /** The rest of a frame behind its first byte is never taken for a message, however
      much of it is there: it waits, or its length is invalid. */
  lemma Desynchronised(m: Message, v: seq<Chunk>, tail: bool, env: Env)
    requires MIN_MESSAGE_LEN <= FrameLen(m) < 0x100_0000 && Flat(v) <= Frame(m)[1..]
    ensures OnMessage(v, tail, env) == Decoded(v, tail, Unparsed(v, env))
    ensures Unparsed(v, env)
            == if |Flat(v)| < MIN_MESSAGE_LEN + HEADER_LEN then []
               else if !env.byteOffsets && !FirstHolds(v, HEADER_LEN) then [Undefined]
               else if FrameLen(m) > 0x4_0000 then [Error(InvalidLength)]
               else []
  {
    hide Flat, Frame, OnMessage, FirstHolds, FrameLen, Header, FromBigEndian;
    OnMessageCases(v, tail, env);
    if |Flat(v)| >= MIN_MESSAGE_LEN + HEADER_LEN {
      HeaderExact(v, env);
      ShiftedLength(m);
      assert Flat(v)[..HEADER_LEN] == Frame(m)[1..][..HEADER_LEN];
      assert |Flat(v)| <= FrameLen(m) + HEADER_LEN;
    }
  }

  /** A frame and the beginning of the next one in one buffer: the first message is
      delivered as it was sent, the first byte of the next frame is lost, and what is left
      of it stays, out of step, with the tail lost, unless it is restored, if that is a proper
      part of the last piece. */
  lemma FrameAndNext(m: Message, next: Message, v: seq<Chunk>, tail: bool, x: seq<byte>, env: Env)
    requires Receivable(m, env) && StopsAtZeroTag(m, env) && !env.limited
    requires MIN_MESSAGE_LEN <= FrameLen(next) < 0x100_0000 && x <= Frame(next) && x != []
    requires Dense(v) && Flat(v) == Frame(m) + x && (env.byteOffsets || FirstHolds(v, HEADER_LEN))
    ensures var r := OnMessage(v, tail, env);
            && Dense(r.view) && Flat(r.view) == x[1..] && r.tail == TailAfter(v, |x| - 1, tail, env)
            && r.events == [Deliver(m)] + if |x| - 1 < MIN_MESSAGE_LEN + HEADER_LEN then []
                                          else if !env.byteOffsets && !FirstHolds(r.view, HEADER_LEN) then [Undefined]
                                          else if FrameLen(next) > 0x4_0000 then [Error(InvalidLength)]
                                          else []
    ensures AllOk(v) ==> AllOk(OnMessage(v, tail, env).view)
  {
    hide Flat, Frame, OnMessage, FirstHolds, FrameLen, Header, Unparsed, Rest;
    ShiftedLength(next);
    assert x == [0] + x[1..];
    DecodeBeforeZero(m, v, tail, x[1..], env);
    Desynchronised(next, Rest(v, |Flat(v)| - (|x| - 1)), TailAfter(v, |x| - 1, tail, env), env);
  }

  /** A proper prefix of a frame is left alone. */
  lemma WaitForFrame(m: Message, v: seq<Chunk>, tail: bool, env: Env)
    requires Known(m, env) && Flat(v) < Frame(m)
    requires |Flat(v)| >= HEADER_LEN ==> env.byteOffsets || FirstHolds(v, HEADER_LEN)
    ensures OnMessage(v, tail, env) == Decoded(v, tail, [])
  {
    if |Flat(v)| >= MIN_MESSAGE_LEN + HEADER_LEN {
      FrameHeader(m);
      HeaderExact(v, env);
      assert Flat(v)[..HEADER_LEN] == Frame(m)[..HEADER_LEN];
      BigEndianRoundTrip(FrameLen(m));
    }
  }
}
