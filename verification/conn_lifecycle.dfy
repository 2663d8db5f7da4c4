/**
 The life of a connection: establishing, the ways of closing, and the callbacks, as
 steps of the event loop interleaved with calls from other threads.

 A step is one atomic operation, one posting, or one stretch of a loop handler between
 two callbacks.  A cancelled delay timer still runs its callback.
 */
module ConnLifecycle {

  datatype Status = Connected | Disconnecting | Disconnected

  /** Where the loop thread is: between handlers, in the callback for the new
      connection, or in `handleClose` before its disconnect callback, before its close
      callback, or before its last store. */
  datatype Position = Idle | InConnectCallback | BeforeDisconnect | BeforeCloseCallback | BeforeFinish

  datatype Conn = Conn(
    id: nat,
    status: Status,
    at: Position,
    established: bool,
    socketOpen: bool,
    closers: nat,        // calls of close between winning the exchange and posting
    delayers: nat,       // calls of closeWithDelay between winning it and arming
    posted: nat,         // close handlers in the loop's queue
    timers: nat,         // delay callbacks still to run, cancelled or not
    connects: nat,       // connection callbacks for the new connection
    disconnects: nat,    // connection callbacks for the closed connection
    closes: nat)         // close callbacks

  /** A connection as constructed, with its socket open. */
  predicate Fresh(c: Conn) {
    && c.status == Disconnected && c.at == Idle && !c.established && c.socketOpen
    && Pending(c) == 0 && c.connects == 0 && c.disconnects == 0 && c.closes == 0
  }

  function NewConn(id: nat): (c: Conn)
    ensures Fresh(c) && c.id == id
  {
    Conn(id, Disconnected, Idle, false, true, 0, 0, 0, 0, 0, 0, 0)
  }

  datatype Step =
    | Establish            // connectEstablished, up to its callback
    | ConnectCallbackDone
    | Close                // close: the compare-and-exchange
    | ClosePost            // close: queueInLoop
    | CloseWithDelay       // closeWithDelay: the compare-and-exchange
    | DelayArm             // closeWithDelay: runAfter
    | RunPosted            // a posted close handler runs
    | RunTimer             // a delay callback runs
    | IoError              // a read or write completes with an error
    | DisconnectCallback
    | CloseCallback
    | Finish

  function Established(c: Conn): Conn {
    c.(status := Connected, established := true, connects := c.connects + 1, at := InConnectCallback)
  }

  function HandleClose(c: Conn): Conn {
    if c.status == Disconnected then c
    else c.(status := Disconnecting, socketOpen := false, at := BeforeDisconnect)
  }

  function HandleError(c: Conn): Conn {
    if c.status != Disconnected then HandleClose(c.(status := Disconnecting)) else c
  }

  /** Handlers run on the loop thread one at a time; I/O completes with an error other
      than an abort only while the socket is open. */
  ghost predicate Enabled(c: Conn, s: Step) {
    match s
    case Establish => c.at == Idle && !c.established
    case ConnectCallbackDone => c.at == InConnectCallback
    case Close => true
    case ClosePost => c.closers > 0
    case CloseWithDelay => true
    case DelayArm => c.delayers > 0
    case RunPosted => c.at == Idle && c.posted > 0
    case RunTimer => c.at == Idle && c.timers > 0
    case IoError => c.at == Idle && c.established && c.socketOpen
    case DisconnectCallback => c.at == BeforeDisconnect
    case CloseCallback => c.at == BeforeCloseCallback
    case Finish => c.at == BeforeFinish
  }

  function Next(c: Conn, s: Step): Conn
    requires Enabled(c, s)
  {
    match s
    case Establish => Established(c)
    case ConnectCallbackDone => c.(at := Idle)
    case Close =>
      if c.status == Connected then c.(status := Disconnecting, closers := c.closers + 1) else c
    case ClosePost => c.(closers := c.closers - 1, posted := c.posted + 1)
    case CloseWithDelay =>
      if c.status == Connected then c.(status := Disconnecting, delayers := c.delayers + 1) else c
    case DelayArm => c.(delayers := c.delayers - 1, timers := c.timers + 1)
    case RunPosted => HandleClose(c.(posted := c.posted - 1))
    case RunTimer => HandleClose(c.(timers := c.timers - 1))
    case IoError => HandleError(c)
    case DisconnectCallback => c.(disconnects := c.disconnects + 1, at := BeforeCloseCallback)
    case CloseCallback => c.(closes := c.closes + 1, at := BeforeFinish)
    case Finish => c.(status := Disconnected, at := Idle)
  }

  // ---------------------------------------------------------------------
  // The invariant
  // ---------------------------------------------------------------------

  /** Closes on their way to the loop: won, posted, or waiting for a timer. */
  function Pending(c: Conn): nat {
    c.closers + c.delayers + c.posted + c.timers
  }

  ghost predicate InHandleClose(c: Conn) {
    c.at.BeforeDisconnect? || c.at.BeforeCloseCallback? || c.at.BeforeFinish?
  }

  ghost predicate Over(c: Conn) {
    c.established && c.status == Disconnected
  }

  ghost predicate Inv(c: Conn) {
    && Pending(c) <= 1
    && (!c.established ==> Fresh(c))
    && (c.established ==> c.connects == 1)
    && (InHandleClose(c) ==> c.established && c.status == Disconnecting && !c.socketOpen)
    && (c.status == Connected ==> Pending(c) == 0 && c.socketOpen)
    && (c.status == Disconnecting && !InHandleClose(c) ==> Pending(c) == 1 && c.socketOpen)
    && (Over(c) ==> c.at == Idle && !c.socketOpen)
    && c.disconnects == (if c.at.BeforeCloseCallback? || c.at.BeforeFinish? || Over(c) then 1 else 0)
    && c.closes == (if c.at == BeforeFinish || Over(c) then 1 else 0)
  }

  /** How far the connection has got. */
  function Rank(c: Conn): nat {
    if !c.established then 0
    else match c.status case Connected => 1 case Disconnecting => 2 case Disconnected => 3
  }

  lemma NextKeeps(c: Conn, s: Step)
    requires Inv(c) && Enabled(c, s)
    ensures Inv(Next(c, s)) && Rank(c) <= Rank(Next(c, s))
  {
    match s {
      case Establish =>
      case ConnectCallbackDone =>
      case Close =>
      case ClosePost =>
      case CloseWithDelay =>
      case DelayArm =>
      case RunPosted => HandleCloseKeeps(c, c.(posted := c.posted - 1));
      case RunTimer => HandleCloseKeeps(c, c.(timers := c.timers - 1));
      case IoError => HandleCloseKeeps(c, c.(status := Disconnecting));
      case DisconnectCallback =>
      case CloseCallback =>
      case Finish =>
    }
  }

  lemma HandleCloseKeeps(c: Conn, d: Conn)
    requires Inv(c) && c.at == Idle && c.established
    requires d == c.(posted := d.posted, timers := d.timers, status := d.status)
    requires Pending(d) <= 1 && (d.status == c.status || (c.status != Disconnected && d.status == Disconnecting))
    ensures Inv(HandleClose(d)) && Rank(c) <= Rank(HandleClose(d))
  {
  }

  lemma FreshFacts(c: Conn)
    requires Fresh(c)
    ensures Inv(c) && c.closes == 0 && !c.established
    ensures var d := Established(c); Inv(d) && d.id == c.id && d.closes == 0 && d.established && d.status == Connected
  {
    NextKeeps(c, Establish);
  }

  ghost predicate ValidRun(c: Conn, steps: seq<Step>)
    decreases |steps|
  {
    steps != [] ==> Enabled(c, steps[0]) && ValidRun(Next(c, steps[0]), steps[1..])
  }

  function Run(c: Conn, steps: seq<Step>): Conn
    requires ValidRun(c, steps)
    decreases |steps|
  {
    if steps == [] then c else Run(Next(c, steps[0]), steps[1..])
  }

  /** Over every interleaving: the state only moves forward, and each of the callbacks
      runs at most once, in order. */
  lemma {:induction false} Lifecycle(c: Conn, steps: seq<Step>)
    requires (Fresh(c) || Inv(c)) && ValidRun(c, steps)
    ensures var d := Run(c, steps);
            && Inv(d) && Rank(c) <= Rank(d)
            && d.closes <= d.disconnects <= d.connects <= 1
    decreases |steps|
  {
    if steps != [] {
      NextKeeps(c, steps[0]);
      Lifecycle(Next(c, steps[0]), steps[1..]);
    }
  }

  // ---------------------------------------------------------------------
  // A close that has been asked for happens
  // ---------------------------------------------------------------------

  /** What the program itself still has to do, without further calls or I/O. */
  ghost predicate Internal(s: Step) {
    !s.Establish? && !s.Close? && !s.CloseWithDelay? && !s.IoError?
  }

  function Work(c: Conn): nat {
    (match c.at
     case Idle => 0 case InConnectCallback => 1 case BeforeDisconnect => 3 case BeforeCloseCallback => 2 case BeforeFinish => 1)
    + 6 * (c.closers + c.delayers) + 5 * (c.posted + c.timers)
  }

  /** Internal steps come to an end. */
  lemma WorkDecreases(c: Conn, s: Step)
    requires Inv(c) && Enabled(c, s) && Internal(s)
    ensures Work(Next(c, s)) < Work(c)
  {
  }

  lemma {:induction false} InternalRunsEnd(c: Conn, steps: seq<Step>)
    requires Inv(c) && ValidRun(c, steps) && forall i | 0 <= i < |steps| :: Internal(steps[i])
    ensures |steps| <= Work(c)
    decreases |steps|
  {
    if steps != [] {
      NextKeeps(c, steps[0]);
      WorkDecreases(c, steps[0]);
      InternalRunsEnd(Next(c, steps[0]), steps[1..]);
    }
  }

  /** What is left of a life: every step uses some of it up, except a call of close on a
      connection that is not connected, which does nothing. */
  function Left(c: Conn): nat {
    (match c.at
     case Idle => 0 case InConnectCallback => 1 case BeforeDisconnect => 3 case BeforeCloseCallback => 2 case BeforeFinish => 1)
    + 2 * (c.closers + c.delayers) + c.posted + c.timers
    + (if c.socketOpen then 4 else 0) + (if c.status == Connected then 3 else 0) + (if c.established then 0 else 5)
  }

  ghost predicate NoEffect(c: Conn, s: Step) {
    (s.Close? || s.CloseWithDelay?) && c.status != Connected
  }

  lemma LeftDecreases(c: Conn, s: Step)
    requires Inv(c) && Enabled(c, s)
    ensures if NoEffect(c, s) then Next(c, s) == c else Left(Next(c, s)) < Left(c)
  {
    match s {
      case Establish =>
      case RunPosted =>
      case RunTimer =>
      case IoError =>
      case _ =>
    }
  }

  /** Whatever happens, a life is a bounded number of steps. */
  lemma {:induction false} LivesEnd(c: Conn, steps: seq<Step>)
    requires Inv(c) && ValidRun(c, steps)
    requires forall i | 0 <= i < |steps| :: !steps[i].Close? && !steps[i].CloseWithDelay?
    ensures |steps| <= Left(c)
    decreases |steps|
  {
    if steps != [] {
      NextKeeps(c, steps[0]);
      LeftDecreases(c, steps[0]);
      LivesEnd(Next(c, steps[0]), steps[1..]);
    }
  }

  lemma EstablishEnabled(c: Conn)
    requires Inv(c)
    ensures Enabled(c, Establish) <==> !c.established
    ensures c.status == Connected ==> c.established
  {
  }

  /** When none is left, the connection is either still connected or over with both
      callbacks run: no close that was asked for is lost. */
  lemma NoCloseIsLost(c: Conn)
    requires Inv(c) && c.established && forall s | Internal(s) :: !Enabled(c, s)
    ensures c.status != Disconnecting
    ensures c.status == Disconnected ==> c.disconnects == 1 && c.closes == 1
  {
    assert Internal(RunPosted) && Internal(RunTimer) && Internal(ClosePost) && Internal(DelayArm);
    assert Internal(ConnectCallbackDone) && Internal(DisconnectCallback) && Internal(CloseCallback) && Internal(Finish);
  }

  // ---------------------------------------------------------------------
  // The ways of closing differ
  // ---------------------------------------------------------------------

  /** Calls of close, from whatever thread, only ask: they run no handler. */
  ghost predicate IsCall(s: Step) {
    s.Close? || s.ClosePost? || s.CloseWithDelay? || s.DelayArm?
  }

  /** However many calls come, the loop stays where it is and the socket as it is, no
      callback runs, and a connected connection is disconnecting after the first. */
  lemma {:induction false} CallsOnlyAsk(c: Conn, steps: seq<Step>)
    requires Inv(c) && ValidRun(c, steps) && forall i | 0 <= i < |steps| :: IsCall(steps[i])
    ensures var d := Run(c, steps);
            && d.at == c.at && d.socketOpen == c.socketOpen && d.established == c.established
            && d.connects == c.connects && d.disconnects == c.disconnects && d.closes == c.closes
            && d.status == (if c.status == Connected && (Close in steps || CloseWithDelay in steps) then Disconnecting
                            else c.status)
    decreases |steps|
  {
    if steps != [] {
      NextKeeps(c, steps[0]);
      CallsOnlyAsk(Next(c, steps[0]), steps[1..]);
      assert steps == [steps[0]] + steps[1..];
    }
  }

  /** A socket that is closed stays closed, and no I/O error comes from it. */
  lemma {:induction false} ClosedStaysClosed(c: Conn, steps: seq<Step>)
    requires Inv(c) && !c.socketOpen && ValidRun(c, steps)
    ensures !Run(c, steps).socketOpen && IoError !in steps && !Enabled(Run(c, steps), IoError)
    decreases |steps|
  {
    if steps != [] {
      NextKeeps(c, steps[0]);
      SocketStep(c, steps[0]);
      ClosedStaysClosed(Next(c, steps[0]), steps[1..]);
      assert steps == [steps[0]] + steps[1..];
    }
  }

  lemma SocketStep(c: Conn, s: Step)
    requires Inv(c) && Enabled(c, s)
    ensures Next(c, s).socketOpen ==> c.socketOpen
  {
  }

  /** An I/O error closes the socket in its very step and has the loop in the closing
      handler; whatever follows, the socket stays closed and no second error comes; and with no
      handler left the connection is over, with both callbacks run. */
  lemma ErrorClosesAtOnce(c: Conn, steps: seq<Step>)
    requires Inv(c) && c.established && c.at == Idle && c.socketOpen && ValidRun(Next(c, IoError), steps)
    ensures !Next(c, IoError).socketOpen && Next(c, IoError).at == BeforeDisconnect
    ensures var d := Run(Next(c, IoError), steps);
            && !d.socketOpen && IoError !in steps
            && ((forall s | Internal(s) :: !Enabled(d, s)) ==> Over(d) && d.disconnects == 1 && d.closes == 1)
  {
    NextKeeps(c, IoError);
    ClosedStaysClosed(Next(c, IoError), steps);
    EndsOver(Next(c, IoError), steps);
  }

  /** Once asked to close, a connection with no handler left is over. */
  lemma EndsOver(c: Conn, steps: seq<Step>)
    requires Inv(c) && c.established && c.status != Connected && ValidRun(c, steps)
    ensures var d := Run(c, steps);
            (forall s | Internal(s) :: !Enabled(d, s)) ==> Over(d) && d.disconnects == 1 && d.closes == 1
  {
    Lifecycle(c, steps);
    var d := Run(c, steps);
    if forall s | Internal(s) :: !Enabled(d, s) {
      NoCloseIsLost(d);
    }
  }

  /** A delayed close waits for its timer: as long as neither the timer runs nor an I/O
      error comes, the socket stays open and no callback runs, however often close is called
      meanwhile. */
  lemma DelayedCloseWaits(c: Conn, steps: seq<Step>)
    requires Inv(c) && c.status == Connected && ValidRun(Next(c, CloseWithDelay), steps)
    requires RunTimer !in steps && IoError !in steps
    ensures var d := Run(Next(c, CloseWithDelay), steps);
            d.socketOpen && d.status == Disconnecting && d.disconnects == 0 && d.closes == 0
  {
    NextKeeps(c, CloseWithDelay);
    StaysDelayed(Next(c, CloseWithDelay), steps);
  }

  ghost predicate Delayed(c: Conn) {
    c.status == Disconnecting && c.socketOpen && c.delayers + c.timers == 1
  }

  lemma {:induction false} StaysDelayed(c: Conn, steps: seq<Step>)
    requires Inv(c) && Delayed(c) && ValidRun(c, steps) && RunTimer !in steps && IoError !in steps
    ensures var d := Run(c, steps); Inv(d) && Delayed(d)
    decreases |steps|
  {
    if steps != [] {
      assert steps[0] in steps;
      NextKeeps(c, steps[0]);
      StaysDelayed(Next(c, steps[0]), steps[1..]);
    }
  }

  /** A close does not wait: once it is won no timer is ever pending, whatever follows, and
      with no handler left the connection is over, with both callbacks run and without any
      timer having run. */
  lemma CloseNeedsNoTimer(c: Conn, steps: seq<Step>)
    requires Inv(c) && c.status == Connected && ValidRun(Next(c, Close), steps)
    ensures RunTimer !in steps
    ensures var d := Run(Next(c, Close), steps);
            && d.timers == 0 && !Enabled(d, RunTimer)
            && ((forall s | Internal(s) :: !Enabled(d, s)) ==> Over(d) && d.disconnects == 1 && d.closes == 1)
  {
    NextKeeps(c, Close);
    NoTimerComes(Next(c, Close), steps);
    EndsOver(Next(c, Close), steps);
  }

  ghost predicate NoTimer(c: Conn) {
    c.delayers == 0 && c.timers == 0
  }

  lemma FreshNoTimer(c: Conn)
    requires Fresh(c)
    ensures NoTimer(c) && NoTimer(Established(c))
  {
  }

  /** A timer comes from a delayed close of a connected connection, and only from that. */
  lemma {:induction false} NoTimerComes(c: Conn, steps: seq<Step>)
    requires Inv(c) && NoTimer(c) && ValidRun(c, steps)
    requires CloseWithDelay !in steps || (c.established && c.status != Connected)
    ensures NoTimer(Run(c, steps)) && RunTimer !in steps && !Enabled(Run(c, steps), RunTimer)
    decreases |steps|
  {
    if steps != [] {
      NextKeeps(c, steps[0]);
      NoTimerStep(c, steps[0]);
      assert steps == [steps[0]] + steps[1..];
      NoTimerComes(Next(c, steps[0]), steps[1..]);
    }
  }

  lemma NoTimerStep(c: Conn, s: Step)
    requires Inv(c) && NoTimer(c) && Enabled(c, s)
    ensures s != RunTimer
    ensures s != CloseWithDelay || c.status != Connected ==> NoTimer(Next(c, s))
    ensures c.established && c.status != Connected ==> Next(c, s).established && Next(c, s).status != Connected
  {
  }
}
