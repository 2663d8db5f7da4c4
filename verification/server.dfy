/**
 The server: accepting, removing connections, and shutting down, as steps of its event
 loop interleaved with all steps of the lives of its connections.

 Without worker threads every handler runs on the server's own loop, and nested ones in
 place; that they are not interleaved there is not used.  Asking all connections to close
 is one step, because the steps of different connections commute.
 */
module Servers {
  import Life = ConnLifecycle

  datatype Status = Running | Stopping | Stopped

  datatype SubStatus = NoSubStatus | StoppingListener | StoppingThreadPool

  datatype Server = Server(
    workers: bool,
    status: Status,
    substatus: SubStatus,
    accepting: bool,            // whether the acceptor is open
    accepts: nat,               // accept operations outstanding
    nextId: nat,
    conns: map<nat, Life.Conn>, // the registered connections
    removals: set<nat>,         // removals on their way to the server's loop
    stopQueued: nat,            // final stop handlers in the loop's queue
    stopRuns: nat,              // final stop handlers that have run, with the done callback
    poolStopped: bool)

  datatype Outcome = Accepted | Rejected | Failed | Aborted

  datatype Event =
    | Accept(outcome: Outcome)              // an accept operation completes
    | ConnStep(id: nat, step: Life.Step)    // a step in the life of a registered connection
    | Remove(id: nat)                       // the server's loop erases a closed connection
    | Stop                                  // the server's loop runs the stop request
    | StopSafe                              // the server's loop runs the final stop handler

  /** A new connection is registered; its loop establishes it, on the spot if that is the
      server's own. */
  function Registered(s: Server): Server {
    var id := s.nextId + 1;
    s.(nextId := id, conns := s.conns[id := if s.workers then Life.NewConn(id) else Life.Established(Life.NewConn(id))])
  }

  /** Erasing a connection queues the final stop when it was the last one to go. */
  function Removed(s: Server, id: nat): Server {
    var rest := s.conns - {id};
    s.(conns := rest, removals := s.removals - {id},
       stopQueued := s.stopQueued + if s.status == Stopping && rest == map[] then 1 else 0)
  }

  /** The close callback of a connection leads to its removal, through the server's loop. */
  function AfterConnStep(s: Server, id: nat, step: Life.Step): Server
    requires id in s.conns && Life.Enabled(s.conns[id], step)
  {
    var t := s.(conns := s.conns[id := Life.Next(s.conns[id], step)]);
    if !step.CloseCallback? then t
    else if s.workers then t.(removals := s.removals + {id})
    else Removed(t, id)
  }

  /** A connected connection is closed: the exchange is won and a handler posted. */
  function Asked(c: Life.Conn): Life.Conn {
    if c.status == Life.Connected then Life.Next(Life.Next(c, Life.Close), Life.ClosePost) else c
  }

  function AskAll(conns: map<nat, Life.Conn>): map<nat, Life.Conn> {
    map id | id in conns :: Asked(conns[id])
  }

  function AfterStop(s: Server): Server {
    var stopping := s.(status := Stopping, substatus := StoppingListener, accepting := false);
    if s.conns == map[] then stopping.(stopQueued := s.stopQueued + 1)
    else stopping.(conns := AskAll(s.conns))
  }

  /** Once the acceptor is closed, accepts complete as aborted, and only then. */
  ghost predicate Enabled(s: Server, e: Event) {
    match e
    case Accept(outcome) => s.accepts > 0 && (outcome == Aborted <==> !s.accepting)
    case ConnStep(id, step) => id in s.conns && Life.Enabled(s.conns[id], step)
    case Remove(id) => id in s.removals
    case Stop => s.status == Running
    case StopSafe => s.stopQueued > 0
  }

  /** A completed accept is followed by the next one unless it was aborted. */
  function Next(s: Server, e: Event): Server
    requires Enabled(s, e)
  {
    match e
    case Accept(outcome) =>
      if outcome == Accepted then Registered(s)
      else if outcome == Aborted then s.(accepts := s.accepts - 1)
      else s
    case ConnStep(id, step) => AfterConnStep(s, id, step)
    case Remove(id) => Removed(s, id)
    case Stop => AfterStop(s)
    case StopSafe =>
      s.(stopQueued := s.stopQueued - 1, stopRuns := s.stopRuns + 1, poolStopped := true,
         substatus := NoSubStatus, status := Stopped)
  }

  // ---------------------------------------------------------------------
  // Safety
  // ---------------------------------------------------------------------

  predicate Started(s: Server) {
    && s.status == Running && s.substatus == NoSubStatus && s.accepting && s.accepts == 1 && !s.poolStopped
    && s.conns == map[] && s.removals == {} && s.nextId == s.stopQueued == s.stopRuns == 0
  }

  /** Every registered connection is in a state its life can reach, and a removal is on its
      way for those whose close callback has run. */
  ghost predicate ConnsOk(s: Server) {
    && (forall id | id in s.conns :: 0 < id <= s.nextId && s.conns[id].id == id && Life.Inv(s.conns[id]))
    && (forall id | id in s.conns :: s.conns[id].closes == 1 <==> id in s.removals)
    && (forall id | id in s.removals :: id in s.conns)
    && (!s.workers ==> forall id | id in s.conns :: s.conns[id].established && s.conns[id].closes == 0)
    && (!s.workers && s.status != Running ==> forall id | id in s.conns :: s.conns[id].status != Life.Connected)
  }

  /** One accept is outstanding for as long as there is an acceptor; the final stop is
      queued once, when the map is empty and stays empty. */
  ghost predicate StopOk(s: Server) {
    && (s.accepting <==> s.status == Running)
    && s.accepts <= 1 && (s.accepting ==> s.accepts == 1)
    && s.substatus == (if s.status == Stopping then StoppingListener else NoSubStatus)
    && s.stopQueued == (if s.status == Stopping && s.conns == map[] then 1 else 0)
    && s.stopRuns == (if s.status == Stopped then 1 else 0)
    && s.poolStopped == (s.status == Stopped)
    && (s.status == Stopped ==> s.conns == map[])
  }

  ghost predicate Inv(s: Server) {
    ConnsOk(s) && StopOk(s)
  }

  lemma AskedKeeps(c: Life.Conn)
    requires Life.Inv(c)
    ensures Life.Inv(Asked(c)) && Asked(c).status != Life.Connected && Asked(c).closes == c.closes
    ensures Asked(c).established == c.established && Asked(c).id == c.id
  {
    if c.status == Life.Connected {
      Life.NextKeeps(c, Life.Close);
      Life.NextKeeps(Life.Next(c, Life.Close), Life.ClosePost);
    }
  }

  /** What a step in a connection's life means to the server. */
  lemma LifeStep(c: Life.Conn, step: Life.Step)
    requires Life.Inv(c) && Life.Enabled(c, step)
    ensures var d := Life.Next(c, step);
            && Life.Inv(d) && d.id == c.id && d.closes == c.closes + (if step.CloseCallback? then 1 else 0)
            && (c.established ==> d.established)
            && (c.established && c.status != Life.Connected ==> d.status != Life.Connected)
            && (step.CloseCallback? ==> c.closes == 0)
  {
    Life.NextKeeps(c, step);
    match step {
      case CloseCallback =>
      case _ =>
    }
  }

  lemma ConnsKept(s: Server, e: Event)
    requires Inv(s) && Enabled(s, e)
    ensures ConnsOk(Next(s, e))
  {
    hide Life.Inv, Life.Next, Life.Enabled, Asked, ConnsOk, StopOk, Removed, AfterConnStep, AfterStop, Registered;
    match e {
      case Accept(outcome) =>
        RegisteredKeeps(s);
        if outcome != Accepted {
          SameConns(s, Next(s, e));
        }
      case ConnStep(id, step) => ConnStepKeeps(s, id, step);
      case Remove(id) => RemovedKeeps(s, id);
      case Stop => AfterStopKeeps(s);
      case StopSafe =>
        SafeFacts(s);
        SameConns(s, Next(s, e));
    }
  }

  lemma SafeFacts(s: Server)
    requires StopOk(s) && s.stopQueued > 0
    ensures s.conns == map[] && s.status == Stopping && s.substatus == StoppingListener
  {
  }

  lemma SameConns(s: Server, t: Server)
    requires ConnsOk(s) && t.conns == s.conns && t.removals == s.removals && t.nextId == s.nextId
    requires t.workers == s.workers && (t.status == s.status || s.conns == map[])
    ensures ConnsOk(t)
  {
  }

  lemma RegisteredKeeps(s: Server)
    requires ConnsOk(s) && StopOk(s)
    ensures s.accepting ==> ConnsOk(Registered(s))
  {
    hide Life.Inv, Life.NewConn, Life.Established;
    Life.FreshFacts(Life.NewConn(s.nextId + 1));
  }

  lemma ConnStepKeeps(s: Server, id: nat, step: Life.Step)
    requires ConnsOk(s) && id in s.conns && Life.Enabled(s.conns[id], step)
    ensures ConnsOk(AfterConnStep(s, id, step))
  {
    hide Life.Inv, Life.Next, Life.Enabled;
    LifeStep(s.conns[id], step);
  }

  lemma RemovedKeeps(s: Server, id: nat)
    requires ConnsOk(s) && id in s.removals
    ensures ConnsOk(Removed(s, id))
  {
  }

  lemma AfterStopKeeps(s: Server)
    requires ConnsOk(s)
    ensures ConnsOk(AfterStop(s))
  {
    hide Life.Inv, Asked;
    forall id | id in s.conns
      ensures Life.Inv(Asked(s.conns[id])) && Asked(s.conns[id]).status != Life.Connected
              && Asked(s.conns[id]).closes == s.conns[id].closes
              && Asked(s.conns[id]).established == s.conns[id].established && Asked(s.conns[id]).id == id
    {
      AskedKeeps(s.conns[id]);
    }
  }

  lemma StopKept(s: Server, e: Event)
    requires Inv(s) && Enabled(s, e)
    ensures StopOk(Next(s, e))
  {
    hide Life.Inv, Life.Next, Life.Enabled, Asked;
    match e {
      case Accept(outcome) =>
      case ConnStep(id, step) =>
      case Remove(id) =>
      case Stop =>
      case StopSafe =>
    }
  }

  lemma NextKeeps(s: Server, e: Event)
    requires Inv(s) && Enabled(s, e)
    ensures Inv(Next(s, e))
  {
    ConnsKept(s, e);
    StopKept(s, e);
  }

  ghost predicate ValidRun(s: Server, events: seq<Event>)
    decreases |events|
  {
    events != [] ==> Enabled(s, events[0]) && ValidRun(Next(s, events[0]), events[1..])
  }

  function Run(s: Server, events: seq<Event>): Server
    requires ValidRun(s, events)
    decreases |events|
  {
    if events == [] then s else Run(Next(s, events[0]), events[1..])
  }

  /** Over every run, with or without workers: every registered connection is in a state of
      its life; one accept is outstanding while running, whatever the accepts before it came
      to, and at most one later; the final stop handler is queued at most
      once, in the sub-status it asserts, and only when no connection is registered and none
      can be any more. */
  lemma {:induction false} StopSafety(s: Server, events: seq<Event>)
    requires (Started(s) || Inv(s)) && ValidRun(s, events)
    ensures var t := Run(s, events);
            && Inv(t) && (forall id | id in t.conns :: Life.Inv(t.conns[id]))
            && t.accepts <= 1 && t.stopQueued + t.stopRuns <= 1
            && (t.stopQueued + t.stopRuns == 1 ==> t.conns == map[] && !t.accepting)
            && (t.stopQueued == 1 ==> t.status == Stopping && t.substatus == StoppingListener)
            && (t.status == Running ==> forall outcome | outcome != Aborted :: Enabled(t, Accept(outcome)))
    decreases |events|
  {
    hide Next;
    if events != [] {
      NextKeeps(s, events[0]);
      StopSafety(Next(s, events[0]), events[1..]);
    }
  }

  // ---------------------------------------------------------------------
  // Progress
  // ---------------------------------------------------------------------

  /** Handlers that are already on their way, as opposed to new calls and I/O. */
  ghost predicate Internal(e: Event) {
    match e
    case Accept(outcome) => outcome == Aborted
    case ConnStep(_, step) => Life.Internal(step) || step.Establish?
    case Remove(_) => true
    case Stop => false
    case StopSafe => true
  }

  ghost predicate Quiescent(s: Server) {
    forall e | Internal(e) :: !Enabled(s, e)
  }

  /** A call of close on a connection that is not connected, which does nothing. */
  ghost predicate NoEffect(s: Server, e: Event) {
    e.ConnStep? && e.id in s.conns && Life.NoEffect(s.conns[e.id], e.step)
  }

  ghost function Unestablished(s: Server): set<nat> {
    set id | id in s.conns && !s.conns[id].established
  }

  /** Nobody has asked to close it. */
  ghost predicate IsUnclosed(c: Life.Conn) {
    !c.established || c.status == Life.Connected
  }

  ghost function Unclosed(s: Server): set<nat> {
    set id | id in s.conns && IsUnclosed(s.conns[id])
  }

  /** The program or an I/O error closes one of them. */
  ghost predicate Closes(s: Server, e: Event) {
    e.ConnStep? && e.id in Unclosed(s) && (e.step.Close? || e.step.CloseWithDelay? || e.step.IoError?)
  }

  /** What is left of the lives of connections 1 to n, and of their removals. */
  function Sum(conns: map<nat, Life.Conn>, n: nat): nat {
    if n == 0 then 0 else Sum(conns, n - 1) + if n in conns then Life.Left(conns[n]) + 2 else 0
  }

  lemma {:induction false} SumUpdate(conns: map<nat, Life.Conn>, n: nat, id: nat, c: Life.Conn)
    requires id in conns && 0 < id
    ensures Sum(conns[id := c], n) == Sum(conns, n) + if id <= n then Life.Left(c) - Life.Left(conns[id]) else 0
    ensures Sum(conns - {id}, n) == Sum(conns, n) - if id <= n then Life.Left(conns[id]) + 2 else 0
  {
    if n > 0 {
      SumUpdate(conns, n - 1, id, c);
    }
  }

  function Work(s: Server): nat {
    Sum(s.conns, s.nextId) + s.stopQueued + s.accepts
  }

  /** Once stopping, everything that happens and has an effect brings the end of the work
      closer, and nothing adds to the connections nobody has asked to close. */
  lemma StepDecreases(s: Server, e: Event)
    requires Inv(s) && Enabled(s, e) && s.status != Running
    ensures var t := Next(s, e);
            && t.status != Running && t.workers == s.workers
            && (if NoEffect(s, e) then t == s else Work(t) < Work(s))
            && Unclosed(t) <= Unclosed(s) && (!Closes(s, e) ==> Unclosed(t) == Unclosed(s))
  {
    match e {
      case Accept(outcome) =>
        assert outcome == Aborted;
        assert Unclosed(Next(s, e)) == Unclosed(s);
      case ConnStep(id, step) => ConnStepDecreases(s, id, step);
      case Remove(id) => RemoveDecreases(s, id);
      case StopSafe =>
        assert Unclosed(Next(s, e)) == Unclosed(s);
      case Stop =>
    }
  }

  lemma RemoveDecreases(s: Server, id: nat)
    requires Inv(s) && id in s.removals
    ensures Work(Removed(s, id)) < Work(s) && Unclosed(Removed(s, id)) == Unclosed(s)
  {
    SumUpdate(s.conns, s.nextId, id, s.conns[id]);
    var c := s.conns[id];
    assert Life.Inv(c) && c.closes == 1;
    assert c.established && c.status != Life.Connected;
  }

  lemma ConnStepDecreases(s: Server, id: nat, step: Life.Step)
    requires Inv(s) && id in s.conns && Life.Enabled(s.conns[id], step)
    ensures var t, e := AfterConnStep(s, id, step), ConnStep(id, step);
            && t.status == s.status && t.workers == s.workers
            && (if NoEffect(s, e) then t == s else Work(t) < Work(s))
            && Unclosed(t) <= Unclosed(s) && (!Closes(s, e) ==> Unclosed(t) == Unclosed(s))
  {
    hide Life.Inv, Life.Next, Life.Enabled, Life.Left;
    var c := s.conns[id];
    var d := Life.Next(c, step);
    Life.LeftDecreases(c, step);
    UnclosedStep(c, step);
    SumUpdate(s.conns, s.nextId, id, d);
    SumUpdate(s.conns[id := d], s.nextId, id, d);
    if NoEffect(s, ConnStep(id, step)) {
      assert s.conns[id := d] == s.conns;
    }
  }

  /** A life step opens no connection, and closes one only as `Closes` says. */
  lemma UnclosedStep(c: Life.Conn, step: Life.Step)
    requires Life.Inv(c) && Life.Enabled(c, step)
    ensures var d := Life.Next(c, step);
            && (IsUnclosed(d) ==> IsUnclosed(c))
            && (IsUnclosed(c) && !step.Close? && !step.CloseWithDelay? && !step.IoError? ==> IsUnclosed(d))
            && (step.CloseCallback? ==> !IsUnclosed(c))
            && (Life.NoEffect(c, step) ==> !step.CloseCallback?)
  {
    match step {
      case RunPosted =>
      case RunTimer =>
      case CloseCallback =>
      case Finish =>
      case _ =>
    }
  }

  /** The number of events of a run that have an effect. */
  ghost function Effective(s: Server, events: seq<Event>): nat
    requires ValidRun(s, events)
    decreases |events|
  {
    if events == [] then 0
    else (if NoEffect(s, events[0]) then 0 else 1) + Effective(Next(s, events[0]), events[1..])
  }

  ghost predicate ClosesSome(s: Server, events: seq<Event>)
    requires ValidRun(s, events)
    decreases |events|
  {
    events != [] && (Closes(s, events[0]) || ClosesSome(Next(s, events[0]), events[1..]))
  }

  lemma {:induction false} StoppingRuns(s: Server, events: seq<Event>)
    requires Inv(s) && s.status != Running && ValidRun(s, events)
    ensures var t := Run(s, events);
            && Inv(t) && t.status != Running && Effective(s, events) + Work(t) <= Work(s)
            && Unclosed(t) <= Unclosed(s) && (!ClosesSome(s, events) ==> Unclosed(t) == Unclosed(s))
    decreases |events|
  {
    hide Inv, Next, Enabled, Work, Unclosed, Closes, NoEffect;
    if events != [] {
      NextKeeps(s, events[0]);
      StepDecreases(s, events[0]);
      StoppingRuns(Next(s, events[0]), events[1..]);
    }
  }

  /** With no handler on its way, the only connections left are those nobody has asked to
      close. */
  lemma QuiescentEnd(s: Server)
    requires Inv(s) && s.status != Running && Quiescent(s)
    ensures s.status == Stopped <==> Unclosed(s) == {}
    ensures s.conns.Keys == Unclosed(s)
  {
    assert Internal(StopSafe);
    forall id | id in s.conns
      ensures id in Unclosed(s)
    {
      QuiescentConn(s, id);
    }
    assert s.conns.Keys == Unclosed(s);
    if s.conns != map[] {
      var id :| id in s.conns;
      assert id in Unclosed(s);
    }
  }

  lemma QuiescentConn(s: Server, id: nat)
    requires Inv(s) && Quiescent(s) && id in s.conns
    ensures s.conns[id].established && s.conns[id].status == Life.Connected
  {
    hide Life.Inv, Life.Enabled;
    var c := s.conns[id];
    assert Internal(ConnStep(id, Life.Establish)) && Internal(Remove(id));
    assert !Life.Enabled(c, Life.Establish);
    Life.EstablishEnabled(c);
    forall step | Life.Internal(step)
      ensures !Life.Enabled(c, step)
    {
      assert Internal(ConnStep(id, step));
    }
    Life.NoCloseIsLost(c);
  }

  /** After a stop request, whatever happens, calls of close and I/O errors included: the
      events that have an effect are bounded in number, and when no handler is on its way
      any more the server has stopped, with the done callback run once and the thread pool
      stopped, if and only if every connection has been asked to close.  That is so if no
      connection was still to be established when the request ran, and, unless the program
      or an error closes one later, only if. */
  lemma StopCompletes(s: Server, events: seq<Event>)
    requires Inv(s) && s.status == Running && ValidRun(AfterStop(s), events)
    ensures Effective(AfterStop(s), events) <= Work(AfterStop(s))
    ensures var t := Run(AfterStop(s), events);
            Quiescent(t) ==>
              && (t.status == Stopped <==> Unclosed(t) == {})
              && (Unestablished(s) == {} ==> t.status == Stopped)
              && (!ClosesSome(AfterStop(s), events) ==> (t.status == Stopped <==> Unestablished(s) == {}))
              && (t.status == Stopped ==> t.stopRuns == 1 && t.poolStopped && t.conns == map[])
  {
    NextKeeps(s, Stop);
    StoppingRuns(AfterStop(s), events);
    UnclosedAfterStop(s);
    if Quiescent(Run(AfterStop(s), events)) {
      QuiescentEnd(Run(AfterStop(s), events));
    }
  }

  lemma UnclosedAfterStop(s: Server)
    requires Inv(s)
    ensures Unclosed(AfterStop(s)) == Unestablished(s)
  {
    hide Life.Inv, Asked;
    forall id | id in s.conns
      ensures Asked(s.conns[id]).status != Life.Connected && Asked(s.conns[id]).established == s.conns[id].established
    {
      AskedKeeps(s.conns[id]);
    }
    assert forall id :: id in AfterStop(s).conns <==> id in s.conns;
  }

  /** Without worker threads it always completes. */
  lemma StopCompletesWithoutWorkers(s: Server, events: seq<Event>)
    requires Inv(s) && s.status == Running && !s.workers && ValidRun(AfterStop(s), events)
    requires Quiescent(Run(AfterStop(s), events))
    ensures Run(AfterStop(s), events).status == Stopped
  {
    StopCompletes(s, events);
    assert Unestablished(s) == {};
  }

  // ---------------------------------------------------------------------
  // Stopping closes at once
  // ---------------------------------------------------------------------

  ghost predicate NoTimers(s: Server) {
    forall id | id in s.conns :: Life.NoTimer(s.conns[id])
  }

  /** The program closes a connection with a delay. */
  ghost predicate Delays(e: Event) {
    e.ConnStep? && e.step.CloseWithDelay?
  }

  lemma NoTimersStep(s: Server, e: Event)
    requires Inv(s) && NoTimers(s) && Enabled(s, e) && !Delays(e)
    ensures NoTimers(Next(s, e)) && !(e.ConnStep? && e.step.RunTimer?)
  {
    hide Life.Inv, Life.Next, Life.Enabled, Life.NoTimer, Life.NewConn, Life.Established, Asked;
    match e {
      case Accept(outcome) => Life.FreshNoTimer(Life.NewConn(s.nextId + 1));
      case ConnStep(id, step) => Life.NoTimerStep(s.conns[id], step);
      case Stop =>
        forall id | id in s.conns
          ensures Life.NoTimer(Asked(s.conns[id]))
        {
          AskedNoTimer(s.conns[id]);
        }
      case _ =>
    }
  }

  /** Stopping posts the closing handler, in a queue of the connection's loop; it arms no
      timer, and the socket is closed by that handler only. */
  lemma AskedNoTimer(c: Life.Conn)
    requires Life.Inv(c)
    ensures Life.NoTimer(c) ==> Life.NoTimer(Asked(c))
    ensures c.status == Life.Connected ==> Asked(c).posted == 1 && Asked(c).closers == 0
    ensures Asked(c).at == c.at && Asked(c).socketOpen == c.socketOpen && Asked(c).disconnects == c.disconnects
  {
  }

  /** If the program never closes with a delay, no timer is pending in any state a server
      can reach, before a stop or after it: stopping needs none to run. */
  lemma {:induction false} NoTimerWithoutDelay(s: Server, events: seq<Event>)
    requires (Started(s) || (Inv(s) && NoTimers(s))) && ValidRun(s, events)
    requires forall i | 0 <= i < |events| :: !Delays(events[i])
    ensures Inv(Run(s, events)) && NoTimers(Run(s, events))
    ensures forall i | 0 <= i < |events| :: !(events[i].ConnStep? && events[i].step.RunTimer?)
    ensures forall id :: !Enabled(Run(s, events), ConnStep(id, Life.RunTimer))
    decreases |events|
  {
    hide Next;
    if events != [] {
      NextKeeps(s, events[0]);
      NoTimersStep(s, events[0]);
      NoTimerWithoutDelay(Next(s, events[0]), events[1..]);
    }
  }

  /** A stopped server that was never closed with a delay has stopped without a timer: over
      every such run that stops and has no handler on its way any more, no timer has run, and
      the server has stopped if none of its connections was still to be established. */
  lemma StopNeedsNoTimer(s: Server, before: seq<Event>, after: seq<Event>)
    requires Started(s) && ValidRun(s, before) && Run(s, before).status == Running
    requires ValidRun(AfterStop(Run(s, before)), after) && Quiescent(Run(AfterStop(Run(s, before)), after))
    requires forall e | e in before || e in after :: !Delays(e)
    ensures forall e | e in before || e in after :: !(e.ConnStep? && e.step.RunTimer?)
    ensures Unestablished(Run(s, before)) == {} ==> Run(AfterStop(Run(s, before)), after).status == Stopped
  {
    hide Next, AfterStop, Quiescent;
    NoTimerWithoutDelay(s, before);
    var t := Run(s, before);
    StopIsNext(t);
    NextKeeps(t, Stop);
    NoTimersStep(t, Stop);
    NoTimerWithoutDelay(AfterStop(t), after);
    StopCompletes(t, after);
  }

  lemma StopIsNext(s: Server)
    requires s.status == Running
    ensures Enabled(s, Stop) && Next(s, Stop) == AfterStop(s)
  {
  }

  // ---------------------------------------------------------------------
  // Registration
  // ---------------------------------------------------------------------

  /** How many connections were accepted and verified. */
  function AcceptedCount(events: seq<Event>): nat {
    if events == [] then 0 else (if events[0] == Accept(Accepted) then 1 else 0) + AcceptedCount(events[1..])
  }

  /** Whether the close callback of a connection has run. */
  ghost predicate HasClosed(events: seq<Event>, id: nat) {
    ConnStep(id, Life.CloseCallback) in events
  }

  /** Registered, and its close callback has not run. */
  ghost predicate Present(s: Server, id: nat) {
    id in s.conns && s.conns[id].closes == 0
  }

  /** Over every run: the connections numbered are those accepted, and one of them is
      registered and not closed if and only if its close callback has not run. */
  lemma {:induction false} RegisteredUntilClosed(s: Server, events: seq<Event>, id: nat)
    requires Inv(s) && ValidRun(s, events)
    ensures Run(s, events).nextId == s.nextId + AcceptedCount(events)
    ensures Present(Run(s, events), id)
            <==> (Present(s, id) || s.nextId < id <= s.nextId + AcceptedCount(events)) && !HasClosed(events, id)
    decreases |events|
  {
    hide *;
    if events == [] {
      NothingRegistered(s, id);
    } else {
      var e, rest := events[0], events[1..];
      RunCons(s, events);
      NextKeeps(s, e);
      PresentStep(s, e, id);
      RegisteredUntilClosed(Next(s, e), rest, id);
      HasClosedCons(events, id);
    }
  }

  lemma RunCons(s: Server, events: seq<Event>)
    requires ValidRun(s, events) && events != []
    ensures Enabled(s, events[0]) && ValidRun(Next(s, events[0]), events[1..])
    ensures Run(s, events) == Run(Next(s, events[0]), events[1..])
    ensures AcceptedCount(events) == (if events[0] == Accept(Accepted) then 1 else 0) + AcceptedCount(events[1..])
  {
  }

  lemma NothingRegistered(s: Server, id: nat)
    ensures ValidRun(s, []) && Run(s, []) == s && AcceptedCount([]) == 0 && !HasClosed([], id)
  {
  }

  lemma HasClosedCons(events: seq<Event>, id: nat)
    requires events != []
    ensures HasClosed(events, id) <==> events[0] == ConnStep(id, Life.CloseCallback) || HasClosed(events[1..], id)
  {
    assert events == [events[0]] + events[1..];
  }

  lemma PresentStep(s: Server, e: Event, id: nat)
    requires Inv(s) && Enabled(s, e)
    ensures Next(s, e).nextId == s.nextId + if e == Accept(Accepted) then 1 else 0
    ensures Present(s, id) ==> id <= s.nextId
    ensures e == ConnStep(id, Life.CloseCallback) ==> Present(s, id)
    ensures Present(Next(s, e), id)
            <==> (Present(s, id) && e != ConnStep(id, Life.CloseCallback)) || (e == Accept(Accepted) && id == s.nextId + 1)
  {
    hide Life.Inv, Life.Next, Life.Enabled, Life.NewConn, Life.Established, Asked;
    match e {
      case Accept(outcome) => Life.FreshFacts(Life.NewConn(s.nextId + 1));
      case ConnStep(i, step) => LifeStep(s.conns[i], step);
      case Stop =>
        forall i | i in s.conns
          ensures Asked(s.conns[i]).closes == s.conns[i].closes
        {
          AskedKeeps(s.conns[i]);
        }
      case _ =>
    }
  }

  // ---------------------------------------------------------------------
  // Stalling
  // ---------------------------------------------------------------------

  /** With workers it can stall: a connection accepted but not yet established when the
      stop request runs is not closed by it, and stays. */
  lemma StopCanStall(s: Server)
    requires Started(s) && s.workers
    ensures var events := [Accept(Accepted), Stop, Accept(Aborted), ConnStep(1, Life.Establish), ConnStep(1, Life.ConnectCallbackDone)];
            && ValidRun(s, events)
            && var t := Run(s, events);
               t.status == Stopping && t.conns.Keys == {1} && t.conns[1].status == Life.Connected && Quiescent(t)
  {
    hide *;
    var c := Life.NewConn(1);
    StallAccepts(s, c);
    var a := s.(nextId := 1, conns := map[1 := c]);
    var b := a.(status := Stopping, substatus := StoppingListener, accepting := false);
    var d := b.(accepts := 0);
    var e := d.(conns := map[1 := Life.Established(c)]);
    var t := d.(conns := map[1 := Life.Established(c).(at := Life.Idle)]);
    StallEstablishes(d, c);
    StallRests(t, c);
    var e5 := [ConnStep(1, Life.ConnectCallbackDone)];
    var e4 := [ConnStep(1, Life.Establish)] + e5;
    var e3 := [Accept(Aborted)] + e4;
    var e2 := [Stop] + e3;
    RunOne(e, ConnStep(1, Life.ConnectCallbackDone), []);
    assert e5 == [ConnStep(1, Life.ConnectCallbackDone)] + [];
    RunOne(d, ConnStep(1, Life.Establish), e5);
    RunOne(b, Accept(Aborted), e4);
    RunOne(a, Stop, e3);
    RunOne(s, Accept(Accepted), e2);
    assert [Accept(Accepted)] + e2 == [Accept(Accepted), Stop, Accept(Aborted), ConnStep(1, Life.Establish),
                                       ConnStep(1, Life.ConnectCallbackDone)];
  }

  lemma StallAccepts(s: Server, c: Life.Conn)
    requires Started(s) && s.workers && c == Life.NewConn(1)
    ensures Life.Fresh(c) && s.stopQueued == 0 && s.removals == {}
    ensures var a := s.(nextId := 1, conns := map[1 := c]);
            var b := a.(status := Stopping, substatus := StoppingListener, accepting := false);
            && Enabled(s, Accept(Accepted)) && Next(s, Accept(Accepted)) == a
            && Enabled(a, Stop) && Next(a, Stop) == b
            && Enabled(b, Accept(Aborted)) && Next(b, Accept(Aborted)) == b.(accepts := 0)
  {
    hide Life.NewConn;
    assert Life.Fresh(c);
    var a := s.(nextId := 1, conns := map[1 := c]);
    assert s.conns[1 := c] == map[1 := c];
    assert 1 in a.conns && a.conns != map[] && Asked(c) == c;
    assert AskAll(a.conns) == map[1 := c];
  }

  lemma StallEstablishes(s: Server, c: Life.Conn)
    requires s.conns == map[1 := c] && Life.Fresh(c)
    ensures var t := s.(conns := map[1 := Life.Established(c)]);
            && Enabled(s, ConnStep(1, Life.Establish)) && Next(s, ConnStep(1, Life.Establish)) == t
            && Enabled(t, ConnStep(1, Life.ConnectCallbackDone))
            && Next(t, ConnStep(1, Life.ConnectCallbackDone)) == s.(conns := map[1 := Life.Established(c).(at := Life.Idle)])
  {
  }

  lemma StallRests(t: Server, c: Life.Conn)
    requires Life.Fresh(c) && t.conns == map[1 := Life.Established(c).(at := Life.Idle)]
    requires t.status == Stopping && t.accepts == t.stopQueued == 0 && t.removals == {}
    ensures ValidRun(t, []) && Run(t, []) == t && Quiescent(t)
    ensures t.conns.Keys == {1} && t.conns[1].status == Life.Connected
  {
  }

  lemma RunOne(s: Server, e: Event, rest: seq<Event>)
    requires Enabled(s, e)
    ensures [e] + rest != [] && ([e] + rest)[1..] == rest
    ensures ValidRun(s, [e] + rest) <==> ValidRun(Next(s, e), rest)
    ensures ValidRun(s, [e] + rest) ==> Run(s, [e] + rest) == Run(Next(s, e), rest)
  {
    assert ([e] + rest)[1..] == rest;
  }

  // ---------------------------------------------------------------------
  // The handlers
  // ---------------------------------------------------------------------

  class TCPServer {
    const workers: bool
    var status: Status
    var substatus: SubStatus
    var acceptor: bool                 // whether the acceptor exists
    var accepts: nat                   // accept operations outstanding
    var nextConnId: nat
    var connections: map<nat, Life.Conn>
    var removals: set<nat>             // removals posted to the loop
    var queued: nat                    // final stop handlers in the loop's queue
    var stopped: nat                   // final stop handlers run
    var poolStopped: bool

    /** A server that has been started. */
    constructor (workers: bool)
      ensures this.workers == workers && Started(State())
    {
      this.workers := workers;
      status, substatus, acceptor, accepts := Running, NoSubStatus, true, 1;
      nextConnId, connections, removals := 0, map[], {};
      queued, stopped, poolStopped := 0, 0, false;
    }

    ghost function State(): Server
      reads this
    {
      Server(workers, status, substatus, acceptor, accepts, nextConnId, connections, removals, queued, stopped, poolStopped)
    }

    method DoAccept()
      requires acceptor
      modifies `accepts
      ensures accepts == old(accepts) + 1
    {
      accepts := accepts + 1;
    }

    /** An accept operation has completed: a connection whose address is verified is
        registered under a number no other has had, and unless it was aborted the next
        accept is started, on an acceptor that exists. */
    method NewConnection(outcome: Outcome)
      requires Inv(State()) && Enabled(State(), Accept(outcome))
      modifies this
      ensures Inv(State()) && State() == Next(old(State()), Accept(outcome))
      ensures outcome == Accepted ==> nextConnId in connections && nextConnId !in old(connections)
      ensures accepts == if outcome == Aborted then 0 else 1
    {
      hide *;
      StateIs();
      AcceptCases(State(), outcome);
      NextKeeps(State(), Accept(outcome));
      accepts := accepts - 1;
      if outcome == Accepted {
        nextConnId := nextConnId + 1;
        var conn := Life.NewConn(nextConnId);
        connections := connections[nextConnId := conn];
        if !workers {
          connections := connections[nextConnId := Life.Established(conn)];
        }
        assert connections == old(connections)[nextConnId := if workers then conn else Life.Established(conn)];
      }
      if outcome != Aborted {
        DoAccept();
      }
      StateIs();
    }

    lemma StateIs()
      ensures State() == Server(workers, status, substatus, acceptor, accepts, nextConnId, connections, removals, queued,
                                stopped, poolStopped)
    {
    }

    /** The close callback of a connection: its removal runs in the server's loop. */
    method RemoveConnection(id: nat)
      requires Inv(State()) && Enabled(State(), ConnStep(id, Life.CloseCallback))
      modifies this
      ensures Inv(State()) && State() == Next(old(State()), ConnStep(id, Life.CloseCallback))
      ensures workers ==> id in connections && id in removals
      ensures !workers ==> id !in connections && (queued > old(queued) <==> status == Stopping && connections == map[])
    {
      NextKeeps(State(), ConnStep(id, Life.CloseCallback));
      connections := connections[id := Life.Next(connections[id], Life.CloseCallback)];
      if workers {
        removals := removals + {id};
      } else {
        Erase(id);
      }
    }

    /** Erases a connection; after the last one of a stopping server the final stop is
        queued. */
    method Erase(id: nat)
      modifies this
      ensures State() == Removed(old(State()), id)
      ensures id !in connections && (queued > old(queued) <==> status == Stopping && connections == map[])
    {
      connections := connections - {id};
      removals := removals - {id};
      if status == Stopping && connections == map[] {
        queued := queued + 1;
      }
    }

    /** A posted removal runs. */
    method RunRemoval(id: nat)
      requires Inv(State()) && id in removals
      modifies this
      ensures Inv(State()) && State() == Next(old(State()), Remove(id))
    {
      NextKeeps(State(), Remove(id));
      Erase(id);
    }

    method StopInLoop()
      requires Inv(State()) && status == Running
      modifies this
      ensures Inv(State()) && State() == Next(old(State()), Stop)
      ensures forall id | id in connections :: connections[id].status != Life.Connected
    {
      hide *;
      StateIs();
      StopCases(State());
      NextKeeps(State(), Stop);
      status := Stopping;
      substatus := StoppingListener;
      acceptor := false;
      if connections == map[] {
        queued := queued + 1;
      } else {
        CloseConnected();
      }
      StateIs();
    }

    /** Closes every connection that is connected. */
    method CloseConnected()
      modifies `connections
      ensures connections == AskAll(old(connections))
    {
      var todo := connections.Keys;
      while todo != {}
        invariant connections.Keys == old(connections).Keys && todo <= connections.Keys
        invariant forall id | id in connections ::
                    connections[id] == if id in todo then old(connections)[id] else Asked(old(connections)[id])
        decreases todo
      {
        var id :| id in todo;
        var conn := connections[id];
        if conn.status == Life.Connected {
          connections := connections[id := Life.Next(Life.Next(conn, Life.Close), Life.ClosePost)];
        }
        todo := todo - {id};
      }
    }

    /** The final stop: its assertion on the sub-status holds. */
    method StopInloopSafe()
      requires Inv(State()) && queued > 0
      modifies this
      ensures Inv(State()) && State() == Next(old(State()), StopSafe)
      ensures connections == map[] && poolStopped && status == Stopped && stopped == 1 && queued == 0
    {
      NextKeeps(State(), StopSafe);
      assert substatus == StoppingListener;
      queued := queued - 1;
      StopThreadPool();
      stopped := stopped + 1;
      status := Stopped;
    }

    method StopThreadPool()
      requires status == Stopping && !poolStopped
      modifies `substatus, `poolStopped
      ensures substatus == NoSubStatus && poolStopped
    {
      substatus := StoppingThreadPool;
      poolStopped := true;
      substatus := NoSubStatus;
    }
  }

  lemma AcceptCases(s: Server, outcome: Outcome)
    requires Inv(s) && Enabled(s, Accept(outcome))
    ensures s.accepts == 1 && s.nextId + 1 !in s.conns && (outcome != Aborted ==> s.accepting)
    ensures var conn := Life.NewConn(s.nextId + 1);
            var c := if s.workers then conn else Life.Established(conn);
            Next(s, Accept(outcome)) == match outcome
              case Accepted => s.(nextId := s.nextId + 1, conns := s.conns[s.nextId + 1 := c])
              case Aborted => s.(accepts := 0)
              case _ => s
  {
    hide Life.NewConn, Life.Established, Life.Inv;
  }

  lemma StopCases(s: Server)
    requires Inv(s) && s.status == Running
    ensures var stopping := s.(status := Stopping, substatus := StoppingListener, accepting := false);
            Next(s, Stop) == if s.conns == map[] then stopping.(stopQueued := s.stopQueued + 1)
                             else stopping.(conns := AskAll(s.conns))
    ensures Enabled(s, Stop) && forall id | id in Next(s, Stop).conns :: Next(s, Stop).conns[id].status != Life.Connected
  {
    hide Asked, Life.Inv;
    forall id | id in s.conns
      ensures Asked(s.conns[id]).status != Life.Connected
    {
      AskedKeeps(s.conns[id]);
    }
  }
}
