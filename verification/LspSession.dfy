/**
 * The editor's LSP session protocol (src/hooks/useAsterLSP.ts): one current WebSocket, requests by
 * id, late events of dead sessions, timeouts and reconnects, interleaved in any order.
 */
module LspSession {
  import opened Outcomes
  import opened Sorting

  type Socket = nat

  datatype Status =
    | StatusIdle
    | StatusConnecting
    | StatusConnected
    | StatusReconnecting
    | StatusTooManySessions
    | StatusDisconnected

  /** How a request's promise was settled. */
  datatype How =
    | Resolved(via: Socket)
    | Refused(via: Socket)
    | TimedOut
    | ConnectionClosed(sock: Socket)
    | ClientDisconnected

  datatype Settlement = Settlement(id: nat, how: How)

  /**
   * The refs and the React state of the hook, what it can ask its sockets, and the history of the run.
   * `pending` lists the keys of the request map in insertion order.
   */
  datatype State = State(
    // refs and state
    current: Option<Socket>, requestId: nat, pending: seq<nat>, disposed: bool, idleClosed: bool,
    connected: bool, status: Status,
    // the sockets: 0 .. created - 1 exist
    created: nat, open: set<Socket>, closed: set<Socket>, detached: set<Socket>,
    // history
    sentOn: map<nat, Socket>, settled: seq<Settlement>, failedCalls: seq<Socket>)

  const START := State(None, 0, [], false, false, false, StatusIdle, 0, {}, {}, {}, map[], [], [])

  datatype Message = Reply(id: int, isError: bool) | ServerRequest | Notification

  datatype Event =
    | Connect                                               // `connect` goes on after fetching its ticket
    | Opened(ws: Socket)                                    // the browser reports an open socket
    | OpenFailed(ws: Socket)                                // `onerror` or the ten-second timer while opening
    | Initialized(ws: Socket)                               // `initializeLSP` returned
    | InitializeFailed(ws: Socket)                          // `initializeLSP` threw
    | Closed(ws: Socket, idle: bool, waiting: Status)       // `onclose`; `idle` for close code 4408
    | Received(ws: Socket, message: Message)                // `onmessage`
    | Send                                                  // `sendRequest`
    | Timeout(id: nat)                                      // a request's timer
    | HeartbeatTimeout(ws: Socket)                          // the heartbeat's rejection handler, after a timeout
    | UserActivity(hidden: bool)                            // `resume`
    | SchedulerStopped                                      // `onPause` / `onGiveUp`
    | Disconnect
    | Mount
    | Unmount

  // ---------------------------------------------------------------- the steps on values

  function Without(ids: seq<nat>, id: nat): (r: seq<nat>)
    ensures forall x :: x in r <==> x in ids && x != id
  {
    if ids == [] then []
    else if ids[0] == id then Without(ids[1..], id)
    else [ids[0]] + Without(ids[1..], id)
  }

  function AllSettled(ids: seq<nat>, how: How): (r: seq<Settlement>)
    ensures |r| == |ids| && forall i :: 0 <= i < |r| ==> r[i] == Settlement(ids[i], how)
  {
    seq(|ids|, i requires 0 <= i < |ids| => Settlement(ids[i], how))
  }

  function Settle(s: State, id: nat, how: How): State {
    s.(pending := Without(s.pending, id), settled := s.settled + [Settlement(id, how)])
  }

  function RejectAll(s: State, how: How): State {
    s.(pending := [], settled := s.settled + AllSettled(s.pending, how))
  }

  /** `dropSession` on the current socket. */
  function Drop(s: State, ws: Socket): State {
    RejectAll(s.(current := None, connected := false, detached := s.detached + {ws},
                 closed := s.closed + {ws}, open := s.open - {ws}), ConnectionClosed(ws))
  }

  function SessionIdle(s: State, ws: Socket, autoReconnect: bool): State {
    if s.current != Some(ws) then s
    else Drop(s, ws).(status := StatusIdle, idleClosed := !s.disposed && autoReconnect)
  }

  function SessionFailed(s: State, ws: Socket, waiting: Status, autoReconnect: bool): State {
    if s.current != Some(ws) then s
    else if s.disposed || !autoReconnect then Drop(s, ws).(status := StatusDisconnected)
    else Drop(s, ws).(status := waiting, failedCalls := s.failedCalls + [ws])
  }

  function Connected(s: State): State {
    if s.disposed || s.current.Some? then s
    else s.(current := Some(s.created), created := s.created + 1, idleClosed := false,
            status := if s.status in {StatusIdle, StatusConnecting} then StatusConnecting else StatusReconnecting)
  }

  function Disconnected(s: State): State {
    var s' := if s.current.Some?
              then s.(current := None, closed := s.closed + {s.current.value}, open := s.open - {s.current.value})
              else s;
    RejectAll(s', ClientDisconnected).(idleClosed := false, connected := false, status := StatusIdle)
  }

  function Handled(s: State, ws: Socket, m: Message): State {
    if s.current == Some(ws) && m.Reply? && m.id in s.pending
    then Settle(s, m.id, if m.isError then Refused(ws) else Resolved(ws)) else s
  }

  function Sent(s: State): State {
    if s.current.Some? && s.current.value in s.open
    then s.(requestId := s.requestId + 1, pending := s.pending + [s.requestId + 1],
            sentOn := s.sentOn[s.requestId + 1 := s.current.value])
    else s
  }

  function Expired(s: State, id: nat): State { if id in s.pending then Settle(s, id, TimedOut) else s }

  function Next(s: State, e: Event, autoReconnect: bool): State {
    match e
    case Connect => Connected(s)
    case Opened(ws) => if ws < s.created && ws !in s.closed then s.(open := s.open + {ws}) else s
    case OpenFailed(ws) => SessionFailed(s, ws, StatusReconnecting, autoReconnect)
    case Initialized(ws) => if s.current == Some(ws) then s.(connected := true, status := StatusConnected) else s
    case InitializeFailed(ws) => SessionFailed(s, ws, StatusReconnecting, autoReconnect)
    case Closed(ws, idle, waiting) =>
      var s' := s.(open := s.open - {ws});
      if ws in s.detached then s'
      else if idle then SessionIdle(s', ws, autoReconnect)
      else SessionFailed(s', ws, waiting, autoReconnect)
    case Received(ws, m) => Handled(s, ws, m)
    case Send => Sent(s)
    case Timeout(id) => Expired(s, id)
    case HeartbeatTimeout(ws) => SessionFailed(s, ws, StatusReconnecting, autoReconnect)
    case UserActivity(hidden) => if s.idleClosed && !hidden then s.(idleClosed := false) else s
    case SchedulerStopped => s.(status := StatusDisconnected)
    case Disconnect => Disconnected(s)
    case Mount => s.(disposed := false)
    case Unmount => Disconnected(s.(disposed := true))
  }

  /** An event together with the value that the `autoReconnect` property has when it is handled. */
  datatype Step = Step(event: Event, autoReconnect: bool)

  function Run(s: State, steps: seq<Step>): State
    decreases |steps|
  {
    if steps == [] then s else Run(Next(s, steps[0].event, steps[0].autoReconnect), steps[1..])
  }

  // ---------------------------------------------------------------- the invariant

  function SettledIds(s: State): (ids: seq<nat>)
    ensures |ids| == |s.settled| && forall i :: 0 <= i < |ids| ==> ids[i] == s.settled[i].id
  {
    seq(|s.settled|, i requires 0 <= i < |s.settled| => s.settled[i].id)
  }

  /** Sockets: a live one is the current one, and the flags agree with it. */
  ghost predicate SocketInv(s: State) {
    && (s.current.Some? ==> s.current.value < s.created && s.current.value !in s.closed)
    && (forall ws: Socket :: ws < s.created && s.current != Some(ws) ==> ws in s.closed)
    && s.open !! s.closed
    && (forall ws :: ws in s.detached ==> ws in s.closed)
    && (forall ws :: ws in s.closed ==> ws < s.created)
    && (s.connected ==> s.current.Some?)
    && (s.idleClosed ==> s.current.None?)
    && Distinct(s.failedCalls)
    && (forall ws :: ws in s.failedCalls ==> ws in s.closed)
  }

  /** Requests: every id handed out is either pending, on the current socket, or settled once. */
  ghost predicate RequestInv(s: State) {
    && (s.current.None? ==> s.pending == [])
    && Distinct(s.pending)
    && Distinct(SettledIds(s))
    && (forall id: nat :: 1 <= id <= s.requestId <==> id in s.sentOn)
    && (forall id :: id in s.sentOn <==> id in s.pending || id in SettledIds(s))
    && (forall id :: id in s.pending ==> id !in SettledIds(s) && s.current == Some(s.sentOn[id]))
    && (forall i :: 0 <= i < |s.settled| ==> SettledRightly(s.settled[i], s.sentOn))
  }

  /** A reply settles a request only on the socket the request went out on; so does the end of a session. */
  predicate SettledRightly(t: Settlement, sentOn: map<nat, Socket>) {
    t.id in sentOn &&
    match t.how
    case Resolved(via) => via == sentOn[t.id]
    case Refused(via) => via == sentOn[t.id]
    case ConnectionClosed(sock) => sock == sentOn[t.id]
    case _ => true
  }

  ghost predicate Inv(s: State) { SocketInv(s) && RequestInv(s) }

  // ---------------------------------------------------------------- every step keeps it

  lemma {:induction false} WithoutDistinct(ids: seq<nat>, id: nat)
    requires Distinct(ids)
    ensures Distinct(Without(ids, id))
  {
    if ids != [] {
      WithoutDistinct(ids[1..], id);
      var rest := Without(ids[1..], id);
      forall j | 0 <= j < |rest| ensures rest[j] != ids[0] {
        assert rest[j] in ids[1..];
      }
    }
  }

  lemma SettleKeeps(s: State, id: nat, how: How)
    requires RequestInv(s) && id in s.pending && SettledRightly(Settlement(id, how), s.sentOn)
    ensures RequestInv(Settle(s, id, how))
  {
    WithoutDistinct(s.pending, id);
    var s' := Settle(s, id, how);
    assert SettledIds(s') == SettledIds(s) + [id];
  }

  lemma RejectAllKeeps(s: State, how: How)
    requires RequestInv(s)
    requires forall id :: id in s.pending ==> SettledRightly(Settlement(id, how), s.sentOn)
    ensures RequestInv(RejectAll(s, how))
  {
    var s' := RejectAll(s, how);
    assert SettledIds(s') == SettledIds(s) + s.pending;
    forall i, j | 0 <= i < j < |SettledIds(s')| ensures SettledIds(s')[i] != SettledIds(s')[j] {
      if i < |s.settled| <= j {
        assert SettledIds(s')[j] in s.pending && SettledIds(s')[i] in SettledIds(s);
      }
    }
  }

  lemma EndKeeps(s: State, s': State, how: How)
    requires RequestInv(s)
    requires forall id :: id in s.pending ==> SettledRightly(Settlement(id, how), s.sentOn)
    requires s'.pending == [] && s'.settled == RejectAll(s, how).settled
    requires s'.requestId == s.requestId && s'.sentOn == s.sentOn
    ensures RequestInv(s')
  {
    RejectAllKeeps(s, how);
    assert SettledIds(s') == SettledIds(RejectAll(s, how));
  }

  /** How a handler may end the session `ws`: as idle, or as failed. */
  function SessionOver(s: State, ws: Socket, idle: bool, waiting: Status, autoReconnect: bool): State {
    if idle then SessionIdle(s, ws, autoReconnect) else SessionFailed(s, ws, waiting, autoReconnect)
  }

  lemma SessionEndKeeps(s: State, ws: Socket, idle: bool, waiting: Status, autoReconnect: bool)
    requires Inv(s)
    ensures Inv(SessionOver(s, ws, idle, waiting, autoReconnect))
  {
    if s.current == Some(ws) {
      EndKeeps(s, SessionOver(s, ws, idle, waiting, autoReconnect), ConnectionClosed(ws));
    }
  }

  lemma RequestInvFrame(s: State, s': State)
    requires RequestInv(s)
    requires s'.pending == s.pending && s'.settled == s.settled && s'.requestId == s.requestId && s'.sentOn == s.sentOn
    requires s'.current == s.current || s.pending == []
    ensures RequestInv(s')
  {
    assert SettledIds(s') == SettledIds(s);
  }

  lemma SendKeeps(s: State)
    requires Inv(s)
    ensures Inv(Next(s, Send, true))
  {
    var s' := Next(s, Send, true);
    assert SettledIds(s') == SettledIds(s);
    assert forall id :: id in s.pending ==> id in s.sentOn;
    assert s.requestId + 1 !in s.sentOn;
  }

  lemma ConnectKeeps(s: State)
    requires Inv(s)
    ensures Inv(Connected(s))
  {
    RequestInvFrame(s, Connected(s));
  }

  lemma DisconnectKeeps(s: State)
    requires Inv(s)
    ensures Inv(Disconnected(s))
  {
    EndKeeps(s, Disconnected(s), ClientDisconnected);
  }

  lemma ClosedKeeps(s: State, ws: Socket, idle: bool, waiting: Status, autoReconnect: bool)
    requires Inv(s)
    ensures Inv(Next(s, Closed(ws, idle, waiting), autoReconnect))
  {
    var s' := s.(open := s.open - {ws});
    RequestInvFrame(s, s');
    SessionEndKeeps(s', ws, idle, waiting, autoReconnect);
  }

  /** Steps that touch no request. */
  lemma PlainStepKeeps(s: State, e: Event, autoReconnect: bool)
    requires Inv(s)
    requires e.Opened? || e.Initialized? || e.UserActivity? || e.SchedulerStopped? || e.Mount?
    ensures Inv(Next(s, e, autoReconnect))
  {
    RequestInvFrame(s, Next(s, e, autoReconnect));
  }

  /** Steps that may end a session. */
  lemma EndingStepKeeps(s: State, e: Event, autoReconnect: bool)
    requires Inv(s)
    requires e.OpenFailed? || e.InitializeFailed? || e.HeartbeatTimeout? || e.Closed? || e.Disconnect? || e.Unmount?
    ensures Inv(Next(s, e, autoReconnect))
  {
    match e {
      case OpenFailed(ws) => SessionEndKeeps(s, ws, false, StatusReconnecting, autoReconnect);
      case InitializeFailed(ws) => SessionEndKeeps(s, ws, false, StatusReconnecting, autoReconnect);
      case HeartbeatTimeout(ws) => SessionEndKeeps(s, ws, false, StatusReconnecting, autoReconnect);
      case Closed(ws, idle, waiting) => ClosedKeeps(s, ws, idle, waiting, autoReconnect);
      case Disconnect => DisconnectKeeps(s);
      case Unmount =>
        RequestInvFrame(s, s.(disposed := true));
        DisconnectKeeps(s.(disposed := true));
    }
  }

  lemma NextKeepsInv(s: State, e: Event, autoReconnect: bool)
    requires Inv(s)
    ensures Inv(Next(s, e, autoReconnect))
  {
    match e {
      case Connect => ConnectKeeps(s);
      case Send => SendKeeps(s);
      case Received(ws, m) =>
        if s.current == Some(ws) && m.Reply? && m.id in s.pending {
          SettleKeeps(s, m.id, if m.isError then Refused(ws) else Resolved(ws));
        }
      case Timeout(id) =>
        if id in s.pending {
          SettleKeeps(s, id, TimedOut);
        }
      case _ =>
        if e.Opened? || e.Initialized? || e.UserActivity? || e.SchedulerStopped? || e.Mount? {
          PlainStepKeeps(s, e, autoReconnect);
        } else {
          EndingStepKeeps(s, e, autoReconnect);
        }
    }
  }

  lemma {:induction false} RunKeepsInv(s: State, steps: seq<Step>)
    requires Inv(s)
    ensures Inv(Run(s, steps))
    decreases |steps|
  {
    if steps != [] {
      NextKeepsInv(s, steps[0].event, steps[0].autoReconnect);
      RunKeepsInv(Next(s, steps[0].event, steps[0].autoReconnect), steps[1..]);
    }
  }

  /**
   * In every interleaving: only the current socket is not closed; pending requests went out on it and
   * none is pending without it; each id is pending or settled, never both, and settled once, never by
   * another session's reply; and no session reports its failure to the scheduler twice.
   */
  lemma EveryRunIsSafe(steps: seq<Step>)
    ensures var s := Run(START, steps);
            && (forall ws: Socket :: ws < s.created && ws !in s.closed ==> s.current == Some(ws))
            && (s.current.None? ==> s.pending == [])
            && (forall id :: id in s.pending ==> id in s.sentOn && s.current == Some(s.sentOn[id]))
            && (forall id: nat :: 1 <= id <= s.requestId <==>
                id in s.pending || exists i :: 0 <= i < |s.settled| && s.settled[i].id == id)
            && (forall i :: 0 <= i < |s.settled| ==> s.settled[i].id !in s.pending)
            && (forall i, j :: 0 <= i < j < |s.settled| ==> s.settled[i].id != s.settled[j].id)
            && (forall i :: 0 <= i < |s.settled| ==> SettledRightly(s.settled[i], s.sentOn))
            && (forall i, j :: 0 <= i < j < |s.failedCalls| ==> s.failedCalls[i] != s.failedCalls[j])
  {
    var s := Run(START, steps);
    assert SettledIds(START) == [];
    RunKeepsInv(START, steps);
    forall id | id in SettledIds(s) ensures exists i :: 0 <= i < |s.settled| && s.settled[i].id == id {
      var i :| 0 <= i < |SettledIds(s)| && SettledIds(s)[i] == id;
    }
    assert forall i :: 0 <= i < |s.settled| ==> s.settled[i].id == SettledIds(s)[i];
  }

  // ---------------------------------------------------------------- late events

  /** The session an event belongs to, if any. */
  function Session(e: Event): Option<Socket> {
    match e
    case Opened(ws) => Some(ws)
    case OpenFailed(ws) => Some(ws)
    case Initialized(ws) => Some(ws)
    case InitializeFailed(ws) => Some(ws)
    case Closed(ws, _, _) => Some(ws)
    case Received(ws, _) => Some(ws)
    case HeartbeatTimeout(ws) => Some(ws)
    case _ => None
  }

  /** A late event of any session but the current one changes nothing at all. */
  lemma LateEventsAreIgnored(s: State, e: Event, autoReconnect: bool)
    requires Inv(s) && Session(e).Some? && Session(e).value < s.created && s.current != Session(e)
    ensures Next(s, e, autoReconnect) == s
  {
    if e.Closed? {
      assert e.ws in s.closed;
      assert s.open - {e.ws} == s.open;
    }
  }

  /** History is only added to, and an id never gets another socket. */
  ghost predicate Extends(s: State, s': State) {
    && s.settled <= s'.settled && s.failedCalls <= s'.failedCalls && s.closed <= s'.closed
    && (forall id :: id in s.sentOn ==> id in s'.sentOn && s'.sentOn[id] == s.sentOn[id])
  }

  lemma SessionOverExtends(s: State, ws: Socket, idle: bool, waiting: Status, autoReconnect: bool)
    ensures Extends(s, SessionOver(s, ws, idle, waiting, autoReconnect))
  {
  }

  lemma DisconnectExtends(s: State)
    ensures Extends(s, Disconnected(s))
  {
  }

  lemma ClosedExtends(s: State, ws: Socket, idle: bool, waiting: Status, autoReconnect: bool)
    ensures Extends(s, Next(s, Closed(ws, idle, waiting), autoReconnect))
  {
    var s' := s.(open := s.open - {ws});
    SessionOverExtends(s', ws, idle, waiting, autoReconnect);
    assert Extends(s, SessionOver(s', ws, idle, waiting, autoReconnect)) && Extends(s, s');
  }

  lemma RequestStepExtends(s: State, e: Event, autoReconnect: bool)
    requires e.Connect? || e.Send? || e.Received? || e.Timeout?
    requires s.requestId + 1 !in s.sentOn
    ensures Extends(s, Next(s, e, autoReconnect))
  {
  }

  lemma HistoryGrows(s: State, e: Event, autoReconnect: bool)
    requires Inv(s)
    ensures Extends(s, Next(s, e, autoReconnect))
  {
    assert s.requestId + 1 !in s.sentOn;
    match e {
      case OpenFailed(ws) => SessionOverExtends(s, ws, false, StatusReconnecting, autoReconnect);
      case InitializeFailed(ws) => SessionOverExtends(s, ws, false, StatusReconnecting, autoReconnect);
      case HeartbeatTimeout(ws) => SessionOverExtends(s, ws, false, StatusReconnecting, autoReconnect);
      case Closed(ws, idle, waiting) => ClosedExtends(s, ws, idle, waiting, autoReconnect);
      case Disconnect => DisconnectExtends(s);
      case Unmount => DisconnectExtends(s.(disposed := true));
      case _ =>
        if e.Connect? || e.Send? || e.Received? || e.Timeout? {
          RequestStepExtends(s, e, autoReconnect);
        }
    }
  }
}
