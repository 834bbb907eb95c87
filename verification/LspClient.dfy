/**
 * The handlers of src/hooks/useAsterLSP.ts in their own form: they overwrite refs and flags. Each is
 * proved to be the step of `LspSession` that the safety results are about.
 */
module LspClient {
  import opened Outcomes
  import opened LspSession

  class Client {
    // refs and React state
    var wsRef: Option<Socket>
    var requestIdRef: nat
    var pendingRequestsRef: seq<nat>
    var isDisposedRef: bool
    var idleClosedRef: bool
    var connected: bool
    var status: Status
    // the sockets of the page
    var created: nat
    var openSockets: set<Socket>
    var detachedSockets: set<Socket>
    var closedSockets: set<Socket>
    // what happened so far: settled promises, the socket of each request, calls of `scheduler.failed`
    ghost var sentOn: map<nat, Socket>
    ghost var settled: seq<Settlement>
    ghost var failedCalls: seq<Socket>

    ghost function Abs(): State
      reads this
    {
      State(wsRef, requestIdRef, pendingRequestsRef, isDisposedRef, idleClosedRef, connected, status,
            created, openSockets, closedSockets, detachedSockets, sentOn, settled, failedCalls)
    }

    constructor ()
      ensures Abs() == START && Inv(Abs())
    {
      wsRef, requestIdRef, pendingRequestsRef := None, 0, [];
      isDisposedRef, idleClosedRef, connected, status := false, false, false, StatusIdle;
      created, openSockets, detachedSockets, closedSockets := 0, {}, {}, {};
      sentOn, settled, failedCalls := map[], [], [];
      new;
      assert SettledIds(Abs()) == [];
    }

    /** Reject every pending request, then clear the map. */
    method RejectPending(how: How)
      modifies this
      ensures Abs() == RejectAll(old(Abs()), how)
    {
      for i := 0 to |pendingRequestsRef|
        invariant Abs() == old(Abs()).(settled := old(settled) + AllSettled(old(pendingRequestsRef)[..i], how))
      {
        assert AllSettled(old(pendingRequestsRef)[..i + 1], how)
            == AllSettled(old(pendingRequestsRef)[..i], how) + [Settlement(old(pendingRequestsRef)[i], how)];
        settled := settled + [Settlement(pendingRequestsRef[i], how)];
      }
      assert old(pendingRequestsRef)[..|old(pendingRequestsRef)|] == old(pendingRequestsRef);
      pendingRequestsRef := [];
    }

    method DropSession(ws: Socket) returns (dropped: bool)
      modifies this
      ensures dropped == (old(wsRef) == Some(ws))
      ensures Abs() == if dropped then Drop(old(Abs()), ws) else old(Abs())
    {
      if wsRef != Some(ws) { return false; }
      wsRef := None;
      detachedSockets := detachedSockets + {ws};
      openSockets, closedSockets := openSockets - {ws}, closedSockets + {ws};
      connected := false;
      RejectPending(ConnectionClosed(ws));
      return true;
    }

    method OnSessionIdle(ws: Socket, autoReconnect: bool)
      modifies this
      ensures Abs() == SessionIdle(old(Abs()), ws, autoReconnect)
    {
      var dropped := DropSession(ws);
      if !dropped { return; }
      status := StatusIdle;
      idleClosedRef := !isDisposedRef && autoReconnect;
    }

    method OnSessionFailed(ws: Socket, waiting: Status, autoReconnect: bool)
      modifies this
      ensures Abs() == SessionFailed(old(Abs()), ws, waiting, autoReconnect)
    {
      var dropped := DropSession(ws);
      if !dropped { return; }
      if isDisposedRef || !autoReconnect {
        status := StatusDisconnected;
        return;
      }
      status := waiting;
      failedCalls := failedCalls + [ws];
    }

    /** `connect` from the point where its ticket has arrived. */
    method Connect()
      modifies this
      ensures Abs() == Connected(old(Abs()))
    {
      if isDisposedRef || wsRef.Some? { return; }
      idleClosedRef := false;
      status := if status == StatusIdle || status == StatusConnecting then StatusConnecting else StatusReconnecting;
      wsRef := Some(created);
      created := created + 1;
    }

    method OnClose(ws: Socket, idle: bool, waiting: Status, autoReconnect: bool)
      modifies this
      ensures Abs() == Next(old(Abs()), Closed(ws, idle, waiting), autoReconnect)
    {
      openSockets := openSockets - {ws};
      if ws in detachedSockets { return; }
      if idle {
        OnSessionIdle(ws, autoReconnect);
        return;
      }
      OnSessionFailed(ws, waiting, autoReconnect);
    }

    /** `sendRequest` up to its first suspension; `id` is the id sent, if the socket was open. */
    method SendRequest() returns (id: Option<nat>)
      modifies this
      ensures Abs() == Sent(old(Abs()))
      ensures id == if old(wsRef).Some? && old(wsRef).value in old(openSockets) then Some(old(requestIdRef) + 1)
        else None
    {
      if wsRef.None? || wsRef.value !in openSockets { return None; }
      requestIdRef := requestIdRef + 1;
      pendingRequestsRef := pendingRequestsRef + [requestIdRef];
      sentOn := sentOn[requestIdRef := wsRef.value];
      return Some(requestIdRef);
    }

    method OnTimeout(id: nat)
      modifies this
      ensures Abs() == Expired(old(Abs()), id)
    {
      if id !in pendingRequestsRef { return; }
      pendingRequestsRef := Without(pendingRequestsRef, id);
      settled := settled + [Settlement(id, TimedOut)];
    }

    method OnMessage(ws: Socket, message: Message)
      modifies this
      ensures Abs() == Handled(old(Abs()), ws, message)
    {
      if wsRef != Some(ws) { return; }
      if message.Reply? {
        if message.id in pendingRequestsRef {
          pendingRequestsRef := Without(pendingRequestsRef, message.id);
          settled := settled + [Settlement(message.id, if message.isError then Refused(ws) else Resolved(ws))];
        }
      }
    }

    method Disconnect()
      modifies this
      ensures Abs() == Disconnected(old(Abs()))
    {
      idleClosedRef := false;
      CloseCurrent();
      RejectPending(ClientDisconnected);
      connected := false;
      status := StatusIdle;
    }

    /** Forget the current socket, then close it. */
    method CloseCurrent()
      modifies `wsRef, `openSockets, `closedSockets
      ensures var ws := old(wsRef);
              && wsRef == None
              && openSockets == (if ws.Some? then old(openSockets) - {ws.value} else old(openSockets))
              && closedSockets == (if ws.Some? then old(closedSockets) + {ws.value} else old(closedSockets))
    {
      var ws := wsRef;
      wsRef := None;
      if ws.Some? {
        openSockets, closedSockets := openSockets - {ws.value}, closedSockets + {ws.value};
      }
    }

    /** What the browser and the handshake report about one socket, and a heartbeat without an answer. */
    method HandleSocket(e: Event, autoReconnect: bool)
      requires e.Opened? || e.OpenFailed? || e.Initialized? || e.InitializeFailed? || e.Closed? || e.HeartbeatTimeout?
      modifies this
      ensures Abs() == Next(old(Abs()), e, autoReconnect)
    {
      match e {
        case Opened(ws) =>
          if ws < created && ws !in closedSockets { openSockets := openSockets + {ws}; }
        case OpenFailed(ws) => OnSessionFailed(ws, StatusReconnecting, autoReconnect);
        case Initialized(ws) =>
          if wsRef == Some(ws) { connected, status := true, StatusConnected; }
        case InitializeFailed(ws) => OnSessionFailed(ws, StatusReconnecting, autoReconnect);
        case Closed(ws, idle, waiting) => OnClose(ws, idle, waiting, autoReconnect);
        case HeartbeatTimeout(ws) => OnSessionFailed(ws, StatusReconnecting, autoReconnect);
      }
    }

    /** Any event, in any state and under any value of the property: the handler takes the step. */
    method Handle(e: Event, autoReconnect: bool)
      modifies this
      ensures Abs() == Next(old(Abs()), e, autoReconnect)
    {
      match e {
        case Connect => Connect();
        case Received(ws, message) => OnMessage(ws, message);
        case Send => var _ := SendRequest();
        case Timeout(id) => OnTimeout(id);
        case UserActivity(hidden) =>
          if idleClosedRef && !hidden { idleClosedRef := false; }
        case SchedulerStopped => status := StatusDisconnected;
        case Disconnect => Disconnect();
        case Mount => isDisposedRef := false;
        case Unmount =>
          isDisposedRef := true;
          Disconnect();
        case _ => HandleSocket(e, autoReconnect);
      }
    }

    /**
     * A whole interleaving of events, `autoReconnect` changing between them at will, is a run of the
     * protocol, so all that holds of runs holds of the hook.
     */
    method HandleAll(steps: seq<Step>)
      requires Inv(Abs())
      modifies this
      ensures Abs() == Run(old(Abs()), steps) && Inv(Abs())
      decreases |steps|
    {
      if steps != [] {
        NextKeepsInv(Abs(), steps[0].event, steps[0].autoReconnect);
        Handle(steps[0].event, steps[0].autoReconnect);
        HandleAll(steps[1..]);
      }
    }
  }
}
