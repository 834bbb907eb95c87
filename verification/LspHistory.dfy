/**
 * Why the state of an LSP session is what it is: each field, and each settled request, traced to the event that
 * made it so, in any interleaving (src/hooks/useAsterLSP.ts).
 */
module LspHistory {
  import opened Outcomes
  import opened Sorting
  import opened LspSession

  // ---------------------------------------------------------------- what an event means

  /** `e` ends the session on `ws`. */
  predicate Ends(e: Event, ws: Socket) {
    e == OpenFailed(ws) || e == InitializeFailed(ws) || e == HeartbeatTimeout(ws) || (e.Closed? && e.ws == ws)
  }

  predicate ClosesIdle(e: Event, ws: Socket) { e.Closed? && e.ws == ws && e.idle }

  predicate Leaves(e: Event) { e.Disconnect? || e.Unmount? }

  /** `e` is the event that settles a request in the way of `t`. */
  predicate Causes(e: Event, t: Settlement) {
    match t.how
    case Resolved(via) => e == Received(via, Reply(t.id, false))
    case Refused(via) => e == Received(via, Reply(t.id, true))
    case TimedOut => e == Timeout(t.id)
    case ConnectionClosed(ws) => Ends(e, ws)
    case ClientDisconnected => Leaves(e)
  }

  /** The session that settles in the way of `how`, if it takes one. */
  predicate Through(how: How, current: Option<Socket>) {
    match how
    case Resolved(via) => current == Some(via)
    case Refused(via) => current == Some(via)
    case ConnectionClosed(ws) => current == Some(ws)
    case _ => true
  }

  /** What the laws of a single step need of the state; it holds in every run. */
  ghost predicate Coherent(s: State) {
    && (s.current.Some? ==>
          s.current.value < s.created && s.current.value !in s.detached && s.current.value !in s.closed)
    && (s.current.None? ==> s.pending == [] && !s.connected)
    && (s.idleClosed ==> s.current.None?)
  }

  lemma RunIsCoherent(steps: seq<Step>)
    ensures Inv(Run(START, steps)) && Coherent(Run(START, steps))
  {
    assert SettledIds(START) == [];
    RunKeepsInv(START, steps);
  }

  // ---------------------------------------------------------------- requests, step by step

  /** A reply on the current socket settles the pending request of its id: refused on an error, else resolved. */
  lemma ReplySettles(s: State, ws: Socket, id: nat, isError: bool, autoReconnect: bool)
    requires s.current == Some(ws) && id in s.pending
    ensures var s' := Next(s, Received(ws, Reply(id, isError)), autoReconnect);
            && s'.settled == s.settled + [Settlement(id, if isError then Refused(ws) else Resolved(ws))]
            && (forall x :: x in s'.pending <==> x in s.pending && x != id)
  {
  }

  /** How all pending requests end when a session ends, or the hook. */
  function EndOf(e: Event, ws: Socket): How { if Leaves(e) then ClientDisconnected else ConnectionClosed(ws) }

  /** What ends a session, or the hook, rejects all pending requests in the order they were sent. */
  lemma EndSettlesAll(s: State, ws: Socket, e: Event, autoReconnect: bool)
    requires Coherent(s) && s.current == Some(ws) && (Leaves(e) || Ends(e, ws))
    ensures var s' := Next(s, e, autoReconnect);
            && s'.pending == [] && |s'.settled| == |s.settled| + |s.pending| && s.settled <= s'.settled
            && s'.settled[|s.settled|..] == AllSettled(s.pending, EndOf(e, ws))
  {
  }

  ghost predicate Rightly(e: Event, s: State, t: Settlement) {
    t.id in s.pending && Causes(e, t) && Through(t.how, s.current)
  }

  /** Every settlement that is new in `settled` is right. */
  ghost predicate NewAreRight(e: Event, s: State, settled: seq<Settlement>) {
    s.settled <= settled && forall i :: |s.settled| <= i < |settled| ==> Rightly(e, s, settled[i])
  }

  lemma QuietStep(s: State, e: Event, autoReconnect: bool)
    requires Coherent(s) && !e.Received? && !e.Timeout?
    requires s.current.Some? ==> !Ends(e, s.current.value) && !Leaves(e)
    ensures Next(s, e, autoReconnect).settled == s.settled
  {
  }

  lemma ReplyOrTimeoutStep(s: State, e: Event, autoReconnect: bool)
    requires e.Received? || e.Timeout?
    ensures NewAreRight(e, s, Next(s, e, autoReconnect).settled)
  {
  }

  lemma EndStep(s: State, ws: Socket, e: Event, settled: seq<Settlement>)
    requires s.current == Some(ws) && (Leaves(e) || Ends(e, ws))
    requires s.settled <= settled && settled[|s.settled|..] == AllSettled(s.pending, EndOf(e, ws))
    ensures NewAreRight(e, s, settled)
  {
    forall i | |s.settled| <= i < |settled| ensures Rightly(e, s, settled[i]) {
      assert settled[i] == settled[|s.settled|..][i - |s.settled|];
    }
  }

  /** Whatever a step settles was pending and is settled in the way its event causes. */
  lemma NewSettlements(s: State, e: Event, autoReconnect: bool)
    requires Coherent(s)
    ensures NewAreRight(e, s, Next(s, e, autoReconnect).settled)
  {
    if e.Received? || e.Timeout? {
      ReplyOrTimeoutStep(s, e, autoReconnect);
    } else if s.current.Some? && (Leaves(e) || Ends(e, s.current.value)) {
      EndSettlesAll(s, s.current.value, e, autoReconnect);
      EndStep(s, s.current.value, e, Next(s, e, autoReconnect).settled);
    } else {
      QuietStep(s, e, autoReconnect);
    }
  }

  lemma CauseSettles(s: State, e: Event, autoReconnect: bool, t: Settlement)
    requires Coherent(s) && t.id in s.pending && Causes(e, t) && Through(t.how, s.current)
    ensures t in Next(s, e, autoReconnect).settled
  {
    var after := Next(s, e, autoReconnect).settled;
    if t.how.ClientDisconnected? || t.how.ConnectionClosed? {
      EndSettlesAll(s, s.current.value, e, autoReconnect);
      var k :| 0 <= k < |s.pending| && s.pending[k] == t.id;
      assert after[|s.settled|..][k] == t;
    } else {
      assert after[|s.settled|] == t;
    }
  }

  /** A step settles exactly what its event causes among the pending requests, through the current session. */
  lemma SettlesExactly(s: State, e: Event, autoReconnect: bool, t: Settlement)
    requires Coherent(s)
    ensures t in Next(s, e, autoReconnect).settled <==> t in s.settled || Rightly(e, s, t)
  {
    var settled := Next(s, e, autoReconnect).settled;
    NewSettlements(s, e, autoReconnect);
    if t in settled {
      var i :| 0 <= i < |settled| && settled[i] == t;
    }
    if Rightly(e, s, t) {
      CauseSettles(s, e, autoReconnect, t);
    }
  }

  // ---------------------------------------------------------------- the other fields, step by step

  /** A session becomes current by connecting while there is none, and stays so until it ends or the hook leaves. */
  lemma CurrentExactly(s: State, e: Event, autoReconnect: bool, ws: Socket)
    requires Coherent(s)
    ensures Next(s, e, autoReconnect).current == Some(ws)
       <==> || (s.current == Some(ws) && !Ends(e, ws) && !Leaves(e))
            || (s.current == None && e.Connect? && !s.disposed && ws == s.created)
  {
    match e {
      case Closed(_, _, _) =>
      case Unmount =>
      case _ =>
    }
  }

  /** The editor counts as connected once the current session is initialised, and as long as it is current. */
  lemma ConnectedExactly(s: State, e: Event, autoReconnect: bool)
    requires Coherent(s)
    ensures var s' := Next(s, e, autoReconnect);
            s'.connected <==> s'.current.Some? && (s.connected || e == Initialized(s'.current.value))
  {
  }

  /** The scheduler hears of a session that ends, but not as idle, while the editor is mounted and reconnects. */
  lemma FailureExactly(s: State, e: Event, autoReconnect: bool)
    requires Coherent(s)
    ensures var s' := Next(s, e, autoReconnect);
            if s.current.Some? && Ends(e, s.current.value) && !ClosesIdle(e, s.current.value)
               && !s.disposed && autoReconnect
            then s'.failedCalls == s.failedCalls + [s.current.value]
            else s'.failedCalls == s.failedCalls
  {
  }

  /** An idle close is remembered until the user comes back, a session is opened or the hook leaves. */
  lemma IdleExactly(s: State, e: Event, autoReconnect: bool)
    requires Coherent(s)
    ensures Next(s, e, autoReconnect).idleClosed
       <==> if s.current.Some? then ClosesIdle(e, s.current.value) && !s.disposed && autoReconnect
            else s.idleClosed && !Leaves(e) && e != UserActivity(false) && (e.Connect? ==> s.disposed)
  {
  }

  /** The status a step leaves, by its event. */
  lemma StatusExactly(s: State, e: Event, autoReconnect: bool)
    requires Coherent(s)
    ensures var s' := Next(s, e, autoReconnect);
            var over := s.current.Some? && Ends(e, s.current.value);
            && (Leaves(e) ==> s'.status == StatusIdle)
            && (e.SchedulerStopped? ==> s'.status == StatusDisconnected)
            && (s.current.Some? && e == Initialized(s.current.value) ==> s'.status == StatusConnected)
            && (over && ClosesIdle(e, s.current.value) ==> s'.status == StatusIdle)
            && (over && !ClosesIdle(e, s.current.value) ==>
                s'.status == if s.disposed || !autoReconnect then StatusDisconnected
                             else if e.Closed? then e.waiting else StatusReconnecting)
            && (e.Connect? && s'.current != s.current ==>
                s'.status == if s.status == StatusIdle || s.status == StatusConnecting then StatusConnecting
                             else StatusReconnecting)
            && (!Leaves(e) && !e.SchedulerStopped? && !e.Initialized? && !over && s'.current == s.current
                ==> s'.status == s.status)
  {
  }

  /** A request goes out exactly on an open current socket, under the next number. */
  lemma SendExactly(s: State, e: Event, autoReconnect: bool)
    requires Coherent(s)
    ensures var s' := Next(s, e, autoReconnect);
            if e.Send? && s.current.Some? && s.current.value in s.open
            then s'.requestId == s.requestId + 1 && s'.pending == s.pending + [s.requestId + 1]
                 && s'.sentOn == s.sentOn[s.requestId + 1 := s.current.value]
            else s'.requestId == s.requestId && s'.sentOn == s.sentOn
                 && forall id :: id in s'.pending ==> id in s.pending
  {
    match e {
      case Closed(_, _, _) =>
      case Unmount =>
      case _ =>
    }
  }

  /** A socket is open from the report of the browser until its session ends or the hook leaves it. */
  lemma OpenExactly(s: State, e: Event, autoReconnect: bool, ws: Socket)
    requires Coherent(s)
    requires ws in s.open || (ws < s.created && ws !in s.closed) ==> s.current == Some(ws)
    ensures ws in Next(s, e, autoReconnect).open
       <==> || (s.current == Some(ws) && e == Opened(ws))
            || (ws in s.open && !Ends(e, ws) && !Leaves(e))
    ensures ws in Next(s, e, autoReconnect).open ==> Next(s, e, autoReconnect).current == Some(ws)
  {
    match e {
      case Closed(_, _, _) =>
      case Opened(_) =>
      case _ =>
    }
  }

  /** A socket is closed for good when its session ends while it is current, or the hook leaves it. */
  lemma ClosedExactly(s: State, e: Event, autoReconnect: bool, ws: Socket)
    requires Coherent(s)
    ensures ws in Next(s, e, autoReconnect).closed
       <==> ws in s.closed || (s.current == Some(ws) && (Ends(e, ws) || Leaves(e)))
  {
    match e {
      case Closed(_, _, _) =>
      case Unmount =>
      case _ =>
    }
  }

  /** Only mounting and unmounting change whether the hook is disposed. */
  lemma DisposedStep(s: State, e: Event, autoReconnect: bool)
    ensures Next(s, e, autoReconnect).disposed <==> e.Unmount? || (s.disposed && !e.Mount?)
  {
    match e {
      case Closed(_, _, _) =>
      case Unmount =>
      case _ =>
    }
  }

  lemma CreatedGrows(s: State, e: Event, autoReconnect: bool)
    ensures s.created <= Next(s, e, autoReconnect).created
  {
    match e {
      case Closed(_, _, _) =>
      case Unmount =>
      case _ =>
    }
  }

  // ---------------------------------------------------------------- over whole runs

  /** The state before step `k`. */
  function At(steps: seq<Step>, k: nat): State
    requires k <= |steps|
  {
    Run(START, steps[..k])
  }

  lemma {:induction false} RunSnoc(s: State, steps: seq<Step>, x: Step)
    ensures Run(s, steps + [x]) == Next(Run(s, steps), x.event, x.autoReconnect)
    decreases |steps|
  {
    if steps == [] {
      assert (steps + [x])[1..] == [];
    } else {
      assert (steps + [x])[1..] == steps[1..] + [x];
      RunSnoc(Next(s, steps[0].event, steps[0].autoReconnect), steps[1..], x);
    }
  }

  lemma SnocIsNext(s: State, init: seq<Step>, x: Step, steps: seq<Step>)
    requires steps == init + [x]
    ensures Run(s, steps) == Next(Run(s, init), x.event, x.autoReconnect)
  {
    RunSnoc(s, init, x);
  }

  lemma PrefixOfPrefix(steps: seq<Step>, n: nat)
    requires n <= |steps|
    ensures forall k: nat :: k <= n ==> At(steps[..n], k) == At(steps, k)
  {
    forall k: nat | k <= n ensures At(steps[..n], k) == At(steps, k) {
      assert steps[..n][..k] == steps[..k];
    }
  }

  lemma AtIsCoherent(steps: seq<Step>, k: nat)
    requires k <= |steps|
    ensures Coherent(At(steps, k))
  {
    RunIsCoherent(steps[..k]);
  }

  /** A run is its first steps, then the last one. */
  lemma LastStep(steps: seq<Step>, n: nat, x: Step)
    requires n + 1 == |steps| && x == steps[n]
    ensures Run(START, steps) == Next(At(steps, n), x.event, x.autoReconnect)
    ensures At(steps, n) == Run(START, steps[..n]) && Coherent(At(steps, n))
    ensures forall k: nat :: k <= n ==> At(steps[..n], k) == At(steps, k)
  {
    SnocIsNext(START, steps[..n], x, steps);
    AtIsCoherent(steps, n);
    PrefixOfPrefix(steps, n);
  }

  ghost predicate SettlesAt(steps: seq<Step>, k: nat, t: Settlement)
    requires k < |steps|
  {
    Rightly(steps[k].event, At(steps, k), t)
  }

  /**
   * In every run the settled requests are exactly those whose event came while they were pending: a reply without
   * error resolves, one with an error refuses, and so on for timers, ended sessions and leaving.
   */
  lemma {:induction false} EverySettlementHasItsEvent(steps: seq<Step>, t: Settlement)
    ensures t in Run(START, steps).settled <==> exists k :: 0 <= k < |steps| && SettlesAt(steps, k, t)
    decreases |steps|
  {
    if steps != [] {
      var n := |steps| - 1;
      LastStep(steps, n, steps[n]);
      EverySettlementHasItsEvent(steps[..n], t);
      SettlesExactly(At(steps, n), steps[n].event, steps[n].autoReconnect, t);
      forall k | 0 <= k < n ensures SettlesAt(steps[..n], k, t) <==> SettlesAt(steps, k, t) {
        assert At(steps[..n], k) == At(steps, k);
      }
      if t in Run(START, steps[..n]).settled {
        var k :| 0 <= k < n && SettlesAt(steps[..n], k, t);
        assert SettlesAt(steps, k, t);
      }
      assert SettlesAt(steps, n, t) <==> Rightly(steps[n].event, At(steps, n), t);
    }
  }

  /** Session `ws` fails at step `k` while the editor is mounted and wants to reconnect. */
  ghost predicate FailsAt(steps: seq<Step>, k: nat, ws: Socket)
    requires k < |steps|
  {
    && At(steps, k).current == Some(ws) && !At(steps, k).disposed && steps[k].autoReconnect
    && Ends(steps[k].event, ws) && !ClosesIdle(steps[k].event, ws)
  }

  /** The scheduler has heard exactly of the sessions that failed so. */
  lemma {:induction false} EveryFailureHasItsEvent(steps: seq<Step>, ws: Socket)
    ensures ws in Run(START, steps).failedCalls <==> exists k :: 0 <= k < |steps| && FailsAt(steps, k, ws)
    decreases |steps|
  {
    if steps != [] {
      var n := |steps| - 1;
      LastStep(steps, n, steps[n]);
      EveryFailureHasItsEvent(steps[..n], ws);
      FailureExactly(At(steps, n), steps[n].event, steps[n].autoReconnect);
      forall k | 0 <= k < n ensures FailsAt(steps[..n], k, ws) <==> FailsAt(steps, k, ws) {
        assert At(steps[..n], k) == At(steps, k);
      }
      if ws in Run(START, steps[..n]).failedCalls {
        var k :| 0 <= k < n && FailsAt(steps[..n], k, ws);
        assert FailsAt(steps, k, ws);
      }
      assert FailsAt(steps, n, ws) ==> ws in Run(START, steps).failedCalls;
    }
  }

  /** Session `ws` is initialised at step `k`, while it is the current one. */
  ghost predicate InitialisedAt(steps: seq<Step>, k: nat, ws: Socket)
    requires k < |steps|
  {
    At(steps, k).current == Some(ws) && steps[k].event == Initialized(ws)
  }

  /** A session that was current once and is current again has been current all along. */
  lemma {:induction false} OnceCurrent(steps: seq<Step>, k: nat, ws: Socket)
    requires k < |steps| && At(steps, k).current == Some(ws) && Run(START, steps).current == Some(ws)
    ensures At(steps, |steps| - 1).current == Some(ws)
  {
    var n := |steps| - 1;
    LastStep(steps, n, steps[n]);
    CurrentExactly(At(steps, n), steps[n].event, steps[n].autoReconnect, ws);
    CreatedOverRun(steps[..n], k);
    RunIsCoherent(steps[..k]);
    assert At(steps[..n], k) == At(steps, k);
  }

  lemma {:induction false} CreatedOverRun(steps: seq<Step>, k: nat)
    requires k <= |steps|
    ensures At(steps, k).created <= Run(START, steps).created
    decreases |steps|
  {
    var n := |steps| - 1;
    if k > n {
      assert steps[..k] == steps;
    } else {
      LastStep(steps, n, steps[n]);
      CreatedGrows(At(steps, n), steps[n].event, steps[n].autoReconnect);
      CreatedOverRun(steps[..n], k);
      assert At(steps[..n], k) == At(steps, k);
    }
  }

  /** In every run the editor counts as connected exactly when its current session was initialised. */
  lemma {:induction false} ConnectedMeansInitialised(steps: seq<Step>)
    ensures var s := Run(START, steps);
            s.connected <==> s.current.Some? && exists k :: 0 <= k < |steps| && InitialisedAt(steps, k, s.current.value)
    decreases |steps|
  {
    if steps != [] {
      var n := |steps| - 1;
      var s, s' := At(steps, n), Run(START, steps);
      LastStep(steps, n, steps[n]);
      ConnectedExactly(s, steps[n].event, steps[n].autoReconnect);
      ConnectedMeansInitialised(steps[..n]);
      if s'.current.Some? {
        var ws := s'.current.value;
        CurrentExactly(s, steps[n].event, steps[n].autoReconnect, ws);
        forall k | 0 <= k < n ensures InitialisedAt(steps[..n], k, ws) <==> InitialisedAt(steps, k, ws) {
          assert At(steps[..n], k) == At(steps, k);
        }
        if s.connected {
          var k :| 0 <= k < n && InitialisedAt(steps[..n], k, ws);
          assert InitialisedAt(steps, k, ws);
        }
        if k :| 0 <= k < |steps| && InitialisedAt(steps, k, ws) {
          OnceCurrent(steps, k, ws);
          assert k < n ==> InitialisedAt(steps[..n], k, ws);
        }
        assert steps[n].event == Initialized(ws) && s.current == Some(ws) ==> InitialisedAt(steps, n, ws);
      }
    }
  }

  /** The hook is unmounted at step `k` and not mounted again. */
  predicate LeftAt(steps: seq<Step>, k: nat)
    requires k < |steps|
  {
    steps[k].event.Unmount? && forall j :: k < j < |steps| ==> !steps[j].event.Mount?
  }

  /** In every run the hook counts as disposed exactly from its last unmount on. */
  lemma {:induction false} DisposedExactly(steps: seq<Step>)
    ensures Run(START, steps).disposed <==> exists k :: 0 <= k < |steps| && LeftAt(steps, k)
    decreases |steps|
  {
    if steps != [] {
      var n := |steps| - 1;
      LastStep(steps, n, steps[n]);
      DisposedExactly(steps[..n]);
      DisposedStep(At(steps, n), steps[n].event, steps[n].autoReconnect);
      if steps[n].event.Unmount? {
        assert LeftAt(steps, n);
      } else if !steps[n].event.Mount? {
        forall k | 0 <= k < n ensures LeftAt(steps[..n], k) <==> LeftAt(steps, k) {
        }
        if At(steps, n).disposed {
          var k :| 0 <= k < n && LeftAt(steps[..n], k);
          assert LeftAt(steps, k);
        }
      }
    }
  }
}
