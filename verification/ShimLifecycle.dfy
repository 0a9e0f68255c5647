/** The shim's child-shutdown loop on Unix. */
module ShimLifecycle {
  import opened Wrappers

  const TERMINATION_GRACE: nat := 2000

  // What one turn of the loop meets. Calls that can fail end the loop; times come from one
  // clock that never runs backwards.
  datatype Turn = Turn(
    waitFails: bool, exited: Option<int>,     // try_wait
    now: nat,                                 // the clock at the top of the turn
    observeFails: bool, anyLive: bool,        // has_live_processes, when it is asked
    inputEnded: bool,                         // a message from the Desktop input pump
    arrived: Option<int>,                     // the latest signal delivered since the last turn
    requestFails: bool, requestedAt: nat,     // the graceful request and the clock after it
    forceFails: bool, forceAt: nat)           // the force request and the clock before it

  predicate Ordered(turns: seq<Turn>) {
    && (forall i :: 0 <= i < |turns| ==> turns[i].now <= turns[i].requestedAt <= turns[i].forceAt)
    && (forall i :: 0 <= i < |turns| - 1 ==> turns[i].forceAt <= turns[i + 1].now)
  }

  datatype Event =
    | Observed(anyLive: bool, at: nat)
    | StopForInput(at: nat)
    | Forward(signal: int, at: nat)
    | StopDescendants(at: nat)
    | Force(at: nat)

  predicate Graceful(e: Event) {
    e.StopForInput? || e.Forward? || e.StopDescendants?
  }

  datatype State = State(
    status: Option<int>,
    forwarded: Option<int>,
    deadline: Option<nat>,
    forced: bool,
    stoppedDescendants: bool,
    inputClosed: bool,
    lastRefresh: Option<nat>,
    pending: Option<int>,   // the signal flag, emptied whenever it is read
    trace: seq<Event>)

  const INITIAL := State(None, None, None, false, false, false, None, None, [])

  datatype Result =
    | Running(state: State)
    | Returned(state: State)   // the outcome fields are those of the state
    | Failed(state: State)

  predicate RefreshDue(lastRefresh: Option<nat>, now: nat, rootExited: bool, interval: nat) {
    rootExited || lastRefresh.None? || now - lastRefresh.value >= interval
  }

  /** The graceful half of a turn; None when the request failed. */
  function Request(s: State, turn: Turn): (State, bool) {
    var deadline := Some(turn.requestedAt + TERMINATION_GRACE);
    if !s.inputClosed && s.status.None? && turn.inputEnded then
      var asked := s.(trace := s.trace + [StopForInput(turn.requestedAt)]);
      if turn.requestFails then (asked, false) else (asked.(inputClosed := true, deadline := deadline), true)
    else
      var read := s.(pending := None);
      if s.pending.Some? && s.forwarded.None? then
        var asked := read.(trace := s.trace + [Forward(s.pending.value, turn.requestedAt)]);
        if turn.requestFails then (asked, false) else (asked.(forwarded := s.pending, deadline := deadline), true)
      else if s.status.Some? && s.deadline.None? then
        var asked := read.(trace := s.trace + [StopDescendants(turn.requestedAt)]);
        if turn.requestFails then (asked, false) else (asked.(stoppedDescendants := true, deadline := deadline), true)
      else (read, true)
  }

  function ForceIfDue(s: State, turn: Turn): Result {
    if !s.forced && s.deadline.Some? && turn.forceAt >= s.deadline.value then
      var asked := s.(trace := s.trace + [Force(turn.forceAt)]);
      if turn.forceFails then Failed(asked) else Running(asked.(forced := true))
    else Running(s)
  }

  function Act(s: State, turn: Turn): Result {
    var (asked, ok) := Request(s, turn);
    if !ok then Failed(asked) else ForceIfDue(asked, turn)
  }

  function Step(s: State, turn: Turn, interval: nat): Result {
    var arrived := s.(pending := if turn.arrived.Some? then turn.arrived else s.pending);
    if arrived.status.None? && turn.waitFails then Failed(arrived)
    else
      var waited := if arrived.status.None? then arrived.(status := turn.exited) else arrived;
      var due := RefreshDue(waited.lastRefresh, turn.now, waited.status.Some?, interval);
      if due && turn.observeFails then Failed(waited)
      else
        var live := !due || turn.anyLive;
        var seen :=
          if due then waited.(lastRefresh := Some(turn.now), trace := waited.trace + [Observed(live, turn.now)])
          else waited;
        if seen.status.Some? && !live then Returned(seen) else Act(seen, turn)
  }

  function Run(s: State, turns: seq<Turn>, interval: nat): Result
    decreases |turns|
  {
    if turns == [] then Running(s)
    else
      var next := Step(s, turns[0], interval);
      if next.Running? then Run(next.state, turns[1..], interval) else next
  }

  /** The loop over the turns the environment offers. */
  method WaitForChild(turns: seq<Turn>, interval: nat) returns (result: Result)
    ensures result == Run(INITIAL, turns, interval)
  {
    var s := INITIAL;
    for i := 0 to |turns|
      invariant Run(INITIAL, turns, interval) == Run(s, turns[i..], interval)
    {
      assert turns[i..][0] == turns[i] && turns[i..][1..] == turns[i + 1..];
      var next := TakeTurn(s, turns[i], interval);
      if !next.Running? {
        return next;
      }
      s := next.state;
    }
    assert turns[|turns|..] == [];
    return Running(s);
  }

  method TakeTurn(s0: State, turn: Turn, interval: nat) returns (result: Result)
    ensures result == Step(s0, turn, interval)
  {
    var s := s0;
    if turn.arrived.Some? {
      s := s.(pending := turn.arrived);
    }
    if s.status.None? {
      if turn.waitFails {
        return Failed(s);
      }
      s := s.(status := turn.exited);
    }
    var hasLive := true;
    if RefreshDue(s.lastRefresh, turn.now, s.status.Some?, interval) {
      if turn.observeFails {
        return Failed(s);
      }
      hasLive := turn.anyLive;
      s := s.(lastRefresh := Some(turn.now), trace := s.trace + [Observed(hasLive, turn.now)]);
    }
    if s.status.Some? && !hasLive {
      return Returned(s);
    }
    var ok;
    s, ok := AskGracefully(s, turn);
    if !ok {
      return Failed(s);
    }
    if !s.forced && s.deadline.Some? && turn.forceAt >= s.deadline.value {
      s := s.(trace := s.trace + [Force(turn.forceAt)]);
      if turn.forceFails {
        return Failed(s);
      }
      s := s.(forced := true);
    }
    return Running(s);
  }

  method AskGracefully(s0: State, turn: Turn) returns (s: State, ok: bool)
    ensures (s, ok) == Request(s0, turn)
  {
    s, ok := s0, !turn.requestFails;
    var deadline := Some(turn.requestedAt + TERMINATION_GRACE);
    if !s.inputClosed && s.status.None? && turn.inputEnded {
      s := s.(trace := s.trace + [StopForInput(turn.requestedAt)]);
      if ok {
        s := s.(inputClosed := true, deadline := deadline);
      }
      return;
    }
    var signal := s.pending;
    s := s.(pending := None);
    if signal.Some? && s.forwarded.None? {
      s := s.(trace := s.trace + [Forward(signal.value, turn.requestedAt)]);
      if ok {
        s := s.(forwarded := signal, deadline := deadline);
      }
    } else if s.status.Some? && s.deadline.None? {
      s := s.(trace := s.trace + [StopDescendants(turn.requestedAt)]);
      if ok {
        s := s.(stoppedDescendants := true, deadline := deadline);
      }
    } else {
      ok := true;
    }
  }

  // ----- what every run keeps ---------------------------------------------------------

  /** What may follow the events so far. Each request is made at most once; the two stop
      requests exclude each other; a force needs a graceful request before it and comes at
      least the grace period after every one of them. */
  ghost predicate Allowed(before: seq<Event>, e: Event) {
    match e
    case Observed(_, _) => true
    case StopForInput(_) => forall x :: x in before ==> !x.StopForInput? && !x.StopDescendants?
    case Forward(_, _) => forall x :: x in before ==> !x.Forward?
    case StopDescendants(_) => forall x :: x in before ==> !x.StopForInput? && !x.StopDescendants?
    case Force(at) =>
      && (forall x :: x in before ==> !x.Force?)
      && (exists x :: x in before && Graceful(x))
      && (forall x :: x in before && Graceful(x) ==> x.at + TERMINATION_GRACE <= at)
  }

  ghost predicate Disciplined(trace: seq<Event>) {
    forall i :: 0 <= i < |trace| ==> Allowed(trace[..i], trace[i])
  }

  lemma AppendKeeps(trace: seq<Event>, e: Event)
    requires Disciplined(trace) && Allowed(trace, e)
    ensures Disciplined(trace + [e])
    ensures forall x :: x in trace + [e] <==> x in trace || x == e
  {
    var t := trace + [e];
    forall i | 0 <= i < |t| ensures Allowed(t[..i], t[i]) {
      assert t[..i] == trace[..i];
      if i == |trace| {
        assert trace[..i] == trace;
      }
    }
  }

  // The state knows everything its trace says.
  ghost predicate Recorded(s: State, e: Event, clock: nat) {
    && e.at <= clock
    && (e.StopForInput? ==> s.inputClosed)
    && (e.Forward? ==> s.forwarded == Some(e.signal))
    && (e.StopDescendants? ==> s.stoppedDescendants)
    && (e.Force? ==> s.forced)
    && (Graceful(e) ==> s.deadline.Some? && e.at + TERMINATION_GRACE <= s.deadline.value)
  }

  // And its trace shows everything the state claims.
  ghost predicate Witnessed(s: State) {
    && (s.inputClosed ==> exists e :: e in s.trace && e.StopForInput?)
    && (s.forwarded.Some? ==> exists e :: e in s.trace && e.Forward?)
    && (s.stoppedDescendants ==> exists e :: e in s.trace && e.StopDescendants?)
    && (s.forced ==> exists e :: e in s.trace && e.Force?)
    && (s.deadline.Some? ==> exists e :: e in s.trace && Graceful(e))
  }

  ghost predicate Invariant(s: State, clock: nat) {
    && Disciplined(s.trace) && Witnessed(s)
    && (forall e :: e in s.trace ==> Recorded(s, e, clock))
    && (s.stoppedDescendants ==> s.status.Some?)
  }

  // `t` is `s` after one more event and the bookkeeping that belongs to it.
  lemma EventKeeps(s: State, e: Event, t: State, clock: nat)
    requires Invariant(s, clock) && clock <= e.at && Allowed(s.trace, e) && t.trace == s.trace + [e]
    requires t.inputClosed == (s.inputClosed || e.StopForInput?)
    requires t.forwarded == if e.Forward? then Some(e.signal) else s.forwarded
    requires t.stoppedDescendants == (s.stoppedDescendants || e.StopDescendants?)
    requires t.forced == (s.forced || e.Force?)
    requires t.deadline == if Graceful(e) then Some(e.at + TERMINATION_GRACE) else s.deadline
    requires t.stoppedDescendants ==> t.status.Some?
    ensures Invariant(t, e.at)
  {
    AppendKeeps(s.trace, e);
    WitnessKeeps(s, e, t);
    forall x | x in t.trace ensures Recorded(t, x, e.at) {
      if x != e {
        assert x in s.trace;
        assert Recorded(s, x, clock);
      }
    }
  }

  lemma WitnessKeeps(s: State, e: Event, t: State)
    requires Witnessed(s) && t.trace == s.trace + [e]
    requires t.inputClosed == (s.inputClosed || e.StopForInput?)
    requires t.forwarded.Some? == (s.forwarded.Some? || e.Forward?)
    requires t.stoppedDescendants == (s.stoppedDescendants || e.StopDescendants?)
    requires t.forced == (s.forced || e.Force?)
    requires t.deadline.Some? == (s.deadline.Some? || Graceful(e))
    ensures Witnessed(t)
  {
    assert forall x :: x in s.trace ==> x in t.trace;
    assert e in t.trace;
  }

  lemma LaterKeeps(s: State, clock: nat, later: nat)
    requires Invariant(s, clock) && clock <= later
    ensures Invariant(s, later)
  {
    assert forall e :: e in s.trace ==> Recorded(s, e, clock);
  }

  lemma PendingIrrelevant(s: State, pending: Option<int>, clock: nat)
    requires Invariant(s, clock)
    ensures Invariant(s.(pending := pending), clock)
  {
    forall e | e in s.trace ensures Recorded(s.(pending := pending), e, clock) {
      assert Recorded(s, e, clock);
    }
  }

  // A graceful request that is allowed now, as attempted and as completed.
  lemma RequestEvent(s: State, e: Event, asked: State, ok: bool, clock: nat)
    requires Invariant(s, clock) && clock <= e.at && Allowed(s.trace, e)
    requires if ok then
               && asked.trace == s.trace + [e]
               && asked.inputClosed == (s.inputClosed || e.StopForInput?)
               && asked.forwarded == (if e.Forward? then Some(e.signal) else s.forwarded)
               && asked.stoppedDescendants == (s.stoppedDescendants || e.StopDescendants?)
               && asked.forced == (s.forced || e.Force?)
               && asked.deadline == (if Graceful(e) then Some(e.at + TERMINATION_GRACE) else s.deadline)
               && (asked.stoppedDescendants ==> asked.status.Some?)
             else asked.trace == s.trace + [e]
    ensures Disciplined(asked.trace) && (ok ==> Invariant(asked, e.at))
  {
    AppendKeeps(s.trace, e);
    if ok {
      EventKeeps(s, e, asked, clock);
    }
  }

  lemma RequestKeeps(s: State, turn: Turn, clock: nat)
    requires Invariant(s, clock) && clock <= turn.requestedAt
    ensures var (asked, ok) := Request(s, turn);
            && Disciplined(asked.trace)
            && (ok ==> Invariant(asked, turn.requestedAt))
  {
    var (asked, ok) := Request(s, turn);
    if !s.inputClosed && s.status.None? && turn.inputEnded {
      NotYet(s, clock);
      RequestEvent(s, StopForInput(turn.requestedAt), asked, ok, clock);
    } else if s.pending.Some? && s.forwarded.None? {
      NotYet(s, clock);
      RequestEvent(s, Forward(s.pending.value, turn.requestedAt), asked, ok, clock);
    } else if s.status.Some? && s.deadline.None? {
      NotYet(s, clock);
      RequestEvent(s, StopDescendants(turn.requestedAt), asked, ok, clock);
    } else {
      LaterKeeps(s, clock, turn.requestedAt);
      PendingIrrelevant(s, None, turn.requestedAt);
    }
  }

  // What the state has no record of is not in the trace.
  lemma NotYet(s: State, clock: nat)
    requires Invariant(s, clock)
    ensures !s.inputClosed ==> forall x :: x in s.trace ==> !x.StopForInput?
    ensures s.status.None? ==> forall x :: x in s.trace ==> !x.StopDescendants?
    ensures s.forwarded.None? ==> forall x :: x in s.trace ==> !x.Forward?
    ensures s.deadline.None? ==> forall x :: x in s.trace ==> !Graceful(x)
  {
    assert forall e :: e in s.trace ==> Recorded(s, e, clock);
  }

  lemma ForceKeeps(s: State, turn: Turn, clock: nat)
    requires Invariant(s, clock) && clock <= turn.forceAt
    ensures var result := ForceIfDue(s, turn);
            && Disciplined(result.state.trace)
            && (result.Running? ==> Invariant(result.state, turn.forceAt))
  {
    var result := ForceIfDue(s, turn);
    assert forall e :: e in s.trace ==> Recorded(s, e, clock);
    if result.state.trace == s.trace {
      LaterKeeps(s, clock, turn.forceAt);
    } else {
      var e := Force(turn.forceAt);
      AppendKeeps(s.trace, e);
      if result.Running? {
        EventKeeps(s, e, result.state, clock);
      }
    }
  }

  // The first half of a turn: take the signal, poll the root, observe the tree if due.
  lemma ObserveKeeps(s: State, turn: Turn, interval: nat, clock: nat, waited: State)
    requires Invariant(s, clock) && clock <= turn.now
    requires waited == s.(pending := waited.pending, status := waited.status)
    requires s.status.Some? ==> waited.status.Some?
    ensures Invariant(waited, turn.now)
    ensures Invariant(waited.(lastRefresh := Some(turn.now),
                              trace := waited.trace + [Observed(turn.anyLive, turn.now)]), turn.now)
  {
    var e := Observed(turn.anyLive, turn.now);
    assert forall x :: x in s.trace ==> Recorded(s, x, clock);
    LaterKeeps(s, clock, turn.now);
    assert forall x :: x in s.trace ==> Recorded(waited, x, turn.now);
    EventKeeps(s, e, waited.(lastRefresh := Some(turn.now), trace := waited.trace + [e]), clock);
  }

  lemma StepKeeps(s: State, turn: Turn, interval: nat, clock: nat)
    requires Invariant(s, clock) && clock <= turn.now <= turn.requestedAt <= turn.forceAt
    ensures Disciplined(Step(s, turn, interval).state.trace)
    ensures Step(s, turn, interval).Running? ==> Invariant(Step(s, turn, interval).state, turn.forceAt)
    ensures Step(s, turn, interval).Returned? ==> Invariant(Step(s, turn, interval).state, turn.now)
  {
    var arrived := s.(pending := if turn.arrived.Some? then turn.arrived else s.pending);
    if arrived.status.None? && turn.waitFails {
      return;
    }
    var waited := if arrived.status.None? then arrived.(status := turn.exited) else arrived;
    ObserveKeeps(s, turn, interval, clock, waited);
    var due := RefreshDue(waited.lastRefresh, turn.now, waited.status.Some?, interval);
    if due && turn.observeFails {
      return;
    }
    var live := !due || turn.anyLive;
    var seen := if due then waited.(lastRefresh := Some(turn.now), trace := waited.trace + [Observed(live, turn.now)])
                else waited;
    assert Invariant(seen, turn.now);
    if !(seen.status.Some? && !live) {
      ActKeeps(seen, turn);
    }
  }

  lemma ActKeeps(s: State, turn: Turn)
    requires Invariant(s, turn.now) && turn.now <= turn.requestedAt <= turn.forceAt
    ensures Disciplined(Act(s, turn).state.trace) && !Act(s, turn).Returned?
    ensures Act(s, turn).Running? ==> Invariant(Act(s, turn).state, turn.forceAt)
  {
    RequestKeeps(s, turn, turn.now);
    var (asked, ok) := Request(s, turn);
    if ok {
      ForceKeeps(asked, turn, turn.requestedAt);
    }
  }

  lemma {:induction false} RunKeeps(s: State, turns: seq<Turn>, interval: nat, clock: nat) returns (end: nat)
    requires Invariant(s, clock) && Ordered(turns) && (turns != [] ==> clock <= turns[0].now)
    ensures Disciplined(Run(s, turns, interval).state.trace)
    ensures Run(s, turns, interval).Returned? ==> Invariant(Run(s, turns, interval).state, end)
    decreases |turns|
  {
    end := clock;
    if turns != [] {
      StepKeeps(s, turns[0], interval, clock);
      end := turns[0].now;
      var next := Step(s, turns[0], interval);
      if next.Running? {
        assert forall i :: 0 <= i < |turns| - 1 ==> turns[1..][i] == turns[i + 1];
        end := RunKeeps(next.state, turns[1..], interval, turns[0].forceAt);
      }
    }
  }

  /** Turn `n` is where the loop returns: it still ran before, the exit that waiting reported is the
      status, and the one thing this turn adds is its own fresh observation of an empty tree. */
  ghost predicate ReturnsIn(turns: seq<Turn>, interval: nat, n: nat)
    requires n < |turns|
  {
    var before, end := Run(INITIAL, turns[..n], interval), Run(INITIAL, turns, interval);
    && before.Running? && end.Returned?
    && !turns[n].observeFails && !turns[n].anyLive
    && end.state.trace == before.state.trace + [Observed(false, turns[n].now)]
    && end.state.status.Some? && ExitedBy(turns, n + 1, end.state.status)
  }

  // Waiting for the root reported this status in one of the first `n` turns.
  ghost predicate ExitedBy(turns: seq<Turn>, n: nat, status: Option<int>)
    requires n <= |turns|
  {
    exists i :: 0 <= i < n && turns[i].exited == status
  }

  lemma {:induction false} RunAppend(s: State, turns: seq<Turn>, turn: Turn, interval: nat)
    ensures Run(s, turns + [turn], interval) ==
            var before := Run(s, turns, interval);
            if before.Running? then Step(before.state, turn, interval) else before
    decreases |turns|
  {
    if turns == [] {
      assert turns + [turn] == [turn] && [turn][1..] == [];
    } else {
      assert (turns + [turn])[0] == turns[0] && (turns + [turn])[1..] == turns[1..] + [turn];
      var next := Step(s, turns[0], interval);
      if next.Running? {
        RunAppend(next.state, turns[1..], turn, interval);
      }
    }
  }

  lemma PrefixRuns(turns: seq<Turn>, interval: nat, n: nat)
    requires 0 < n <= |turns| && Run(INITIAL, turns[..n], interval).Running?
    ensures Run(INITIAL, turns[..n - 1], interval).Running?
  {
    assert turns[..n] == turns[..n - 1] + [turns[n - 1]];
    RunAppend(INITIAL, turns[..n - 1], turns[n - 1], interval);
  }

  // A status is never invented and never changes once it is there.
  lemma {:induction false} StatusReported(turns: seq<Turn>, interval: nat, n: nat)
    requires n <= |turns| && Run(INITIAL, turns[..n], interval).Running?
    requires Run(INITIAL, turns[..n], interval).state.status.Some?
    ensures ExitedBy(turns, n, Run(INITIAL, turns[..n], interval).state.status)
    decreases n
  {
    if n > 0 {
      PrefixRuns(turns, interval, n);
      NextResult(turns, interval, n - 1);
      var before := Run(INITIAL, turns[..n - 1], interval).state;
      StepStatus(before, turns[n - 1], interval);
      if before.status.Some? {
        StatusReported(turns, interval, n - 1);
      } else {
        assert turns[n - 1].exited == Run(INITIAL, turns[..n], interval).state.status;
      }
    }
  }

  lemma StepStatus(s: State, turn: Turn, interval: nat)
    ensures var next := Step(s, turn, interval);
            !next.Failed? ==> next.state.status == if s.status.Some? then s.status else turn.exited
  {
  }

  lemma {:induction false} ReturnFound(turns: seq<Turn>, interval: nat, m: nat) returns (n: nat)
    requires m <= |turns| && Run(INITIAL, turns[..m], interval).Running? && Run(INITIAL, turns, interval).Returned?
    ensures n < |turns| && ReturnsIn(turns, interval, n)
    decreases |turns| - m
  {
    assert turns[..|turns|] == turns;
    assert m < |turns|;
    NextResult(turns, interval, m);
    if Run(INITIAL, turns[..m + 1], interval).Running? {
      n := ReturnFound(turns, interval, m + 1);
    } else {
      n := m;
      RunStops(INITIAL, turns, interval, m + 1);
      ReturnHere(turns, interval, m);
    }
  }

  lemma NextResult(turns: seq<Turn>, interval: nat, m: nat)
    requires m < |turns| && Run(INITIAL, turns[..m], interval).Running?
    ensures Run(INITIAL, turns[..m + 1], interval) ==
            Step(Run(INITIAL, turns[..m], interval).state, turns[m], interval)
  {
    assert turns[..m + 1] == turns[..m] + [turns[m]];
    RunAppend(INITIAL, turns[..m], turns[m], interval);
  }

  lemma ReturnHere(turns: seq<Turn>, interval: nat, m: nat)
    requires m < |turns| && Run(INITIAL, turns[..m], interval).Running?
    requires Run(INITIAL, turns, interval) == Step(Run(INITIAL, turns[..m], interval).state, turns[m], interval)
    requires Run(INITIAL, turns, interval).Returned?
    ensures ReturnsIn(turns, interval, m)
  {
    var before := Run(INITIAL, turns[..m], interval).state;
    StepReturns(before, turns[m], interval);
    var status := Run(INITIAL, turns, interval).state.status;
    if before.status.Some? {
      StatusReported(turns, interval, m);
      var i :| 0 <= i < m && turns[i].exited == status;
      assert ExitedBy(turns, m + 1, status);
    } else {
      assert turns[m].exited == status;
      assert ExitedBy(turns, m + 1, status);
    }
  }

  lemma StepReturns(s: State, turn: Turn, interval: nat)
    requires Step(s, turn, interval).Returned?
    ensures var end := Step(s, turn, interval).state;
            && !turn.observeFails && !turn.anyLive && end.trace == s.trace + [Observed(false, turn.now)]
            && end.status.Some? && end.status == (if s.status.Some? then s.status else turn.exited)
  {
  }

  lemma {:induction false} RunStops(s: State, turns: seq<Turn>, interval: nat, n: nat)
    requires n <= |turns| && !Run(s, turns[..n], interval).Running?
    ensures Run(s, turns, interval) == Run(s, turns[..n], interval)
    decreases |turns| - n
  {
    if n == |turns| {
      assert turns[..n] == turns;
    } else {
      assert turns[..n + 1] == turns[..n] + [turns[n]];
      RunAppend(s, turns[..n], turns[n], interval);
      RunStops(s, turns, interval, n + 1);
    }
  }

  /** Every run of the loop: each request happens at most once, the two stop requests never both
      happen, force waits out the grace period; and a run that returns does so in a turn that comes
      with or after the root's exit and has just observed an empty tree. */
  lemma EveryRunIsSound(turns: seq<Turn>, interval: nat)
    requires Ordered(turns)
    ensures Disciplined(Run(INITIAL, turns, interval).state.trace)
    ensures Run(INITIAL, turns, interval).Returned? ==>
              exists n :: 0 <= n < |turns| && ReturnsIn(turns, interval, n)
  {
    var end := RunKeeps(INITIAL, turns, interval, 0);
    if Run(INITIAL, turns, interval).Returned? {
      assert turns[..0] == [];
      var n := ReturnFound(turns, interval, 0);
    }
  }

  /** The returned outcome tells the truth about what was done. */
  lemma OutcomeMatchesTrace(turns: seq<Turn>, interval: nat)
    requires Ordered(turns) && Run(INITIAL, turns, interval).Returned?
    ensures var s := Run(INITIAL, turns, interval).state;
            && (s.inputClosed <==> exists e :: e in s.trace && e.StopForInput?)
            && (s.stoppedDescendants <==> exists e :: e in s.trace && e.StopDescendants?)
            && (s.forced <==> exists e :: e in s.trace && e.Force?)
            && (s.forwarded.Some? <==> exists e :: e in s.trace && e.Forward?)
            && (forall e :: e in s.trace && e.Forward? ==> s.forwarded == Some(e.signal))
  {
    var end := RunKeeps(INITIAL, turns, interval, 0);
    var s := Run(INITIAL, turns, interval).state;
    assert forall e :: e in s.trace ==> Recorded(s, e, end);
  }

  /** Nothing is left unasked: when a turn ends with the loop still running, an exited root
      means some graceful request was made, a deadline that has passed means force was sent,
      and a signal is still unread only if this very turn stopped the child for its input. */
  lemma TurnMakesProgress(s: State, turn: Turn, interval: nat)
    requires Step(s, turn, interval).Running?
    ensures var t := Step(s, turn, interval).state;
            && (t.status.Some? ==> t.deadline.Some?)
            && (t.deadline.Some? && turn.forceAt >= t.deadline.value ==> t.forced)
            && (t.pending.Some? ==> t.inputClosed && !s.inputClosed)
            && (turn.arrived.Some? && t.pending.None? ==> t.forwarded.Some?)
  {
  }

  /** Over every run: as long as the loop runs on with the root gone, its tree has been asked
      to stop, and once a deadline is behind the clock the tree has been forced. */
  lemma {:induction false} ExitedRootIsAsked(s: State, turns: seq<Turn>, interval: nat)
    requires turns != [] && Run(s, turns, interval).Running?
    ensures var t := Run(s, turns, interval).state;
            && (t.status.Some? ==> t.deadline.Some?)
            && (t.deadline.Some? && turns[|turns| - 1].forceAt >= t.deadline.value ==> t.forced)
    decreases |turns|
  {
    TurnMakesProgress(s, turns[0], interval);
    var next := Step(s, turns[0], interval).state;
    if |turns| == 1 {
      assert Run(next, turns[1..], interval) == Running(next);
    } else {
      ExitedRootIsAsked(next, turns[1..], interval);
    }
  }

  // ----- what one turn does, event by event -------------------------------------------

  // The graceful request a turn makes: for the ended input of a live root first, then for a signal that
  // has not been passed on, then for what an exited root left behind.
  function Asks(s: State, turn: Turn, status: Option<int>, pending: Option<int>): seq<Event> {
    if turn.inputEnded && status.None? && !s.inputClosed then [StopForInput(turn.requestedAt)]
    else if pending.Some? && s.forwarded.None? then [Forward(pending.value, turn.requestedAt)]
    else if status.Some? && s.deadline.None? then [StopDescendants(turn.requestedAt)]
    else []
  }

  /** A turn that goes on, event by event: the tree is looked at when the root has exited, at first, and
      whenever the interval is over; then at most one request, which moves the deadline two seconds on;
      then the force, once, when the deadline has come. */
  ghost predicate Spelled(s: State, turn: Turn, interval: nat, t: State) {
    var status := if s.status.Some? then s.status else turn.exited;
    var pending := if turn.arrived.Some? then turn.arrived else s.pending;
    var looks := status.Some? || s.lastRefresh.None? || turn.now >= s.lastRefresh.value + interval;
    var asks := Asks(s, turn, status, pending);
    var deadline := if asks == [] then s.deadline else Some(turn.requestedAt + 2000);
    var forces := !s.forced && deadline.Some? && turn.forceAt >= deadline.value;
    && t.status == status && t.deadline == deadline
    && t.lastRefresh == (if looks then Some(turn.now) else s.lastRefresh)
    && t.trace == s.trace + Looks(looks, turn) + asks + Forces(forces, turn)
    && t.inputClosed == (s.inputClosed || (asks != [] && asks[0].StopForInput?))
    && t.forwarded == (if asks != [] && asks[0].Forward? then pending else s.forwarded)
    && t.forced == (s.forced || forces)
    && t.stoppedDescendants == (s.stoppedDescendants || (asks != [] && asks[0].StopDescendants?))
  }

  function Looks(looks: bool, turn: Turn): seq<Event> {
    if looks then [Observed(turn.anyLive, turn.now)] else []
  }

  function Forces(forces: bool, turn: Turn): seq<Event> {
    if forces then [Force(turn.forceAt)] else []
  }

  lemma TurnExact(s: State, turn: Turn, interval: nat)
    requires Step(s, turn, interval).Running?
    ensures Spelled(s, turn, interval, Step(s, turn, interval).state)
  {
    StepShape(s, turn, interval);
    StagesSpelled(s, turn, interval);
  }

  lemma StagesSpelled(s: State, turn: Turn, interval: nat)
    requires var seen := Seen(s, turn, interval);
             Request(seen, turn).1 && ForceIfDue(Request(seen, turn).0, turn).Running?
    ensures Spelled(s, turn, interval, ForceIfDue(Request(Seen(s, turn, interval), turn).0, turn).state)
  {
    var seen := Seen(s, turn, interval);
    var asked := Request(seen, turn).0;
    RequestExact(seen, turn);
    ForceExact(asked, turn);
    StagesJoin(s, turn, interval, asked, ForceIfDue(asked, turn).state);
  }

  lemma StagesJoin(s: State, turn: Turn, interval: nat, asked: State, t: State)
    requires Requested(Seen(s, turn, interval), turn, asked) && Forced(asked, turn, t)
    ensures Spelled(s, turn, interval, t)
  {
    var seen := Seen(s, turn, interval);
    SeenExact(s, turn, interval);
    assert Asks(seen, turn, seen.status, seen.pending) == Asks(s, turn, seen.status, seen.pending);
  }

  lemma SeenExact(s: State, turn: Turn, interval: nat)
    ensures var seen := Seen(s, turn, interval);
            var looks := seen.status.Some? || s.lastRefresh.None? || turn.now >= s.lastRefresh.value + interval;
            && seen == s.(status := if s.status.Some? then s.status else turn.exited,
                          pending := if turn.arrived.Some? then turn.arrived else s.pending,
                          lastRefresh := if looks then Some(turn.now) else s.lastRefresh,
                          trace := s.trace + Looks(looks, turn))
  {
    assert s.trace + [] == s.trace;
  }

  ghost predicate Requested(s: State, turn: Turn, t: State) {
    var asks := Asks(s, turn, s.status, s.pending);
    && t.trace == s.trace + asks && t.status == s.status && t.lastRefresh == s.lastRefresh
    && t.deadline == (if asks == [] then s.deadline else Some(turn.requestedAt + 2000))
    && t.inputClosed == (s.inputClosed || (asks != [] && asks[0].StopForInput?))
    && t.forwarded == (if asks != [] && asks[0].Forward? then s.pending else s.forwarded)
    && t.stoppedDescendants == (s.stoppedDescendants || (asks != [] && asks[0].StopDescendants?))
    && t.forced == s.forced
  }

  ghost predicate Forced(s: State, turn: Turn, t: State) {
    var forces := !s.forced && s.deadline.Some? && turn.forceAt >= s.deadline.value;
    t == s.(forced := s.forced || forces, trace := s.trace + Forces(forces, turn))
  }

  // The state after the observation of a turn.
  function Seen(s: State, turn: Turn, interval: nat): State {
    var arrived := s.(pending := if turn.arrived.Some? then turn.arrived else s.pending);
    var waited := if arrived.status.None? then arrived.(status := turn.exited) else arrived;
    if RefreshDue(waited.lastRefresh, turn.now, waited.status.Some?, interval) then
      waited.(lastRefresh := Some(turn.now), trace := waited.trace + [Observed(turn.anyLive, turn.now)])
    else waited
  }

  lemma RequestExact(s: State, turn: Turn)
    requires Request(s, turn).1
    ensures Requested(s, turn, Request(s, turn).0)
  {
  }

  lemma ForceExact(s: State, turn: Turn)
    requires ForceIfDue(s, turn).Running?
    ensures Forced(s, turn, ForceIfDue(s, turn).state)
  {
  }

  // A running turn in its four stages.
  lemma StepShape(s: State, turn: Turn, interval: nat)
    requires Step(s, turn, interval).Running?
    ensures var seen := Seen(s, turn, interval);
            Request(seen, turn).1 && Step(s, turn, interval) == ForceIfDue(Request(seen, turn).0, turn)
  {
  }

  /** While the loop goes on, the tree of a live root has been looked at within the last interval. */
  lemma {:induction false} TreeLookedAt(turns: seq<Turn>, interval: nat)
    requires turns != [] && Run(INITIAL, turns, interval).Running?
    ensures var s := Run(INITIAL, turns, interval).state;
            exists e :: e in s.trace && e.Observed? && s.lastRefresh == Some(e.at)
                        && (e.at == turns[|turns| - 1].now || turns[|turns| - 1].now < e.at + interval)
    decreases |turns|
  {
    var init, last := turns[..|turns| - 1], turns[|turns| - 1];
    assert turns == init + [last];
    RunAppend(INITIAL, init, last, interval);
    var before := Run(INITIAL, init, interval).state;
    var after := Run(INITIAL, turns, interval).state;
    TurnExact(before, last, interval);
    if after.lastRefresh == before.lastRefresh && init != [] {
      TreeLookedAt(init, interval);
      var e :| e in before.trace && e.Observed? && before.lastRefresh == Some(e.at);
      assert e in after.trace;
    } else {
      var e := Observed(last.anyLive, last.now);
      assert e in after.trace;
    }
  }

  lemma {:induction false} TraceGrows(turns: seq<Turn>, interval: nat, n: nat)
    requires n <= |turns| && Run(INITIAL, turns, interval).Running?
    ensures Run(INITIAL, turns[..n], interval).Running?
    ensures forall e :: e in Run(INITIAL, turns[..n], interval).state.trace ==>
              e in Run(INITIAL, turns, interval).state.trace
    decreases |turns| - n
  {
    if n == |turns| {
      assert turns[..n] == turns;
    } else {
      TraceGrows(turns, interval, n + 1);
      PrefixRuns(turns, interval, n + 1);
      NextResult(turns, interval, n);
      TurnExact(Run(INITIAL, turns[..n], interval).state, turns[n], interval);
    }
  }

  /** Over every run that goes on: a turn in which the Desktop input has ended while the root lives is
      answered, then or before, by a stop for the input. */
  lemma EndedInputStops(turns: seq<Turn>, interval: nat, i: nat)
    requires Ordered(turns) && i < |turns| && Run(INITIAL, turns, interval).Running? && turns[i].inputEnded
    requires Run(INITIAL, turns[..i + 1], interval).Running?
    requires Run(INITIAL, turns[..i + 1], interval).state.status.None?
    ensures exists e :: e in Run(INITIAL, turns, interval).state.trace && e.StopForInput?
  {
    TraceGrows(turns, interval, i + 1);
    PrefixRuns(turns, interval, i + 1);
    NextResult(turns, interval, i);
    var before := Run(INITIAL, turns[..i], interval).state;
    var after := Run(INITIAL, turns[..i + 1], interval).state;
    var clock := RunInvariant(INITIAL, turns[..i + 1], interval, 0);
    EndedInputCloses(before, turns[i], interval);
    var e :| e in after.trace && e.StopForInput?;
    assert e in Run(INITIAL, turns, interval).state.trace;
  }

  lemma EndedInputCloses(s: State, turn: Turn, interval: nat)
    requires turn.inputEnded && Step(s, turn, interval).Running? && Step(s, turn, interval).state.status.None?
    ensures Step(s, turn, interval).state.inputClosed
  {
    TurnExact(s, turn, interval);
  }

  lemma {:induction false} RunInvariant(s: State, turns: seq<Turn>, interval: nat, clock: nat) returns (end: nat)
    requires Invariant(s, clock) && Ordered(turns) && (turns != [] ==> clock <= turns[0].now)
    requires Run(s, turns, interval).Running?
    ensures Invariant(Run(s, turns, interval).state, end)
    decreases |turns|
  {
    end := clock;
    if turns != [] {
      StepKeeps(s, turns[0], interval, clock);
      assert forall i :: 0 <= i < |turns| - 1 ==> turns[1..][i] == turns[i + 1];
      end := RunInvariant(Step(s, turns[0], interval).state, turns[1..], interval, turns[0].forceAt);
    }
  }
}
