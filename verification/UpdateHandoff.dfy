/** Handing a service update from its Launcher to the Updater through the active-update lock. */
module UpdateHandoff {
  import opened Wrappers

  datatype Phase = Prepared | Downloading | WaitingForExit | Installing | Restarting | Succeeded | FailedPhase

  // An operation is named by its own status file.
  type Operation = nat
  type Pid = nat

  datatype Lock = Lock(owner: Pid, op: Operation)

  // ----- the two polling loops --------------------------------------------------------

  datatype Decision = Go | Wait | Refuse

  // What one round of the Launcher's wait sees. A status file that cannot be read, has another
  // schema or shows a phase outside the list is bad.
  datatype StatusRead = NoStatus | BadStatus | Shows(phase: Phase)
  datatype ChildRead = Running | Exited | CheckFails
  datatype ReadyRound = ReadyRound(status: StatusRead, child: ChildRead, timedOut: bool)

  function ReadyDecision(round: ReadyRound, service: bool): Decision {
    match round.status
    case Shows(WaitingForExit) => Go
    case Shows(Installing) => if service then Go else Refuse
    case Shows(Restarting) => if service then Go else Refuse
    case Shows(Succeeded) => if service then Go else Refuse
    case Shows(FailedPhase) => Refuse
    case Shows(Downloading) => Refuse
    case BadStatus => Refuse
    case Shows(Prepared) => if round.child.Running? && !round.timedOut then Wait else Refuse
    case NoStatus => if round.child.Running? && !round.timedOut then Wait else Refuse
  }

  /** A round decides for the start on the status alone; it waits on only while nothing but "prepared" is
      to be seen, the child runs and there is time left; anything else is a failure. */
  lemma ReadyExact(round: ReadyRound, service: bool)
    ensures ReadyDecision(round, service) == Go <==>
              || round.status == Shows(WaitingForExit)
              || (service && round.status in {Shows(Installing), Shows(Restarting), Shows(Succeeded)})
    ensures ReadyDecision(round, service) == Wait <==>
              && round.status in {NoStatus, Shows(Prepared)} && round.child == Running && !round.timedOut
  {
  }

  /** Waits for the Updater to take its position; `Wait` means the rounds ran out first. */
  method WaitForUpdaterReady(rounds: seq<ReadyRound>, service: bool) returns (decision: Decision, used: nat)
    ensures used <= |rounds|
    ensures decision == Wait ==> used == |rounds|
    ensures decision == Wait ==> forall i :: 0 <= i < |rounds| ==> ReadyDecision(rounds[i], service) == Wait
    ensures decision != Wait ==>
      && used > 0 && ReadyDecision(rounds[used - 1], service) == decision
      && forall i :: 0 <= i < used - 1 ==> ReadyDecision(rounds[i], service) == Wait
  {
    for i := 0 to |rounds|
      invariant forall j :: 0 <= j < i ==> ReadyDecision(rounds[j], service) == Wait
    {
      var round := rounds[i];
      if round.status.BadStatus? {
        return Refuse, i + 1;
      }
      if round.status.Shows? {
        var phase := round.status.phase;
        if phase.WaitingForExit? || (service && (phase.Installing? || phase.Restarting? || phase.Succeeded?)) {
          return Go, i + 1;
        }
        if !phase.Prepared? {
          return Refuse, i + 1;
        }
      }
      if !round.child.Running? || round.timedOut {
        return Refuse, i + 1;
      }
    }
    return Wait, |rounds|;
  }

  // What one round of the Updater's wait sees: the lock, if the file is there, or a bad file.
  datatype LockRead = Absent | Malformed | Held(lock: Lock)
  datatype OwnerRound = OwnerRound(read: LockRead, timedOut: bool)

  function OwnershipDecision(round: OwnerRound, self: Pid, op: Operation): Decision {
    if round.read.Malformed? then Refuse
    else if round.read.Held? && round.read.lock.op != op then Refuse
    else if round.read.Held? && round.read.lock.owner == self then Go
    else if round.timedOut then Refuse
    else Wait
  }

  /** The round shows no lock, or one of this operation with another owner, and there is time left. */
  predicate Undecided(round: OwnerRound, self: Pid, op: Operation) {
    && !round.timedOut
    && (round.read.Absent? || (round.read.Held? && round.read.lock.op == op && round.read.lock.owner != self))
  }

  predicate AllWait(rounds: seq<OwnerRound>, self: Pid, op: Operation) {
    forall j :: 0 <= j < |rounds| ==> Undecided(rounds[j], self, op)
  }

  lemma OwnershipExact(round: OwnerRound, self: Pid, op: Operation)
    ensures OwnershipDecision(round, self, op) == Go <==> round.read == Held(Lock(self, op))
    ensures OwnershipDecision(round, self, op) == Wait <==> Undecided(round, self, op)
  {
  }

  /** The Updater goes on exactly when some round shows the lock naming this process and this
      operation, and no earlier round made it give up. */
  method WaitForOwnership(rounds: seq<OwnerRound>, self: Pid, op: Operation) returns (decision: Decision)
    ensures decision == Go <==>
      exists i :: 0 <= i < |rounds| && rounds[i].read == Held(Lock(self, op)) && AllWait(rounds[..i], self, op)
    ensures decision == Wait <==> AllWait(rounds, self, op)
  {
    for i := 0 to |rounds|
      invariant AllWait(rounds[..i], self, op)
    {
      assert rounds[..i + 1] == rounds[..i] + [rounds[i]];
      match rounds[i].read {
        case Malformed => return Refuse;
        case Held(lock) =>
          if lock.op != op {
            return Refuse;
          }
          if lock.owner == self {
            assert rounds[i].read == Held(Lock(self, op)) && AllWait(rounds[..i], self, op);
            return Go;
          }
        case Absent =>
      }
      if rounds[i].timedOut {
        return Refuse;
      }
    }
    assert rounds[..|rounds|] == rounds;
    return Wait;
  }

  // ----- the interleaved system -------------------------------------------------------

  datatype LauncherAt =
    | Idle
    | Reading(op: Operation)                 // has read the lock
    | Chosen(op: Operation)                  // has found the request startable
    | Spawned(op: Operation, child: Pid)     // the Updater runs, the lock is not transferred
    | Handed(op: Operation, child: Pid)      // the lock names the child, waiting for readiness
    | Recording(op: Operation)               // the start failed and its child is reaped

  datatype Launcher = Launcher(at: LauncherAt, started: Option<Operation>)

  // `Done` has written its final status and only exits.
  datatype UpdaterAt = Starting | Polling | Owner | Done

  // `parent` is the live Launcher that spawned the Updater.
  datatype Updater = Updater(op: Operation, at: UpdaterAt, parent: Option<Pid>)

  // Only live processes are listed, so a PID may come back once its process is gone.
  datatype State = State(
    lock: Option<Lock>,
    phase: map<Operation, Phase>,
    waitPid: map<Operation, Pid>,          // the request files
    launchers: map<Pid, Launcher>,
    updaters: map<Pid, Updater>,
    succeeded: map<Operation, Pid>)        // requests started successfully, each with its child

  datatype Step =
    | ReadLock(l: Pid)
    | CheckRequest(l: Pid)
    | Spawn(l: Pid, child: Pid)
    | SpawnFails(l: Pid)
    | Transfer(l: Pid, ok: bool)
    | PollReady(l: Pid, readable: bool, timedOut: bool)
    | RecordFailure(l: Pid, ok: bool)
    | LauncherExits(l: Pid)
    | LauncherStarts(l: Pid)
    | Acknowledge(u: Pid)
    | PollLock(u: Pid, timedOut: bool)
    | Progress(u: Pid, to: Phase)
    | UpdaterFails(u: Pid)                 // gives up before it owns the lock, recording the failure
    | UpdaterExits(u: Pid)
    | NewOperation(op: Operation, owner: Pid, waiter: Pid)
    | ReleaseLock

  function MidStart(at: LauncherAt): Option<Operation> {
    if at.Idle? then None else Some(at.op)
  }

  function Child(at: LauncherAt): Option<Pid> {
    if at.Spawned? || at.Handed? then Some(at.child) else None
  }

  // A PID the system may give to a new process: nobody live has it and no parent still holds it.
  ghost predicate FreshPid(s: State, pid: Pid) {
    && pid !in s.updaters && pid !in s.launchers
    && forall l :: l in s.launchers ==> Child(s.launchers[l].at) != Some(pid)
  }

  function ReadyNow(s: State, op: Operation, child: Pid, readable: bool, timedOut: bool): Decision {
    var status := if !readable then BadStatus else if op in s.phase then Shows(s.phase[op]) else NoStatus;
    ReadyDecision(ReadyRound(status, if child in s.updaters then Running else Exited, timedOut), true)
  }

  function OwnershipNow(s: State, u: Pid, timedOut: bool): Decision
    requires u in s.updaters
  {
    OwnershipDecision(OwnerRound(if s.lock.Some? then Held(s.lock.value) else Absent, timedOut), u, s.updaters[u].op)
  }

  predicate StartableNow(s: State, l: Pid, op: Operation)
    requires l in s.launchers
  {
    && op in s.phase && s.phase[op].Prepared?
    && op in s.waitPid && s.waitPid[op] == l && s.launchers[l].started != Some(op)
  }

  // A new operation creates the lock file exclusively; anyone may remove it.
  ghost predicate Enabled(s: State, step: Step) {
    match step
    case ReadLock(l) => l in s.launchers && s.launchers[l].at.Idle? && s.lock.Some?
    case CheckRequest(l) => l in s.launchers && s.launchers[l].at.Reading?
    case Spawn(l, child) => l in s.launchers && s.launchers[l].at.Chosen? && FreshPid(s, child)
    case SpawnFails(l) => l in s.launchers && s.launchers[l].at.Chosen?
    case Transfer(l, _) => l in s.launchers && s.launchers[l].at.Spawned?
    case PollReady(l, _, _) => l in s.launchers && s.launchers[l].at.Handed?
    case RecordFailure(l, _) => l in s.launchers && s.launchers[l].at.Recording?
    case LauncherExits(l) => l in s.launchers
    case LauncherStarts(l) => FreshPid(s, l)
    case Acknowledge(u) =>
      && u in s.updaters && s.updaters[u].at.Starting?
      && s.updaters[u].op in s.waitPid && s.waitPid[s.updaters[u].op] in s.launchers
    case PollLock(u, _) => u in s.updaters && s.updaters[u].at.Polling?
    case Progress(u, to) => u in s.updaters && s.updaters[u].at.Owner?
        && (to.Installing? || to.Restarting? || to.Succeeded? || to.FailedPhase?)
    case UpdaterFails(u) => u in s.updaters && (s.updaters[u].at.Starting? || s.updaters[u].at.Polling?)
    case UpdaterExits(u) => u in s.updaters
    case NewOperation(op, _, _) => s.lock.None? && op !in s.phase && op !in s.waitPid
    case ReleaseLock => true
  }

  function Move(s: State, l: Pid, at: LauncherAt): State
    requires l in s.launchers
  {
    s.(launchers := s.launchers[l := s.launchers[l].(at := at)])
  }

  // A failed start kills and reaps its child before anything is recorded.
  function FailStart(s: State, l: Pid, op: Operation, child: Pid): State
    requires l in s.launchers
  {
    Move(s.(updaters := s.updaters - {child}), l, Recording(op))
  }

  // The system takes the children of an exited Launcher away from it.
  function Orphaned(updaters: map<Pid, Updater>, l: Pid): map<Pid, Updater> {
    map u | u in updaters :: if updaters[u].parent == Some(l) then updaters[u].(parent := None) else updaters[u]
  }

  function GiveUp(s: State, u: Pid): State
    requires u in s.updaters
  {
    s.(phase := s.phase[s.updaters[u].op := FailedPhase], updaters := s.updaters - {u})
  }

  function Apply(s: State, step: Step): State
    requires Enabled(s, step)
  {
    match step
    case ReadLock(l) => Move(s, l, Reading(s.lock.value.op))
    case CheckRequest(l) =>
      var op := s.launchers[l].at.op;
      Move(s, l, if StartableNow(s, l, op) then Chosen(op) else Idle)
    case Spawn(l, child) =>
      var op := s.launchers[l].at.op;
      Move(s.(updaters := s.updaters[child := Updater(op, Starting, Some(l))]), l, Spawned(op, child))
    case SpawnFails(l) => Move(s, l, Recording(s.launchers[l].at.op))
    case Transfer(l, ok) =>
      var at := s.launchers[l].at;
      if ok then Move(s.(lock := Some(Lock(at.child, at.op))), l, Handed(at.op, at.child))
      else FailStart(s, l, at.op, at.child)
    case PollReady(l, readable, timedOut) =>
      var at := s.launchers[l].at;
      (match ReadyNow(s, at.op, at.child, readable, timedOut)
       case Go =>
         s.(launchers := s.launchers[l := Launcher(Idle, Some(at.op))], succeeded := s.succeeded[at.op := at.child])
       case Wait => s
       case Refuse => FailStart(s, l, at.op, at.child))
    case RecordFailure(l, ok) =>
      var op := s.launchers[l].at.op;
      Move(if ok then s.(phase := s.phase[op := FailedPhase]) else s, l, Idle)
    case LauncherExits(l) => s.(launchers := s.launchers - {l}, updaters := Orphaned(s.updaters, l))
    case LauncherStarts(l) => s.(launchers := s.launchers[l := Launcher(Idle, None)])
    case Acknowledge(u) =>
      s.(phase := s.phase[s.updaters[u].op := WaitingForExit],
         updaters := s.updaters[u := s.updaters[u].(at := Polling)])
    case PollLock(u, timedOut) =>
      (match OwnershipNow(s, u, timedOut)
       case Go => s.(updaters := s.updaters[u := s.updaters[u].(at := Owner)])
       case Wait => s
       case Refuse => GiveUp(s, u))
    case Progress(u, to) =>
      s.(phase := s.phase[s.updaters[u].op := to],
         updaters := s.updaters[u := s.updaters[u].(at := if to.Succeeded? || to.FailedPhase? then Done else Owner)])
    case UpdaterFails(u) => GiveUp(s, u)
    case UpdaterExits(u) => s.(updaters := s.updaters - {u})
    case NewOperation(op, owner, waiter) =>
      s.(lock := Some(Lock(owner, op)), phase := s.phase[op := Prepared], waitPid := s.waitPid[op := waiter])
    case ReleaseLock => s.(lock := None)
  }

  /** The state after these steps, or None when one of them was not enabled. */
  ghost function Run(s: State, steps: seq<Step>): Option<State>
    decreases |steps|
  {
    if steps == [] then Some(s)
    else if !Enabled(s, steps[0]) then None
    else Run(Apply(s, steps[0]), steps[1..])
  }

  const EMPTY := State(None, map[], map[], map[], map[], map[])

  // ----- what every run keeps ---------------------------------------------------------

  predicate Committed(at: LauncherAt) {
    at.Chosen? || at.Spawned? || at.Handed? || at.Recording?
  }

  ghost predicate OperationsKnown(s: State) {
    && s.phase.Keys == s.waitPid.Keys
    && (s.lock.Some? ==> s.lock.value.op in s.phase)
    && (forall l :: l in s.launchers && MidStart(s.launchers[l].at).Some? ==> s.launchers[l].at.op in s.phase)
    && (forall u :: u in s.updaters ==> s.updaters[u].op in s.phase)
  }

  /** A committed start is for this Launcher's own request, never started successfully before. */
  ghost predicate StartsAreOwn(s: State) {
    forall l :: l in s.launchers && Committed(s.launchers[l].at) ==>
      var op := s.launchers[l].at.op;
      op in s.waitPid && s.waitPid[op] == l && op !in s.succeeded
  }

  /** A successfully started request never looks prepared again. */
  ghost predicate SuccessesMovedOn(s: State) {
    forall op :: op in s.succeeded ==> op in s.phase && !s.phase[op].Prepared?
  }

  ghost predicate ChildrenKnown(s: State) {
    forall l :: l in s.launchers && Child(s.launchers[l].at).Some? && s.launchers[l].at.child in s.updaters ==>
      var u := s.updaters[s.launchers[l].at.child];
      u.op == s.launchers[l].at.op && u.parent == Some(l)
  }

  /** A live Updater is the child of the start in progress, or the very child of the start that
      succeeded, or it has lost its Launcher: no failed start leaves its child alive. */
  ghost predicate Accounted(s: State, u: Pid)
    requires u in s.updaters
  {
    var updater := s.updaters[u];
    updater.parent.Some? ==>
      && updater.parent.value in s.launchers
      && updater.op in s.waitPid && s.waitPid[updater.op] == updater.parent.value
      && (Child(s.launchers[updater.parent.value].at) == Some(u)
          || (updater.op in s.succeeded && s.succeeded[updater.op] == u))
  }

  ghost predicate AcknowledgedMovedOn(s: State) {
    forall u :: u in s.updaters && !s.updaters[u].at.Starting? ==>
      s.updaters[u].op in s.phase && !s.phase[s.updaters[u].op].Prepared?
  }

  ghost predicate Sound(s: State) {
    && OperationsKnown(s) && StartsAreOwn(s) && SuccessesMovedOn(s) && ChildrenKnown(s) && AcknowledgedMovedOn(s)
    && forall u :: u in s.updaters ==> Accounted(s, u)
  }

  predicate LauncherStep(step: Step) {
    step.ReadLock? || step.CheckRequest? || step.Spawn? || step.SpawnFails? || step.Transfer?
    || step.PollReady? || step.RecordFailure?
  }

  lemma FailStartSound(s: State, l: Pid)
    requires Sound(s) && l in s.launchers && Child(s.launchers[l].at).Some?
    ensures Sound(FailStart(s, l, s.launchers[l].at.op, s.launchers[l].at.child))
  {
    var t := FailStart(s, l, s.launchers[l].at.op, s.launchers[l].at.child);
    forall u | u in t.updaters ensures Accounted(t, u) {
      assert Accounted(s, u);
    }
  }

  lemma SpawnSound(s: State, l: Pid, child: Pid)
    requires Sound(s) && Enabled(s, Spawn(l, child))
    ensures Sound(Apply(s, Spawn(l, child)))
  {
    var t := Apply(s, Spawn(l, child));
    forall u | u in t.updaters ensures Accounted(t, u) {
      assert u in s.updaters ==> Accounted(s, u);
    }
  }

  lemma PollReadySound(s: State, step: Step)
    requires Sound(s) && Enabled(s, step) && step.PollReady?
    ensures Sound(Apply(s, step))
  {
    var t := Apply(s, step);
    var at := s.launchers[step.l].at;
    if ReadyNow(s, at.op, at.child, step.readable, step.timedOut).Refuse? {
      FailStartSound(s, step.l);
    } else {
      forall u | u in t.updaters ensures Accounted(t, u) {
        assert Accounted(s, u);
      }
    }
  }

  lemma RecordFailureSound(s: State, l: Pid, ok: bool)
    requires Sound(s) && Enabled(s, RecordFailure(l, ok))
    ensures Sound(Apply(s, RecordFailure(l, ok)))
  {
    var t := Apply(s, RecordFailure(l, ok));
    forall u | u in t.updaters ensures Accounted(t, u) {
      assert Accounted(s, u);
    }
  }

  lemma LauncherMoveSound(s: State, step: Step)
    requires Sound(s) && Enabled(s, step) && LauncherStep(step)
    requires !step.Spawn? && !step.PollReady? && !(step.Transfer? && !step.ok)
    ensures Sound(Apply(s, step))
  {
    if step.RecordFailure? {
      RecordFailureSound(s, step.l, step.ok);
    } else {
      var t := Apply(s, step);
      forall u | u in t.updaters ensures Accounted(t, u) {
        assert Accounted(s, u);
      }
    }
  }

  lemma LauncherStepSound(s: State, step: Step)
    requires Sound(s) && Enabled(s, step) && LauncherStep(step)
    ensures Sound(Apply(s, step))
  {
    if step.Spawn? {
      SpawnSound(s, step.l, step.child);
    } else if step.PollReady? {
      PollReadySound(s, step);
    } else if step.Transfer? && !step.ok {
      FailStartSound(s, step.l);
    } else {
      LauncherMoveSound(s, step);
    }
  }

  lemma GiveUpSound(s: State, u: Pid)
    requires Sound(s) && u in s.updaters
    ensures Sound(GiveUp(s, u))
  {
    var t := GiveUp(s, u);
    forall v | v in t.updaters ensures Accounted(t, v) {
      assert Accounted(s, v);
    }
  }

  lemma UpdaterMoveSound(s: State, step: Step)
    requires Sound(s) && Enabled(s, step)
    requires step.Acknowledge? || step.Progress? || step.UpdaterExits?
    ensures Sound(Apply(s, step))
  {
    var t := Apply(s, step);
    forall u | u in t.updaters ensures Accounted(t, u) {
      assert Accounted(s, u);
    }
  }

  lemma PollLockSound(s: State, u: Pid, timedOut: bool)
    requires Sound(s) && Enabled(s, PollLock(u, timedOut))
    ensures Sound(Apply(s, PollLock(u, timedOut)))
  {
    var t := Apply(s, PollLock(u, timedOut));
    if OwnershipNow(s, u, timedOut).Refuse? {
      GiveUpSound(s, u);
    } else {
      forall v | v in t.updaters ensures Accounted(t, v) {
        assert Accounted(s, v);
      }
    }
  }

  lemma LauncherEndSound(s: State, step: Step)
    requires Sound(s) && Enabled(s, step) && (step.LauncherExits? || step.LauncherStarts?)
    ensures Sound(Apply(s, step))
  {
    var t := Apply(s, step);
    forall u | u in t.updaters ensures Accounted(t, u) {
      assert Accounted(s, u);
    }
  }

  lemma LockStepSound(s: State, step: Step)
    requires Sound(s) && Enabled(s, step) && (step.NewOperation? || step.ReleaseLock?)
    ensures Sound(Apply(s, step))
  {
    var t := Apply(s, step);
    forall u | u in t.updaters ensures Accounted(t, u) {
      assert Accounted(s, u);
    }
  }

  lemma StepSound(s: State, step: Step)
    requires Sound(s) && Enabled(s, step)
    ensures Sound(Apply(s, step))
  {
    if LauncherStep(step) {
      LauncherStepSound(s, step);
    } else if step.LauncherExits? || step.LauncherStarts? {
      LauncherEndSound(s, step);
    } else if step.NewOperation? || step.ReleaseLock? {
      LockStepSound(s, step);
    } else if step.PollLock? {
      PollLockSound(s, step.u, step.timedOut);
    } else if step.UpdaterFails? {
      GiveUpSound(s, step.u);
    } else {
      UpdaterMoveSound(s, step);
    }
  }

  lemma {:induction false} RunSound(s: State, steps: seq<Step>)
    requires Sound(s) && Run(s, steps).Some?
    ensures Sound(Run(s, steps).value)
    decreases |steps|
  {
    if steps != [] {
      StepSound(s, steps[0]);
      RunSound(Apply(s, steps[0]), steps[1..]);
    }
  }

  /** A request that was started successfully is never spawned again, by any Launcher that ever
      runs, whoever else writes the lock and whichever PIDs come back. */
  lemma NeverSpawnedAgain(steps: seq<Step>, s: State, l: Pid, child: Pid)
    requires Run(EMPTY, steps) == Some(s) && Enabled(s, Spawn(l, child))
    ensures s.launchers[l].at.op !in s.succeeded
  {
    RunSound(EMPTY, steps);
  }

  /** Every failed start leaves its child dead: a live Updater whose Launcher still runs is the
      child of the start that Launcher is making, or the one with which its request succeeded. */
  lemma FailedStartsLeaveNoChild(steps: seq<Step>, s: State, u: Pid)
    requires Run(EMPTY, steps) == Some(s) && u in s.updaters && s.updaters[u].parent.Some?
    ensures var l := s.updaters[u].parent.value;
            && l in s.launchers && s.updaters[u].op in s.waitPid && s.waitPid[s.updaters[u].op] == l
            && (Child(s.launchers[l].at) != Some(u) ==>
                  s.updaters[u].op in s.succeeded && s.succeeded[s.updaters[u].op] == u)
  {
    RunSound(EMPTY, steps);
    assert Accounted(s, u);
  }

  // ----- what a step writes -----------------------------------------------------------

  /** The lock is written by nobody but a Launcher that hands it to its own child, a new operation where
      there was none, and a removal. */
  lemma LockWrites(s: State, step: Step)
    requires Enabled(s, step)
    ensures Apply(s, step).lock ==
              if step.Transfer? && step.ok then
                Some(Lock(s.launchers[step.l].at.child, s.launchers[step.l].at.op))
              else if step.NewOperation? then Some(Lock(step.owner, step.op))
              else if step.ReleaseLock? then None
              else s.lock
    ensures step.NewOperation? ==> s.lock.None?
  {
  }

  // The operation whose status file a step may write: the writer's own.
  function WritesStatusOf(s: State, step: Step): Option<Operation>
    requires Enabled(s, step)
  {
    match step
    case RecordFailure(l, _) => Some(s.launchers[l].at.op)
    case Acknowledge(u) => Some(s.updaters[u].op)
    case PollLock(u, _) => Some(s.updaters[u].op)
    case Progress(u, _) => Some(s.updaters[u].op)
    case UpdaterFails(u) => Some(s.updaters[u].op)
    case NewOperation(op, _, _) => Some(op)
    case _ => None
  }

  /** Every status write goes to the writer's own operation, and says what the writer came to. */
  lemma StatusWrites(s: State, step: Step)
    requires Enabled(s, step)
    ensures forall op :: WritesStatusOf(s, step) != Some(op) ==>
              (op in Apply(s, step).phase <==> op in s.phase)
              && (op in s.phase ==> Apply(s, step).phase[op] == s.phase[op])
    ensures step.Acknowledge? ==> Apply(s, step).phase[s.updaters[step.u].op] == WaitingForExit
    ensures step.Progress? ==> Apply(s, step).phase[s.updaters[step.u].op] == step.to
    ensures step.UpdaterFails? ==> Apply(s, step).phase[s.updaters[step.u].op] == FailedPhase
    ensures step.RecordFailure? && step.ok ==> Apply(s, step).phase[s.launchers[step.l].at.op] == FailedPhase
    ensures step.NewOperation? ==> Apply(s, step).phase[step.op] == Prepared
    ensures step.PollLock? ==>
              var op := s.updaters[step.u].op;
              var own := s.lock == Some(Lock(step.u, op));
              var foreign := s.lock.Some? && s.lock.value.op != op;
              if foreign || (!own && step.timedOut) then
                Apply(s, step).phase == s.phase[op := FailedPhase] && step.u !in Apply(s, step).updaters
              else
                Apply(s, step).phase == s.phase
                && Apply(s, step).updaters == if own then s.updaters[step.u := s.updaters[step.u].(at := Owner)]
                                              else s.updaters
  {
  }

  /** An Updater acknowledges exactly once and only while the Launcher its request names is alive; it goes
      on to its work only as an owner; a new process gets a PID that no live process has. */
  lemma GuardsExact(s: State, u: Pid)
    ensures Enabled(s, Acknowledge(u)) <==>
              && u in s.updaters && s.updaters[u].at == Starting
              && exists l :: l in s.launchers && s.updaters[u].op in s.waitPid && s.waitPid[s.updaters[u].op] == l
    ensures forall to :: Enabled(s, Progress(u, to)) <==>
              IsOwner(s, u) && to in {Installing, Restarting, Succeeded, FailedPhase}
    ensures Enabled(s, LauncherStarts(u)) ==> u !in s.launchers && u !in s.updaters
    ensures forall l :: Enabled(s, Spawn(l, u)) ==> u !in s.launchers && u !in s.updaters && l in s.launchers
  {
  }

  /** A Launcher commits to a start exactly when the request is prepared, waits for this Launcher and is not
      the one it started last. */
  lemma CommitsExactly(s: State, l: Pid, op: Operation)
    requires Enabled(s, CheckRequest(l)) && s.launchers[l].at == Reading(op)
    ensures Apply(s, CheckRequest(l)).launchers[l].at ==
              if op in s.phase && s.phase[op] == Prepared && op in s.waitPid && s.waitPid[op] == l
                 && s.launchers[l].started != Some(op)
              then Chosen(op) else Idle
  {
  }

  /** A start with a child ends in one of two ways: the child is gone and the failure is about to be
      recorded, or the status showed that the Updater took its position, and the success is remembered.
      Until then only the transfer moves it. */
  lemma StartEnds(s: State, step: Step, l: Pid)
    requires Enabled(s, step) && l in s.launchers && Child(s.launchers[l].at).Some?
    requires l in Apply(s, step).launchers && Apply(s, step).launchers[l].at != s.launchers[l].at
    ensures var at, t := s.launchers[l].at, Apply(s, step);
            || (t.launchers[l].at == Recording(at.op) && at.child !in t.updaters)
            || (t.launchers[l].at == Handed(at.op, at.child) && at.Spawned? && t.lock == Some(Lock(at.child, at.op)))
            || (t.launchers[l] == Launcher(Idle, Some(at.op)) && at.Handed?
                && t.succeeded == s.succeeded[at.op := at.child] && at.op in s.phase
                && s.phase[at.op] in {WaitingForExit, Installing, Restarting, Succeeded})
  {
  }

  // ----- one owner, and when exactly --------------------------------------------------

  /** An Updater past the wait is the one the lock names, with its own status file. */
  ghost predicate OwnersHoldLock(s: State) {
    forall u :: u in s.updaters && s.updaters[u].at.Owner? ==> s.lock == Some(Lock(u, s.updaters[u].op))
  }

  /** This Launcher can still transfer the lock without reading it again. */
  predicate Armed(s: State, l: Pid)
    requires l in s.launchers
  {
    var at := s.launchers[l].at;
    at.Chosen? || at.Spawned? || (at.Reading? && StartableNow(s, l, at.op))
  }

  /** No Updater owns the lock and no Launcher is about to transfer it: the lock may go. */
  ghost predicate LockFree(s: State) {
    && (forall u :: u in s.updaters ==> !s.updaters[u].at.Owner?)
    && (forall l :: l in s.launchers ==> !Armed(s, l))
  }

  // The lock names a live Updater of its own operation.
  predicate NamesUpdater(s: State) {
    && s.lock.Some? && s.lock.value.owner in s.updaters
    && s.updaters[s.lock.value.owner].op == s.lock.value.op
  }

  /** The lock names a live Updater that has not acknowledged yet, and its request waits for this PID. */
  predicate AwaitedBy(s: State, l: Pid) {
    && NamesUpdater(s)
    && var op := s.lock.value.op;
       op in s.phase && s.phase[op].Prepared? && op in s.waitPid && s.waitPid[op] == l
  }

  /** The premises of the ownership theorem, step by step: the lock is removed only while it is
      free, and no new Launcher gets the PID a named Updater is waiting for. */
  ghost predicate Careful(s: State, step: Step) {
    && (step.ReleaseLock? ==> LockFree(s))
    && (step.LauncherStarts? ==> !AwaitedBy(s, step.l))
  }

  /** `steps` is a careful run from `s` to `t`. */
  ghost predicate Leads(s: State, steps: seq<Step>, t: State)
    decreases |steps|
  {
    if steps == [] then t == s
    else Enabled(s, steps[0]) && Careful(s, steps[0]) && Leads(Apply(s, steps[0]), steps[1..], t)
  }

  ghost predicate ArmedHoldLock(s: State) {
    forall l :: l in s.launchers && Armed(s, l) ==>
      && s.lock.Some? && s.lock.value.op == s.launchers[l].at.op
      && (NamesUpdater(s) ==> Child(s.launchers[l].at) == Some(s.lock.value.owner))
  }

  ghost predicate NamedHaveParents(s: State) {
    forall l :: l in s.launchers && AwaitedBy(s, l) ==> s.updaters[s.lock.value.owner].parent == Some(l)
  }

  ghost predicate Exclusive(s: State) {
    Sound(s) && OwnersHoldLock(s) && ArmedHoldLock(s) && NamedHaveParents(s)
  }

  // The Launcher that may transfer a lock is the only one of its operation.
  lemma ArmedIsWaitedFor(s: State, l: Pid)
    requires Sound(s) && l in s.launchers && Armed(s, l)
    ensures s.launchers[l].at.op in s.waitPid && s.waitPid[s.launchers[l].at.op] == l
  {
  }

  lemma ReadLockExclusive(s: State, l: Pid)
    requires Exclusive(s) && Enabled(s, ReadLock(l))
    ensures Exclusive(Apply(s, ReadLock(l)))
  {
    StepSound(s, ReadLock(l));
    var t := Apply(s, ReadLock(l));
    if Armed(t, l) && NamesUpdater(t) {
      assert AwaitedBy(s, l);
      assert Accounted(s, s.lock.value.owner);
    }
  }

  lemma SpawnExclusive(s: State, l: Pid, child: Pid)
    requires Exclusive(s) && Enabled(s, Spawn(l, child))
    ensures Exclusive(Apply(s, Spawn(l, child)))
  {
    StepSound(s, Spawn(l, child));
    ArmedIsWaitedFor(s, l);
    var t := Apply(s, Spawn(l, child));
    forall k | k in t.launchers && Armed(t, k)
      ensures t.lock.Some? && t.lock.value.op == t.launchers[k].at.op
      ensures NamesUpdater(t) ==> Child(t.launchers[k].at) == Some(t.lock.value.owner)
    {
      assert Armed(s, k);
      ArmedIsWaitedFor(s, k);
    }
  }

  lemma TransferExclusive(s: State, l: Pid)
    requires Exclusive(s) && Enabled(s, Transfer(l, true))
    ensures Exclusive(Apply(s, Transfer(l, true)))
  {
    StepSound(s, Transfer(l, true));
    ArmedIsWaitedFor(s, l);
    var t := Apply(s, Transfer(l, true));
    forall k | k in t.launchers ensures !Armed(t, k) {
      if Armed(t, k) {
        assert Armed(s, k);
        ArmedIsWaitedFor(s, k);
      }
    }
    forall u | u in t.updaters && t.updaters[u].at.Owner? ensures t.lock == Some(Lock(u, t.updaters[u].op)) {
      assert NamesUpdater(s);
    }
  }

  // Steps that leave lock, request files and Updaters alone or only remove an Updater.
  lemma QuietStepExclusive(s: State, t: State)
    requires Exclusive(s) && Sound(t) && t.lock == s.lock && t.waitPid == s.waitPid
    requires t.launchers.Keys <= s.launchers.Keys && t.updaters.Keys <= s.updaters.Keys
    requires forall op :: op in t.phase && t.phase[op].Prepared? ==> op in s.phase && s.phase[op].Prepared?
    requires forall l :: l in t.launchers && Armed(t, l) ==>
               Armed(s, l) && t.launchers[l].at.op == s.launchers[l].at.op
               && Child(t.launchers[l].at) == Child(s.launchers[l].at)
    requires forall u :: u in t.updaters ==> t.updaters[u].op == s.updaters[u].op
    requires forall u :: u in t.updaters && s.updaters[u].parent.Some? && s.updaters[u].parent.value in t.launchers ==>
               t.updaters[u].parent == s.updaters[u].parent
    requires forall u :: u in t.updaters && t.updaters[u].at.Owner? ==>
               s.updaters[u].at.Owner? || s.lock == Some(Lock(u, s.updaters[u].op))
    ensures Exclusive(t)
  {
    forall l | l in t.launchers && AwaitedBy(t, l) ensures t.updaters[t.lock.value.owner].parent == Some(l) {
      assert AwaitedBy(s, l);
    }
  }

  lemma FailStartExclusive(s: State, l: Pid)
    requires Exclusive(s) && l in s.launchers && Child(s.launchers[l].at).Some?
    ensures Exclusive(FailStart(s, l, s.launchers[l].at.op, s.launchers[l].at.child))
  {
    FailStartSound(s, l);
    QuietStepExclusive(s, FailStart(s, l, s.launchers[l].at.op, s.launchers[l].at.child));
  }

  lemma CheckExclusive(s: State, l: Pid)
    requires Exclusive(s) && Enabled(s, CheckRequest(l))
    ensures Exclusive(Apply(s, CheckRequest(l)))
  {
    LauncherMoveSound(s, CheckRequest(l));
    QuietStepExclusive(s, Apply(s, CheckRequest(l)));
  }

  lemma LauncherMoveExclusive(s: State, step: Step)
    requires Exclusive(s) && Enabled(s, step) && (step.SpawnFails? || step.RecordFailure?)
    ensures Exclusive(Apply(s, step))
  {
    LauncherMoveSound(s, step);
    QuietStepExclusive(s, Apply(s, step));
  }

  lemma PollReadyExclusive(s: State, step: Step)
    requires Exclusive(s) && Enabled(s, step) && step.PollReady?
    ensures Exclusive(Apply(s, step))
  {
    var at := s.launchers[step.l].at;
    if ReadyNow(s, at.op, at.child, step.readable, step.timedOut).Refuse? {
      FailStartExclusive(s, step.l);
    } else {
      PollReadySound(s, step);
      QuietStepExclusive(s, Apply(s, step));
    }
  }

  lemma GiveUpExclusive(s: State, u: Pid)
    requires Exclusive(s) && u in s.updaters
    ensures Exclusive(GiveUp(s, u))
  {
    GiveUpSound(s, u);
    QuietStepExclusive(s, GiveUp(s, u));
  }

  lemma PollLockExclusive(s: State, u: Pid, timedOut: bool)
    requires Exclusive(s) && Enabled(s, PollLock(u, timedOut))
    ensures Exclusive(Apply(s, PollLock(u, timedOut)))
  {
    if OwnershipNow(s, u, timedOut).Refuse? {
      GiveUpExclusive(s, u);
    } else if OwnershipNow(s, u, timedOut).Go? {
      PollLockSound(s, u, timedOut);
      QuietStepExclusive(s, Apply(s, PollLock(u, timedOut)));
    }
  }

  lemma UpdaterMoveExclusive(s: State, step: Step)
    requires Exclusive(s) && Enabled(s, step)
    requires step.Acknowledge? || step.Progress? || step.UpdaterExits?
    ensures Exclusive(Apply(s, step))
  {
    UpdaterMoveSound(s, step);
    QuietStepExclusive(s, Apply(s, step));
  }

  lemma LauncherExitExclusive(s: State, l: Pid)
    requires Exclusive(s) && Enabled(s, LauncherExits(l))
    ensures Exclusive(Apply(s, LauncherExits(l)))
  {
    StepSound(s, LauncherExits(l));
    QuietStepExclusive(s, Apply(s, LauncherExits(l)));
  }

  lemma OutsideStepExclusive(s: State, step: Step)
    requires Exclusive(s) && Enabled(s, step) && Careful(s, step)
    requires step.LauncherStarts? || step.NewOperation? || step.ReleaseLock?
    ensures Exclusive(Apply(s, step))
  {
    StepSound(s, step);
    var t := Apply(s, step);
    forall k | k in t.launchers && Armed(t, k) ensures k in s.launchers && Armed(s, k) {
    }
  }

  lemma StepExclusive(s: State, step: Step)
    requires Exclusive(s) && Enabled(s, step) && Careful(s, step)
    ensures Exclusive(Apply(s, step))
  {
    match step {
      case ReadLock(l) => ReadLockExclusive(s, l);
      case Spawn(l, child) => SpawnExclusive(s, l, child);
      case Transfer(l, ok) =>
        if ok {
          TransferExclusive(s, l);
        } else {
          FailStartExclusive(s, l);
        }
      case PollReady(_, _, _) => PollReadyExclusive(s, step);
      case CheckRequest(l) => CheckExclusive(s, l);
      case SpawnFails(_) => LauncherMoveExclusive(s, step);
      case RecordFailure(_, _) => LauncherMoveExclusive(s, step);
      case LauncherExits(l) => LauncherExitExclusive(s, l);
      case PollLock(u, timedOut) => PollLockExclusive(s, u, timedOut);
      case UpdaterFails(u) => GiveUpExclusive(s, u);
      case Acknowledge(_) => UpdaterMoveExclusive(s, step);
      case Progress(_, _) => UpdaterMoveExclusive(s, step);
      case UpdaterExits(_) => UpdaterMoveExclusive(s, step);
      case LauncherStarts(_) => OutsideStepExclusive(s, step);
      case NewOperation(_, _, _) => OutsideStepExclusive(s, step);
      case ReleaseLock => OutsideStepExclusive(s, step);
    }
  }

  /** The ownership invariant survives every careful interleaving. */
  lemma {:induction false} RunExclusive(s: State, steps: seq<Step>, t: State)
    requires Exclusive(s) && Leads(s, steps, t)
    ensures Exclusive(t)
    decreases |steps|
  {
    if steps != [] {
      StepExclusive(s, steps[0]);
      RunExclusive(Apply(s, steps[0]), steps[1..], t);
    }
  }

  ghost predicate IsOwner(s: State, u: Pid) {
    u in s.updaters && s.updaters[u].at.Owner?
  }

  /** In every state a careful run reaches, at most one live Updater is past
      `wait_for_ownership`, and the lock names it and its own operation. */
  lemma OneOwner(steps: seq<Step>, s: State, u: Pid, v: Pid)
    requires Leads(EMPTY, steps, s) && IsOwner(s, u) && IsOwner(s, v)
    ensures u == v && s.lock == Some(Lock(u, s.updaters[u].op))
  {
    RunExclusive(EMPTY, steps, s);
  }

  /** Whatever careful steps follow, every owner is the one the lock names. */
  ghost predicate StaysExclusive(s: State) {
    forall steps, t :: Leads(s, steps, t) ==> OwnersHoldLock(t)
  }

  lemma {:induction false} LeadsAppend(s: State, steps: seq<Step>, m: State, step: Step)
    requires Leads(s, steps, m) && Enabled(m, step) && Careful(m, step)
    ensures Leads(s, steps + [step], Apply(m, step))
    decreases |steps|
  {
    if steps == [] {
      assert [step][1..] == [] && steps + [step] == [step];
    } else {
      assert (steps + [step])[0] == steps[0] && (steps + [step])[1..] == steps[1..] + [step];
      LeadsAppend(Apply(s, steps[0]), steps[1..], m, step);
    }
  }

  lemma {:induction false} LeadsConcat(s: State, a: seq<Step>, m: State, b: seq<Step>, t: State)
    requires Leads(s, a, m) && Leads(m, b, t)
    ensures Leads(s, a + b, t)
    decreases |b|
  {
    if b == [] {
      assert a + b == a;
    } else {
      LeadsAppend(s, a, m, b[0]);
      LeadsConcat(s, a + [b[0]], Apply(m, b[0]), b[1..], t);
      assert a + [b[0]] + b[1..] == a + b;
    }
  }

  lemma Above(pids: set<nat>) returns (r: nat)
    ensures forall p :: p in pids ==> p < r
  {
    if pids == {} {
      return 0;
    }
    var p :| p in pids;
    r := Above(pids - {p});
    r := if p < r then r else p + 1;
    assert forall q :: q in pids ==> q == p || q in pids - {p};
  }

  lemma NewPid(s: State, others: set<Pid>) returns (pid: Pid)
    ensures FreshPid(s, pid) && pid !in others
  {
    var children := set l | l in s.launchers && Child(s.launchers[l].at).Some? :: Child(s.launchers[l].at).value;
    pid := Above(s.updaters.Keys + s.launchers.Keys + children + others);
    assert forall l :: l in s.launchers && Child(s.launchers[l].at).Some? ==>
             Child(s.launchers[l].at).value in children;
  }

  // The state after this Launcher has spawned a child and transferred the lock to it.
  function HandedOver(s: State, l: Pid, op: Operation, child: Pid): State
    requires l in s.launchers
  {
    s.(lock := Some(Lock(child, op)),
       launchers := s.launchers[l := s.launchers[l].(at := Handed(op, child))],
       updaters := s.updaters[child := Updater(op, Starting, Some(l))])
  }

  function Acknowledged(s: State, u: Pid, at: UpdaterAt): State
    requires u in s.updaters
  {
    s.(phase := s.phase[s.updaters[u].op := WaitingForExit],
       updaters := s.updaters[u := s.updaters[u].(at := at)])
  }

  lemma TwoSteps(s: State, a: Step, b: Step)
    requires Enabled(s, a) && Careful(s, a) && Enabled(Apply(s, a), b) && Careful(Apply(s, a), b)
    ensures Leads(s, [a, b], Apply(Apply(s, a), b))
  {
    var t := Apply(Apply(s, a), b);
    assert [a, b][1..] == [b] && [b][1..] == [];
    assert Leads(t, [], t);
    assert Leads(Apply(s, a), [b], t);
  }

  // An Updater whose Launcher lives acknowledges and then finds itself in the lock.
  lemma TakesLock(s: State, u: Pid)
    requires u in s.updaters && s.updaters[u].at.Starting? && s.lock == Some(Lock(u, s.updaters[u].op))
    requires s.updaters[u].op in s.waitPid && s.waitPid[s.updaters[u].op] in s.launchers
    ensures Leads(s, [Acknowledge(u), PollLock(u, false)], Acknowledged(s, u, Owner))
  {
    TwoSteps(s, Acknowledge(u), PollLock(u, false));
    assert Apply(Apply(s, Acknowledge(u)), PollLock(u, false)) == Acknowledged(s, u, Owner);
  }

  lemma Spawns(s: State, l: Pid, child: Pid)
    requires l in s.launchers && s.launchers[l].at.Chosen? && FreshPid(s, child)
    ensures Leads(s, [Spawn(l, child), Transfer(l, true)], HandedOver(s, l, s.launchers[l].at.op, child))
  {
    TwoSteps(s, Spawn(l, child), Transfer(l, true));
    assert Apply(Apply(s, Spawn(l, child)), Transfer(l, true)) == HandedOver(s, l, s.launchers[l].at.op, child);
  }

  lemma Chooses(s: State, l: Pid)
    requires l in s.launchers && s.launchers[l].at.Idle? && s.lock.Some? && StartableNow(s, l, s.lock.value.op)
    ensures Leads(s, [ReadLock(l), CheckRequest(l)], Move(s, l, Chosen(s.lock.value.op)))
  {
    TwoSteps(s, ReadLock(l), CheckRequest(l));
    assert Apply(Apply(s, ReadLock(l)), CheckRequest(l)) == Move(s, l, Chosen(s.lock.value.op));
  }

  // The rest of a start: the Launcher's Updater ends up as the owner.
  lemma Finishes(s: State, l: Pid, child: Pid) returns (steps: seq<Step>)
    requires l in s.launchers && s.launchers[l].at.Chosen? && FreshPid(s, child)
    requires s.launchers[l].at.op in s.waitPid && s.waitPid[s.launchers[l].at.op] == l
    ensures Leads(s, steps, Acknowledged(HandedOver(s, l, s.launchers[l].at.op, child), child, Owner))
  {
    var m := HandedOver(s, l, s.launchers[l].at.op, child);
    Spawns(s, l, child);
    TakesLock(m, child);
    LeadsConcat(s, [Spawn(l, child), Transfer(l, true)], m, [Acknowledge(child), PollLock(child, false)],
                Acknowledged(m, child, Owner));
    steps := [Spawn(l, child), Transfer(l, true)] + [Acknowledge(child), PollLock(child, false)];
  }

  // A new Launcher for which a new operation is prepared, and which has found it startable.
  function Prepares(s: State, l: Pid, owner: Pid, op: Operation): State {
    s.(lock := Some(Lock(owner, op)), phase := s.phase[op := Prepared], waitPid := s.waitPid[op := l],
       launchers := s.launchers[l := Launcher(Chosen(op), None)])
  }

  function Preparation(l: Pid, owner: Pid, op: Operation): seq<Step> {
    [LauncherStarts(l), NewOperation(op, owner, l)] + [ReadLock(l), CheckRequest(l)]
  }

  // The new Launcher before it has looked at the operation.
  function Announced(s: State, l: Pid, owner: Pid, op: Operation): State {
    s.(lock := Some(Lock(owner, op)), phase := s.phase[op := Prepared], waitPid := s.waitPid[op := l],
       launchers := s.launchers[l := Launcher(Idle, None)])
  }

  lemma AnnouncedLeads(s: State, l: Pid, owner: Pid, op: Operation)
    requires s.lock.None? && FreshPid(s, l) && op !in s.phase && op !in s.waitPid
    ensures Leads(s, [LauncherStarts(l), NewOperation(op, owner, l)], Announced(s, l, owner, op))
  {
    TwoSteps(s, LauncherStarts(l), NewOperation(op, owner, l));
    assert Apply(Apply(s, LauncherStarts(l)), NewOperation(op, owner, l)) == Announced(s, l, owner, op);
  }

  lemma PreparesLeads(s: State, l: Pid, owner: Pid, op: Operation)
    requires s.lock.None? && FreshPid(s, l) && op !in s.phase && op !in s.waitPid
    ensures Leads(s, Preparation(l, owner, op), Prepares(s, l, owner, op))
  {
    var m := Announced(s, l, owner, op);
    AnnouncedLeads(s, l, owner, op);
    Chooses(m, l);
    assert Move(m, l, Chosen(op)) == Prepares(s, l, owner, op);
    LeadsConcat(s, [LauncherStarts(l), NewOperation(op, owner, l)], m, [ReadLock(l), CheckRequest(l)],
                Prepares(s, l, owner, op));
  }

  // With the lock file gone, somebody prepares a new operation for a new Launcher and its
  // Updater takes the lock, whatever else is going on.
  lemma SomebodyElseUpdates(s: State, l: Pid, op: Operation, child: Pid) returns (steps: seq<Step>)
    requires s.lock.None? && FreshPid(s, l) && op !in s.phase && op !in s.waitPid
    requires child != l && FreshPid(s, child)
    ensures Leads(s, steps, ElsewhereUpdated(s, l, op, child))
  {
    var m := Prepares(s, l, l, op);
    PreparesLeads(s, l, l, op);
    assert FreshPid(m, child);
    var rest := Finishes(m, l, child);
    FinishedUpdate(s, l, op, child);
    LeadsConcat(s, Preparation(l, l, op), m, rest, ElsewhereUpdated(s, l, op, child));
    steps := Preparation(l, l, op) + rest;
  }

  lemma FinishedUpdate(s: State, l: Pid, op: Operation, child: Pid)
    requires child !in s.updaters
    ensures Acknowledged(HandedOver(Prepares(s, l, l, op), l, op, child), child, Owner)
            == ElsewhereUpdated(s, l, op, child)
  {
  }

  function ElsewhereUpdated(s: State, l: Pid, op: Operation, child: Pid): State {
    s.(lock := Some(Lock(child, op)), phase := s.phase[op := WaitingForExit], waitPid := s.waitPid[op := l],
       launchers := s.launchers[l := Launcher(Handed(op, child), None)],
       updaters := s.updaters[child := Updater(op, Owner, Some(l))])
  }

  // An armed Launcher goes through with its transfer.
  lemma ArmedTransfers(s: State, l: Pid) returns (steps: seq<Step>, t: State)
    requires l in s.launchers && Armed(s, l)
    ensures Leads(s, steps, t) && t.lock.Some? && t.lock.value.op == s.launchers[l].at.op
    ensures forall u :: u in s.updaters ==> u in t.updaters && t.updaters[u] == s.updaters[u]
  {
    steps, t := [], s;
    if t.launchers[l].at.Reading? {
      LeadsAppend(s, steps, t, CheckRequest(l));
      steps, t := steps + [CheckRequest(l)], Apply(t, CheckRequest(l));
    }
    if t.launchers[l].at.Chosen? {
      var child := NewPid(t, {});
      LeadsAppend(s, steps, t, Spawn(l, child));
      steps, t := steps + [Spawn(l, child)], Apply(t, Spawn(l, child));
    }
    LeadsAppend(s, steps, t, Transfer(l, true));
    steps, t := steps + [Transfer(l, true)], Apply(t, Transfer(l, true));
  }

  lemma EarlyReleaseBreaks(s: State) returns (steps: seq<Step>, t: State)
    requires Sound(s) && !LockFree(s)
    ensures Leads(Apply(s, ReleaseLock), steps, t) && !OwnersHoldLock(t)
  {
    var r := Apply(s, ReleaseLock);
    if u :| u in s.updaters && s.updaters[u].at.Owner? {
      assert r.updaters[u].at.Owner?;
      return [], r;
    }
    var l :| l in s.launchers && Armed(s, l);
    ArmedIsWaitedFor(s, l);
    var other := NewPid(r, {});
    var child := NewPid(r, {other});
    var op := Above(r.phase.Keys + r.waitPid.Keys);
    var before := SomebodyElseUpdates(r, other, op, child);
    var m := ElsewhereUpdated(r, other, op, child);
    assert m.launchers[l] == s.launchers[l] && Armed(m, l);
    var after, end := ArmedTransfers(m, l);
    LeadsConcat(r, before, m, after, end);
    steps, t := before + after, end;
    assert t.updaters[child].at.Owner? && t.updaters[child].op == op != t.lock.value.op;
  }

  /** Removing the lock file is harmless exactly while it is free, in every state a careful run
      reaches. */
  lemma ReleaseSafeIffFree(steps: seq<Step>, s: State)
    requires Leads(EMPTY, steps, s)
    ensures LockFree(s) <==> StaysExclusive(Apply(s, ReleaseLock))
  {
    RunExclusive(EMPTY, steps, s);
    var r := Apply(s, ReleaseLock);
    if LockFree(s) {
      StepExclusive(s, ReleaseLock);
      forall more, t | Leads(r, more, t) ensures OwnersHoldLock(t) {
        RunExclusive(r, more, t);
      }
    } else {
      var more, t := EarlyReleaseBreaks(s);
    }
  }

  // The recycled Launcher starts the operation again while the first Updater is still named.
  lemma RecycledLauncherBreaks(s: State, l: Pid) returns (steps: seq<Step>, t: State, child: Pid)
    requires Sound(s) && FreshPid(s, l) && AwaitedBy(s, l)
    ensures var u := s.lock.value.owner;
            Leads(Apply(s, LauncherStarts(l)), steps, t) && IsOwner(t, u) && IsOwner(t, child) && u != child
  {
    var u := s.lock.value.owner;
    var r := Apply(s, LauncherStarts(l));
    child := NewPid(r, {});
    Chooses(r, l);
    var a := Move(r, l, Chosen(s.lock.value.op));
    TakesLock(a, u);
    var b := Acknowledged(a, u, Owner);
    LeadsConcat(r, [ReadLock(l), CheckRequest(l)], a, [Acknowledge(u), PollLock(u, false)], b);
    steps := Finishes(b, l, child);
    t := Acknowledged(HandedOver(b, l, s.lock.value.op, child), child, Owner);
    LeadsConcat(r, [ReadLock(l), CheckRequest(l)] + [Acknowledge(u), PollLock(u, false)], b, steps, t);
    steps := [ReadLock(l), CheckRequest(l)] + [Acknowledge(u), PollLock(u, false)] + steps;
  }

  /** A Launcher may start under a recycled PID exactly when the lock does not name a live Updater
      that has yet to acknowledge to that PID. */
  lemma LauncherStartSafeIff(steps: seq<Step>, s: State, l: Pid)
    requires Leads(EMPTY, steps, s) && FreshPid(s, l)
    ensures !AwaitedBy(s, l) <==> StaysExclusive(Apply(s, LauncherStarts(l)))
  {
    RunExclusive(EMPTY, steps, s);
    var r := Apply(s, LauncherStarts(l));
    if AwaitedBy(s, l) {
      var more, t, child := RecycledLauncherBreaks(s, l);
      assert !OwnersHoldLock(t);
    } else {
      StepExclusive(s, LauncherStarts(l));
      forall more, t | Leads(r, more, t) ensures OwnersHoldLock(t) {
        RunExclusive(r, more, t);
      }
    }
  }

  // ----- concrete failing runs --------------------------------------------------------

  // Launcher 1 has found operation 7 startable; 9 prepared it and has exited.
  const SEVEN := Preparation(1, 9, 7)

  lemma {:induction false} LeadsRuns(s: State, steps: seq<Step>, t: State)
    requires Leads(s, steps, t)
    ensures Run(s, steps) == Some(t)
    decreases |steps|
  {
    if steps != [] {
      LeadsRuns(Apply(s, steps[0]), steps[1..], t);
    }
  }

  lemma {:induction false} RunConcat(s: State, a: seq<Step>, b: seq<Step>)
    requires Run(s, a).Some?
    ensures Run(s, a + b) == Run(Run(s, a).value, b)
    decreases |a|
  {
    if a == [] {
      assert a + b == b;
    } else {
      assert (a + b)[0] == a[0] && (a + b)[1..] == a[1..] + b;
      RunConcat(Apply(s, a[0]), a[1..], b);
    }
  }

  /** One early removal, made because the recorded owner 9 is dead, ends with two owners: the
      lock goes to operation 8, and Launcher 1 then takes it back. */
  lemma EarlyReleaseMakesTwoOwners() returns (before: seq<Step>, s: State, after: seq<Step>, t: State)
    ensures Leads(EMPTY, before, s) && s.lock == Some(Lock(9, 7)) && 9 !in s.launchers && 9 !in s.updaters
    ensures Leads(Apply(s, ReleaseLock), after, t) && IsOwner(t, 3) && IsOwner(t, 4)
    ensures Run(EMPTY, before + [ReleaseLock] + after) == Some(t)
  {
    before, s := SEVEN, Prepares(EMPTY, 1, 9, 7);
    PreparesLeads(EMPTY, 1, 9, 7);
    after, t := Overtaken(Apply(s, ReleaseLock));
    WithStep(before, s, ReleaseLock, after, t);
  }

  lemma Overtaken(r: State) returns (steps: seq<Step>, t: State)
    requires r == Prepares(EMPTY, 1, 9, 7).(lock := None)
    ensures Leads(r, steps, t) && IsOwner(t, 3) && IsOwner(t, 4)
  {
    var first := SomebodyElseUpdates(r, 2, 8, 3);
    var m := ElsewhereUpdated(r, 2, 8, 3);
    steps := Finishes(m, 1, 4);
    t := Acknowledged(HandedOver(m, 1, 7, 4), 4, Owner);
    LeadsConcat(r, first, m, steps, t);
    steps := first + steps;
  }

  // A careful run, any one step, and another careful run.
  lemma WithStep(before: seq<Step>, s: State, step: Step, after: seq<Step>, t: State)
    requires Leads(EMPTY, before, s) && Enabled(s, step) && Leads(Apply(s, step), after, t)
    ensures Run(EMPTY, before + [step] + after) == Some(t)
  {
    LeadsRuns(EMPTY, before, s);
    LeadsRuns(Apply(s, step), after, t);
    assert ([step] + after)[0] == step && ([step] + after)[1..] == after;
    RunConcat(EMPTY, before, [step] + after);
    assert before + [step] + after == before + ([step] + after);
  }

  /** One recycled Launcher PID ends with two owners, with the lock removed by nobody. */
  lemma RecycledLauncherMakesTwoOwners()
    returns (before: seq<Step>, s: State, after: seq<Step>, t: State, child: Pid)
    ensures Leads(EMPTY, before, s) && FreshPid(s, 1)
    ensures Leads(Apply(s, LauncherStarts(1)), after, t) && IsOwner(t, 2) && IsOwner(t, child) && child != 2
    ensures Run(EMPTY, before + [LauncherStarts(1)] + after) == Some(t)
  {
    var m := Prepares(EMPTY, 1, 9, 7);
    PreparesLeads(EMPTY, 1, 9, 7);
    Spawns(m, 1, 2);
    var h := HandedOver(m, 1, 7, 2);
    LeadsConcat(EMPTY, SEVEN, m, [Spawn(1, 2), Transfer(1, true)], h);
    LeadsAppend(EMPTY, SEVEN + [Spawn(1, 2), Transfer(1, true)], h, LauncherExits(1));
    before, s := SEVEN + [Spawn(1, 2), Transfer(1, true)] + [LauncherExits(1)], Apply(h, LauncherExits(1));
    RunExclusive(EMPTY, before, s);
    after, t, child := RecycledLauncherBreaks(s, 1);
    WithStep(before, s, LauncherStarts(1), after, t);
  }
}
