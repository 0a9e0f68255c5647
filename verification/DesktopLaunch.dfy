/** The managed Linux Desktop launch: the polling loop, root selection and failed-launch cleanup. */
module DesktopLaunch {
  import opened Wrappers
  import opened Processes
  import opened DesktopRoots
  import opened ObservedTree
  import opened TreeOwnership
  import opened TreeSafety

  datatype LaunchError =
    | InitialScanFailed
    | AlreadyRunning
    | SpawnFailed
    | LauncherUnreadable
    | NotDirect
    | NotGroupLeader
    | SpawnerUnreadable
    | WrongExecutable
    | ScanFailed
    | LauncherReused
    | LauncherExited
    | NoAppBeforeTimeout
    | MultipleRoots
    | UnmanagedConflict

  // One turn of the loop: the process table, if it could be read, and whether the start
  // timeout has elapsed when the turn decides to wait.
  datatype Turn = Unreadable | Table(frame: Frame, timedOut: bool)

  // What the preflight reads, in order: the process table, whether the command could be built and
  // spawned, the snapshots of the new launcher and of this process.
  datatype Setup = Setup(initial: Option<Frame>, spawned: bool, launcher: Option<Snapshot>, direct: bool,
                         spawner: Option<Path>)

  datatype Progress = Progress(members: seq<Snapshot>, descendants: seq<Snapshot>)

  datatype Outcome =
    | Session(root: Snapshot, members: seq<Snapshot>)
    | Abandoned(error: LaunchError, cleanup: seq<Snapshot>)
    | Waiting(progress: Progress)

  // ----- remembering ------------------------------------------------------------------

  function RememberOne(known: seq<Snapshot>, p: Snapshot): seq<Snapshot> {
    if known == [] then [p]
    else if known[0].id == p.id then [p] + known[1..]
    else [known[0]] + RememberOne(known[1..], p)
  }

  function Remember(known: seq<Snapshot>, processes: seq<Snapshot>): seq<Snapshot>
    decreases |processes|
  {
    if processes == [] then known else Remember(RememberOne(known, processes[0]), processes[1..])
  }

  lemma {:induction false} RememberOneAt(known: seq<Snapshot>, at: nat, p: Snapshot)
    requires at <= |known| && forall k :: 0 <= k < at ==> known[k].id != p.id
    requires at < |known| ==> known[at].id == p.id
    ensures RememberOne(known, p) == if at < |known| then known[at := p] else known + [p]
    decreases at
  {
    if at > 0 {
      RememberOneAt(known[1..], at - 1, p);
    }
  }

  method RememberProcess(known: seq<Snapshot>, process: Snapshot) returns (updated: seq<Snapshot>)
    ensures updated == RememberOne(known, process)
  {
    var at := 0;
    while at < |known| && known[at].id != process.id
      invariant 0 <= at <= |known| && forall k :: 0 <= k < at ==> known[k].id != process.id
    {
      at := at + 1;
    }
    RememberOneAt(known, at, process);
    updated := if at < |known| then known[at := process] else known + [process];
  }

  method RememberProcesses(known: seq<Snapshot>, processes: seq<Snapshot>) returns (updated: seq<Snapshot>)
    ensures updated == Remember(known, processes)
  {
    updated := known;
    for i := 0 to |processes|
      invariant Remember(updated, processes[i..]) == Remember(known, processes)
    {
      assert processes[i..][0] == processes[i] && processes[i..][1..] == processes[i + 1..];
      updated := RememberProcess(updated, processes[i]);
    }
    assert processes[|processes|..] == [];
  }

  lemma {:induction false} RememberOneExact(known: seq<Snapshot>, p: Snapshot)
    requires DistinctIds(known)
    ensures DistinctIds(RememberOne(known, p))
    ensures forall q :: q in RememberOne(known, p) <==> q == p || (q in known && q.id != p.id)
  {
    if known != [] {
      RememberOneExact(known[1..], p);
      assert forall q :: q in known[1..] ==> q.id != known[0].id;
    }
  }

  /** The ledger keeps one snapshot per PID, the latest one remembered. */
  lemma {:induction false} RememberExact(known: seq<Snapshot>, processes: seq<Snapshot>)
    requires DistinctIds(known) && DistinctIds(processes)
    ensures DistinctIds(Remember(known, processes))
    ensures forall q :: q in Remember(known, processes) <==> q in processes || (q in known && q.id !in Ids(processes))
    decreases |processes|
  {
    if processes != [] {
      var p := processes[0];
      RememberOneExact(known, p);
      RememberExact(RememberOne(known, p), processes[1..]);
      assert Ids(processes) == {p.id} + Ids(processes[1..]);
      assert forall q :: q in processes[1..] ==> q.id != p.id;
    }
  }

  // ----- root selection ---------------------------------------------------------------

  predicate IsManagedRoot(launcher: Snapshot, group: nat, descendants: seq<Snapshot>, root: Snapshot) {
    && root.group == group && root.start >= launcher.start
    && (SameInstance(root, launcher) || exists d :: d in descendants && SameInstance(root, d))
  }

  function Managed(launcher: Snapshot, group: nat, descendants: seq<Snapshot>, roots: seq<Snapshot>): seq<Snapshot> {
    if roots == [] then []
    else if IsManagedRoot(launcher, group, descendants, roots[0]) then
      [roots[0]] + Managed(launcher, group, descendants, roots[1..])
    else Managed(launcher, group, descendants, roots[1..])
  }

  datatype Selection = Selected(root: Option<Snapshot>) | Rejected(error: LaunchError)

  function SelectManagedRoot(launcher: Snapshot, group: nat, descendants: seq<Snapshot>,
                             roots: seq<Snapshot>): Selection {
    var managed := Managed(launcher, group, descendants, roots);
    if |managed| > 1 then Rejected(MultipleRoots)
    else if |roots| > |managed| then Rejected(UnmanagedConflict)
    else if managed == [] then Selected(None)
    else Selected(Some(managed[0]))
  }

  lemma {:induction false} ManagedLength(launcher: Snapshot, group: nat, descendants: seq<Snapshot>,
                                         roots: seq<Snapshot>)
    ensures var managed := Managed(launcher, group, descendants, roots);
            && |managed| <= |roots|
            && (|managed| == |roots| ==> managed == roots)
            && (forall r :: r in managed <==> r in roots && IsManagedRoot(launcher, group, descendants, r))
  {
    if roots != [] {
      ManagedLength(launcher, group, descendants, roots[1..]);
    }
  }

  /** A root is selected exactly when it is the only Desktop root and it is managed. */
  lemma SelectedIffSoleManagedRoot(launcher: Snapshot, group: nat, descendants: seq<Snapshot>, roots: seq<Snapshot>,
                                   root: Snapshot)
    ensures SelectManagedRoot(launcher, group, descendants, roots) == Selected(Some(root))
            <==> roots == [root] && root.group == group && root.start >= launcher.start
                 && (SameInstance(root, launcher) || exists d :: d in descendants && SameInstance(root, d))
    ensures SelectManagedRoot(launcher, group, descendants, roots) == Selected(None) <==> roots == []
  {
    ManagedLength(launcher, group, descendants, roots);
    if roots == [root] {
      assert root in roots;
    }
  }

  // ----- one turn of the loop ---------------------------------------------------------

  function Track(launcher: Snapshot, progress: Progress, frame: Frame): Progress {
    var current := Find(frame, launcher.id);
    if current.None? then progress
    else Progress(Remember(progress.members, [current.value]),
                  Remember(progress.descendants, Descend({launcher.id}, frame)))
  }

  /** Either the progress to continue with or the final outcome. */
  function TakeTurn(launcher: Snapshot, group: nat, target: Path, progress: Progress, turn: Turn): Outcome {
    if turn.Unreadable? then Abandoned(ScanFailed, progress.members)
    else
      var current := Find(turn.frame, launcher.id);
      if current.Some? && !SameInstance(launcher, current.value) then Abandoned(LauncherReused, progress.members)
      else if current.None? && progress.descendants == [] then Abandoned(LauncherExited, progress.members)
      else
        var tracked := Track(launcher, progress, turn.frame);
        var members := Remember(tracked.members, tracked.descendants);
        var roots := DesktopRootSnapshots(target, turn.frame);
        match SelectManagedRoot(launcher, group, tracked.descendants, roots)
        case Selected(Some(root)) => Session(root, members)
        case Selected(None) =>
          if turn.timedOut then Abandoned(NoAppBeforeTimeout, members)
          else Waiting(Progress(members, tracked.descendants))
        case Rejected(error) => Abandoned(error, members)
  }

  function Launch(launcher: Snapshot, group: nat, target: Path, progress: Progress, turns: seq<Turn>): Outcome
    decreases |turns|
  {
    if turns == [] then Waiting(progress)
    else
      var next := TakeTurn(launcher, group, target, progress, turns[0]);
      if next.Waiting? then Launch(launcher, group, target, next.progress, turns[1..]) else next
  }

  // The launch loop from its start.
  function LaunchLoop(launcher: Snapshot, target: Path, turns: seq<Turn>): Outcome {
    Launch(launcher, launcher.group, target, Progress([launcher], []), turns)
  }

  datatype Preflighted = Ready(launcher: Snapshot) | Refused(error: LaunchError, cleanup: seq<Snapshot>)

  /** A launcher whose snapshot cannot be read is killed through its own child handle; when this
      process cannot be read the child is left alone. */
  function Preflight(setup: Setup, target: Path): Preflighted {
    if setup.initial.None? then Refused(InitialScanFailed, [])
    else if DesktopProcessTree(target, setup.initial.value) != [] then Refused(AlreadyRunning, [])
    else if !setup.spawned then Refused(SpawnFailed, [])
    else if setup.launcher.None? then Refused(LauncherUnreadable, [])
    else
      var launcher := setup.launcher.value;
      if !setup.direct then Refused(NotDirect, [launcher])
      else if launcher.group != launcher.id then Refused(NotGroupLeader, [launcher])
      else if setup.spawner.None? then Refused(SpawnerUnreadable, [])
      else if launcher.executable != target && launcher.executable != setup.spawner.value then
        Refused(WrongExecutable, [launcher])
      else Ready(launcher)
  }

  /** When the preflight lets a launch go on and, when it does not, whom it cleans up: a launcher it has
      read, unless it could not read this process. */
  lemma PreflightExact(setup: Setup, target: Path)
    ensures Preflight(setup, target).Ready? <==>
              && setup.initial.Some?
              && (forall p :: p in setup.initial.value ==> !RootOfDesktop(target, p, setup.initial.value))
              && setup.spawned && setup.launcher.Some? && setup.direct
              && setup.launcher.value.group == setup.launcher.value.id && setup.spawner.Some?
              && setup.launcher.value.executable in {target, setup.spawner.value}
    ensures Preflight(setup, target).Ready? ==> setup.launcher == Some(Preflight(setup, target).launcher)
    ensures Preflight(setup, target).Refused? ==>
              var readable := setup.initial.Some? && setup.spawned && setup.launcher.Some?
                  && (forall p :: p in setup.initial.value ==> !RootOfDesktop(target, p, setup.initial.value));
              var unread := setup.direct && setup.launcher.Some?
                  && setup.launcher.value.group == setup.launcher.value.id && setup.spawner.None?;
              Preflight(setup, target).cleanup == if readable && !unread then [setup.launcher.value] else []
  {
    if setup.initial.Some? {
      var frame := setup.initial.value;
      TreeExact(target, frame);
      var tree := DesktopProcessTree(target, frame);
      DescendAttributed(Ids(TreeRoots(target, frame)), frame);
      EmptyTree(target, frame);
    }
  }

  ghost predicate RootOfDesktop(target: Path, p: Snapshot, frame: Frame) {
    p in frame && p.executable == target && forall q :: q in frame && q.executable == target ==> q.id != p.parent
  }

  lemma EmptyTree(target: Path, frame: Frame)
    ensures DesktopProcessTree(target, frame) == [] <==> forall p :: p in frame ==> !RootOfDesktop(target, p, frame)
  {
    var roots := TreeRoots(target, frame);
    TreeExact(target, frame);
    if roots == [] {
      ClosureIsLeast({}, frame);
      assert ChildClosed({}, frame) && Ids(roots) == {};
      var tree := DesktopProcessTree(target, frame);
      assert tree != [] ==> tree[0] in tree && tree[0].id in Ids(tree);
    } else {
      assert roots[0] in roots && RootOfDesktop(target, roots[0], frame);
    }
  }

  function LaunchFrom(setup: Setup, target: Path, turns: seq<Turn>): Outcome {
    match Preflight(setup, target)
    case Refused(error, cleanup) => Abandoned(error, cleanup)
    case Ready(launcher) => LaunchLoop(launcher, target, turns)
  }

  method LaunchDesktopSession(setup: Setup, target: Path, turns: seq<Turn>) returns (outcome: Outcome)
    ensures outcome == LaunchFrom(setup, target, turns)
  {
    if setup.initial.None? {
      return Abandoned(InitialScanFailed, []);
    }
    var tree := DesktopProcessTree(target, setup.initial.value);
    if tree != [] {
      return Abandoned(AlreadyRunning, []);
    }
    if !setup.spawned {
      return Abandoned(SpawnFailed, []);
    }
    if setup.launcher.None? {
      return Abandoned(LauncherUnreadable, []);
    }
    var launcher := setup.launcher.value;
    if !setup.direct {
      return Abandoned(NotDirect, [launcher]);
    }
    if launcher.group != launcher.id {
      return Abandoned(NotGroupLeader, [launcher]);
    }
    if setup.spawner.None? {
      return Abandoned(SpawnerUnreadable, []);
    }
    if launcher.executable != target && launcher.executable != setup.spawner.value {
      return Abandoned(WrongExecutable, [launcher]);
    }
    outcome := PollForRoot(launcher, target, turns);
  }

  method PollForRoot(launcher: Snapshot, target: Path, turns: seq<Turn>) returns (outcome: Outcome)
    ensures outcome == LaunchLoop(launcher, target, turns)
  {
    var progress := Progress([launcher], []);
    for i := 0 to |turns|
      invariant Launch(launcher, launcher.group, target, Progress([launcher], []), turns) ==
                Launch(launcher, launcher.group, target, progress, turns[i..])
    {
      assert turns[i..][0] == turns[i] && turns[i..][1..] == turns[i + 1..];
      var next := PollOnce(launcher, target, progress.members, progress.descendants, turns[i]);
      if !next.Waiting? {
        return next;
      }
      progress := next.progress;
    }
    assert turns[|turns|..] == [];
    return Waiting(progress);
  }

  method PollOnce(launcher: Snapshot, target: Path, known: seq<Snapshot>, seen: seq<Snapshot>, turn: Turn)
    returns (next: Outcome)
    ensures next == TakeTurn(launcher, launcher.group, target, Progress(known, seen), turn)
  {
    if turn.Unreadable? {
      return Abandoned(ScanFailed, known);
    }
    var members, descendants := known, seen;
    var live := Find(turn.frame, launcher.id);
    if live.Some? {
      if !SameInstance(launcher, live.value) {
        return Abandoned(LauncherReused, members);
      }
      members := RememberProcesses(members, [live.value]);
      var below := DescendantSnapshots([launcher.id], turn.frame);
      assert Elements([launcher.id]) == {launcher.id};
      descendants := RememberProcesses(descendants, below);
    } else if descendants == [] {
      return Abandoned(LauncherExited, members);
    }
    members := RememberProcesses(members, descendants);
    var selection := SelectManagedRoot(launcher, launcher.group, descendants, DesktopRootSnapshots(target, turn.frame));
    match selection {
      case Selected(Some(root)) => return Session(root, members);
      case Selected(None) =>
        if turn.timedOut {
          return Abandoned(NoAppBeforeTimeout, members);
        }
        return Waiting(Progress(members, descendants));
      case Rejected(error) => return Abandoned(error, members);
    }
  }

  // ----- what the ledger may hold -----------------------------------------------------

  /** In turn `j` this exact launcher instance was live and `p` was below its PID. */
  ghost predicate SeenBelow(launcher: Snapshot, turns: seq<Turn>, p: Snapshot) {
    exists j :: 0 <= j < |turns| && BelowIn(launcher, turns[j], p)
  }

  ghost predicate BelowIn(launcher: Snapshot, turn: Turn, p: Snapshot) {
    && turn.Table? && HasInstance(turn.frame, launcher)
    && p in turn.frame && p.id != launcher.id && p.id in Closure({launcher.id}, turn.frame)
  }

  ghost predicate OfThisLaunch(launcher: Snapshot, turns: seq<Turn>, p: Snapshot) {
    SameInstance(launcher, p) || SeenBelow(launcher, turns, p)
  }

  ghost predicate Sound(launcher: Snapshot, turns: seq<Turn>, progress: Progress) {
    && DistinctIds(progress.members) && DistinctIds(progress.descendants)
    && (forall p :: p in progress.members ==> OfThisLaunch(launcher, turns, p))
    && (forall p :: p in progress.descendants ==> SeenBelow(launcher, turns, p))
  }

  // What an outcome promises about the turns taken so far.
  ghost predicate Justified(launcher: Snapshot, target: Path, turns: seq<Turn>, outcome: Outcome) {
    match outcome
    case Waiting(progress) => Sound(launcher, turns, progress)
    case Abandoned(_, cleanup) => forall p :: p in cleanup ==> OfThisLaunch(launcher, turns, p)
    case Session(root, members) =>
      && (forall p :: p in members ==> OfThisLaunch(launcher, turns, p))
      && turns != [] && turns[|turns| - 1].Table?
      && DesktopRootSnapshots(target, turns[|turns| - 1].frame) == [root]
      && root.group == launcher.group && root.start >= launcher.start
      && (SameInstance(root, launcher) || exists d :: SeenBelow(launcher, turns, d) && SameInstance(root, d))
      && HasInstance(members, root)
  }

  lemma OlderSeen(launcher: Snapshot, turns: seq<Turn>, turn: Turn, p: Snapshot)
    requires SeenBelow(launcher, turns, p)
    ensures SeenBelow(launcher, turns + [turn], p)
  {
    var j :| 0 <= j < |turns| && BelowIn(launcher, turns[j], p);
    assert (turns + [turn])[j] == turns[j];
  }

  lemma TrackSound(launcher: Snapshot, turns: seq<Turn>, progress: Progress, turn: Turn)
    requires Sound(launcher, turns, progress) && turn.Table?
    requires var current := Find(turn.frame, launcher.id); current.Some? ==> SameInstance(launcher, current.value)
    ensures Sound(launcher, turns + [turn], Track(launcher, progress, turn.frame))
  {
    var tracked := Track(launcher, progress, turn.frame);
    var all := turns + [turn];
    forall p | SeenBelow(launcher, turns, p) ensures SeenBelow(launcher, all, p) {
      OlderSeen(launcher, turns, turn, p);
    }
    var current := Find(turn.frame, launcher.id);
    if current.Some? {
      var below := Descend({launcher.id}, turn.frame);
      ClosureIsLeast({launcher.id}, turn.frame);
      RememberExact(progress.members, [current.value]);
      RememberExact(progress.descendants, below);
      assert all[|turns|] == turn;
      assert SameInstance(current.value, launcher);
      forall p | p in below ensures SeenBelow(launcher, all, p) {
        assert BelowIn(launcher, all[|turns|], p);
      }
    }
  }

  lemma TurnJustified(launcher: Snapshot, target: Path, turns: seq<Turn>, progress: Progress, turn: Turn)
    requires Sound(launcher, turns, progress)
    requires HasInstance(progress.members, launcher)
    ensures var next := TakeTurn(launcher, launcher.group, target, progress, turn);
            && Justified(launcher, target, turns + [turn], next)
            && (next.Waiting? ==> HasInstance(next.progress.members, launcher))
  {
    var all := turns + [turn];
    forall p | SeenBelow(launcher, turns, p) ensures SeenBelow(launcher, all, p) {
      OlderSeen(launcher, turns, turn, p);
    }
    if turn.Table? {
      var current := Find(turn.frame, launcher.id);
      if current.Some? && !SameInstance(launcher, current.value) {
      } else if current.None? && progress.descendants == [] {
      } else {
        TrackSound(launcher, turns, progress, turn);
        var tracked := Track(launcher, progress, turn.frame);
        TrackKeepsLauncher(launcher, progress, turn.frame);
        var members := Remember(tracked.members, tracked.descendants);
        RememberExact(tracked.members, tracked.descendants);
        MembersKeepLauncher(launcher, all, tracked);
        var roots := DesktopRootSnapshots(target, turn.frame);
        var selection := SelectManagedRoot(launcher, launcher.group, tracked.descendants, roots);
        if selection.Selected? && selection.root.Some? {
          SelectedIffSoleManagedRoot(launcher, launcher.group, tracked.descendants, roots, selection.root.value);
          RootAmongMembers(launcher, tracked, selection.root.value);
        }
      }
    }
  }

  lemma TrackKeepsLauncher(launcher: Snapshot, progress: Progress, frame: Frame)
    requires DistinctIds(progress.members) && HasInstance(progress.members, launcher)
    requires var current := Find(frame, launcher.id); current.Some? ==> SameInstance(launcher, current.value)
    ensures HasInstance(Track(launcher, progress, frame).members, launcher)
  {
    var current := Find(frame, launcher.id);
    if current.Some? {
      RememberExact(progress.members, [current.value]);
      assert current.value in Remember(progress.members, [current.value]);
      assert SameInstance(current.value, launcher);
    }
  }

  // The launcher PID never enters the descendants, so its own entry is never replaced.
  lemma MembersKeepLauncher(launcher: Snapshot, turns: seq<Turn>, tracked: Progress)
    requires Sound(launcher, turns, tracked) && HasInstance(tracked.members, launcher)
    ensures HasInstance(Remember(tracked.members, tracked.descendants), launcher)
  {
    RememberExact(tracked.members, tracked.descendants);
    var k :| k in tracked.members && SameInstance(k, launcher);
    forall d | d in tracked.descendants ensures d.id != launcher.id {
      assert SeenBelow(launcher, turns, d);
    }
    assert k in Remember(tracked.members, tracked.descendants);
  }

  lemma RootAmongMembers(launcher: Snapshot, tracked: Progress, root: Snapshot)
    requires DistinctIds(tracked.members) && DistinctIds(tracked.descendants)
    requires HasInstance(Remember(tracked.members, tracked.descendants), launcher)
    requires IsManagedRoot(launcher, launcher.group, tracked.descendants, root)
    ensures HasInstance(Remember(tracked.members, tracked.descendants), root)
  {
    var members := Remember(tracked.members, tracked.descendants);
    RememberExact(tracked.members, tracked.descendants);
    if SameInstance(root, launcher) {
      var k :| k in members && SameInstance(k, launcher);
      assert SameInstance(k, root);
    } else {
      var d :| d in tracked.descendants && SameInstance(root, d);
      assert d in members && SameInstance(d, root);
    }
  }

  /** The loop takes exactly the first `n` turns: it waits after each of them but the last, and the
      last one decides, unless the turns run out first. */
  ghost predicate TakesTurns(launcher: Snapshot, target: Path, turns: seq<Turn>, n: nat)
    requires n <= |turns|
  {
    var outcome := LaunchLoop(launcher, target, turns);
    if outcome.Waiting? then n == |turns|
    else
      && n > 0
      && var before := LaunchLoop(launcher, target, turns[..n - 1]);
         before.Waiting? && TakeTurn(launcher, launcher.group, target, before.progress, turns[n - 1]) == outcome
  }

  lemma {:induction false} LaunchAppend(launcher: Snapshot, target: Path, progress: Progress, turns: seq<Turn>,
                                        turn: Turn)
    ensures Launch(launcher, launcher.group, target, progress, turns + [turn]) ==
            var before := Launch(launcher, launcher.group, target, progress, turns);
            if before.Waiting? then TakeTurn(launcher, launcher.group, target, before.progress, turn) else before
    decreases |turns|
  {
    if turns == [] {
      assert turns + [turn] == [turn] && [turn][1..] == [];
    } else {
      assert (turns + [turn])[0] == turns[0] && (turns + [turn])[1..] == turns[1..] + [turn];
      var next := TakeTurn(launcher, launcher.group, target, progress, turns[0]);
      if next.Waiting? {
        LaunchAppend(launcher, target, next.progress, turns[1..], turn);
      }
    }
  }

  lemma LoopAppend(launcher: Snapshot, target: Path, turns: seq<Turn>, turn: Turn)
    ensures LaunchLoop(launcher, target, turns + [turn]) ==
            var before := LaunchLoop(launcher, target, turns);
            if before.Waiting? then TakeTurn(launcher, launcher.group, target, before.progress, turn) else before
  {
    LaunchAppend(launcher, target, Progress([launcher], []), turns, turn);
  }

  lemma Unsnoc(turns: seq<Turn>) returns (init: seq<Turn>, last: Turn)
    requires turns != []
    ensures turns == init + [last]
  {
    init, last := turns[..|turns| - 1], turns[|turns| - 1];
  }

  lemma {:induction false} TurnsTaken(launcher: Snapshot, target: Path, turns: seq<Turn>) returns (n: nat)
    ensures n <= |turns| && TakesTurns(launcher, target, turns, n)
    decreases |turns|
  {
    n := |turns|;
    if turns != [] {
      var init, last := Unsnoc(turns);
      LoopAppend(launcher, target, init, last);
      if LaunchLoop(launcher, target, init).Waiting? {
        assert turns[..n - 1] == init;
      } else {
        n := TurnsTaken(launcher, target, init);
        assert turns[..n - 1] == init[..n - 1];
      }
    }
  }

  lemma {:induction false} WaitingSound(launcher: Snapshot, target: Path, turns: seq<Turn>)
    requires LaunchLoop(launcher, target, turns).Waiting?
    ensures Sound(launcher, turns, LaunchLoop(launcher, target, turns).progress)
    ensures HasInstance(LaunchLoop(launcher, target, turns).progress.members, launcher)
    decreases |turns|
  {
    if turns == [] {
      assert SameInstance(launcher, launcher) && launcher in [launcher];
    } else {
      var init, last := Unsnoc(turns);
      LoopAppend(launcher, target, init, last);
      WaitingSound(launcher, target, init);
      TurnJustified(launcher, target, init, LaunchLoop(launcher, target, init).progress, last);
    }
  }

  lemma TakenJustified(launcher: Snapshot, target: Path, turns: seq<Turn>, n: nat)
    requires n <= |turns| && TakesTurns(launcher, target, turns, n)
    ensures Justified(launcher, target, turns[..n], LaunchLoop(launcher, target, turns))
  {
    if LaunchLoop(launcher, target, turns).Waiting? {
      assert turns[..n] == turns;
      WaitingSound(launcher, target, turns);
    } else {
      assert turns[..n] == turns[..n - 1] + [turns[n - 1]];
      NextJustified(launcher, target, turns[..n - 1], turns[n - 1]);
    }
  }

  lemma NextJustified(launcher: Snapshot, target: Path, init: seq<Turn>, turn: Turn)
    requires LaunchLoop(launcher, target, init).Waiting?
    ensures var before := LaunchLoop(launcher, target, init).progress;
            Justified(launcher, target, init + [turn], TakeTurn(launcher, launcher.group, target, before, turn))
  {
    WaitingSound(launcher, target, init);
    TurnJustified(launcher, target, init, LaunchLoop(launcher, target, init).progress, turn);
  }

  /** Every outcome of the loop: the cleanup list and the session ledger hold only the launcher
      instance and processes seen below its PID while that instance was live; a session names
      the sole Desktop root of the frame of the very turn that returns it, and that root is one of
      those processes. */
  lemma LaunchOwnsOnlyItsLineage(launcher: Snapshot, target: Path, turns: seq<Turn>)
    ensures exists n :: 0 <= n <= |turns| && TakesTurns(launcher, target, turns, n)
                        && Justified(launcher, target, turns[..n], LaunchLoop(launcher, target, turns))
  {
    var n := TurnsTaken(launcher, target, turns);
    TakenJustified(launcher, target, turns, n);
  }

  lemma LaunchSound(launcher: Snapshot, target: Path, turns: seq<Turn>) returns (n: nat)
    ensures n <= |turns| && Justified(launcher, target, turns[..n], LaunchLoop(launcher, target, turns))
  {
    n := TurnsTaken(launcher, target, turns);
    TakenJustified(launcher, target, turns, n);
  }

  // ----- failed-launch cleanup --------------------------------------------------------

  // The given processes whose PID the table shows.
  ghost function Shown(processes: seq<Snapshot>, snapshots: Frame): seq<Snapshot> {
    if processes == [] then []
    else
      var last := processes[|processes| - 1];
      Shown(processes[..|processes| - 1], snapshots) + (if last.id in Ids(snapshots) then [last] else [])
  }

  lemma {:induction false} ShownExact(processes: seq<Snapshot>, snapshots: Frame)
    ensures forall p :: p in Shown(processes, snapshots) <==> p in processes && p.id in Ids(snapshots)
  {
    if processes != [] {
      ShownExact(processes[..|processes| - 1], snapshots);
      assert processes == processes[..|processes| - 1] + [processes[|processes| - 1]];
    }
  }

  // The table shows another process under the PID of `p`.
  ghost predicate Replaced(p: Snapshot, snapshots: Frame) {
    var current := Find(snapshots, p.id);
    current.Some? && current.value.start != p.start
  }

  /** `signal_processes_exact`: without a table, or when any given PID was reused, nobody is signalled;
      otherwise the signal is delivered to all given processes the table shows. No other process is
      looked up. */
  method SignalProcessesExact(processes: seq<Snapshot>, snapshots: Option<Frame>, probes: map<nat, Probe>)
    returns (delivery: Delivery)
    ensures if snapshots.None? || exists p :: p in processes && Replaced(p, snapshots.value)
            then delivery == Delivery([], false)
            else Delivers(Shown(processes, snapshots.value), probes, delivery)
    ensures forall p :: p in delivery.sent ==>
              && p in processes && snapshots.Some? && HasInstance(snapshots.value, p)
              && p.id in probes && probes[p.id].Running? && SameInstance(p, probes[p.id].current)
  {
    if snapshots.None? {
      return Delivery([], false);
    }
    var live := [];
    for i := 0 to |processes|
      invariant live == Shown(processes[..i], snapshots.value)
      invariant forall j :: 0 <= j < i ==> !Replaced(processes[j], snapshots.value)
      invariant forall p :: p in live ==> HasInstance(snapshots.value, p)
    {
      var expected := processes[i];
      assert processes[..i + 1] == processes[..i] + [expected];
      var current := Find(snapshots.value, expected.id);
      if current.Some? {
        if !SameInstance(expected, current.value) {
          assert Replaced(expected, snapshots.value);
          return Delivery([], false);
        }
        assert SameInstance(current.value, expected) && expected.id in Ids(snapshots.value);
        live := live + [expected];
      }
    }
    assert processes[..|processes|] == processes;
    ShownExact(processes, snapshots.value);
    delivery := SignalProcesses(live, probes);
  }

  /** Cleaning up after a launch that did not produce a session, in the preflight or in the loop,
      signals nobody outside it. */
  method CleanupFailedLaunch(setup: Setup, target: Path, turns: seq<Turn>, snapshots: Option<Frame>,
                             probes: map<nat, Probe>)
    returns (delivery: Delivery)
    requires LaunchFrom(setup, target, turns).Abandoned?
    ensures var cleanup := LaunchFrom(setup, target, turns).cleanup;
            if snapshots.None? || exists p :: p in cleanup && Replaced(p, snapshots.value)
            then delivery == Delivery([], false)
            else Delivers(Shown(cleanup, snapshots.value), probes, delivery)
    ensures forall p :: p in delivery.sent ==>
              && setup.launcher.Some? && OfThisLaunch(setup.launcher.value, turns, p)
              && p.id in probes && probes[p.id].Running? && SameInstance(p, probes[p.id].current)
  {
    var outcome := LaunchFrom(setup, target, turns);
    delivery := SignalProcessesExact(outcome.cleanup, snapshots, probes);
    forall p | p in outcome.cleanup ensures setup.launcher.Some? && OfThisLaunch(setup.launcher.value, turns, p) {
      CleanupOfThisLaunch(setup, target, turns, p);
    }
  }

  lemma CleanupOfThisLaunch(setup: Setup, target: Path, turns: seq<Turn>, p: Snapshot)
    requires LaunchFrom(setup, target, turns).Abandoned? && p in LaunchFrom(setup, target, turns).cleanup
    ensures setup.launcher.Some? && OfThisLaunch(setup.launcher.value, turns, p)
  {
    var outcome := LaunchFrom(setup, target, turns);
    if Preflight(setup, target).Ready? {
      var launcher := Preflight(setup, target).launcher;
      var n := LaunchSound(launcher, target, turns);
      LaterOfThisLaunch(launcher, turns, n, p);
    }
  }

  lemma LaterOfThisLaunch(launcher: Snapshot, turns: seq<Turn>, n: nat, p: Snapshot)
    requires n <= |turns| && OfThisLaunch(launcher, turns[..n], p)
    ensures OfThisLaunch(launcher, turns, p)
  {
    if !SameInstance(launcher, p) {
      var j :| 0 <= j < n && BelowIn(launcher, turns[..n][j], p);
      assert turns[..n][j] == turns[j];
    }
  }

  // ----- the session as a supervised tree ---------------------------------------------

  function SessionTree(launcher: Snapshot, root: Snapshot, members: seq<Snapshot>): State {
    Opened(root, Some(launcher.group), Some(launcher.start), members)
  }

  // The process at the bottom of a lineage.
  function Base(l: Lineage): Lineage {
    if l.ChildOf? then Base(l.parent) else l
  }

  lemma {:induction false} BaseValid(platform: Platform, t: State, polls: seq<Poll>, l: Lineage)
    requires ValidLineage(platform, t, polls, l)
    ensures ValidLineage(platform, t, polls, Base(l))
  {
    if l.ChildOf? {
      BaseValid(platform, t, polls, l.parent);
    }
  }

  lemma SessionLedger(launcher: Snapshot, target: Path, turns: seq<Turn>, s: Outcome)
    requires s == LaunchLoop(launcher, target, turns) && s.Session?
    ensures HasInstance(s.members, s.root)
    ensures forall p :: p in s.members ==> OfThisLaunch(launcher, turns, p)
  {
    var n := LaunchSound(launcher, target, turns);
    forall p | p in s.members ensures OfThisLaunch(launcher, turns, p) {
      LaterOfThisLaunch(launcher, turns, n, p);
    }
  }

  /** End to end: whatever a session's tree reports after any run of polls leads back, link by
      observed link, to a process of this launch or to a child of the session root's PID. */
  lemma SessionOwnsOnlyItsLaunch(launcher: Snapshot, target: Path, turns: seq<Turn>, s: Outcome, t: State,
                                 polls: seq<Poll>, poll: Poll, p: Snapshot)
    returns (l: Lineage)
    requires s == LaunchLoop(launcher, target, turns) && s.Session?
    requires t == SessionTree(launcher, s.root, s.members)
    requires DistinctPolls(polls) && DistinctIds(poll.frame)
    requires Observe(Linux, Run(Linux, t, polls), poll).1.Observed?
    requires p in Observe(Linux, Run(Linux, t, polls), poll).1.processes
    ensures ValidLineage(Linux, t, polls + [poll], l) && SameInstance(l.p, p) && p in poll.frame
    ensures Base(l).Given? || (Base(l).RootChild? && Base(l).p.parent == s.root.id)
    ensures Base(l).Given? ==> OfThisLaunch(launcher, turns, Base(l).p)
  {
    SessionLedger(launcher, target, turns, s);
    assert t.known == s.members;
    ObservedIsOwned(Linux, t, polls, poll, p);
    l :| ValidLineage(Linux, t, polls + [poll], l) && SameInstance(l.p, p);
    BaseValid(Linux, t, polls + [poll], l);
    assert ValidLineage(Linux, t, polls + [poll], Base(l));
    BaseIsSeed(l);
  }

  lemma {:induction false} BaseIsSeed(l: Lineage)
    ensures !Base(l).ChildOf?
  {
    if l.ChildOf? {
      BaseIsSeed(l.parent);
    }
  }
}
