/** What a managed Linux launch comes to, turn by turn: which turn decides, how, and exactly whom the
    session owns or the cleanup must reach. */
module LaunchOutcomes {
  import opened Wrappers
  import opened Processes
  import opened DesktopRoots
  import opened DesktopLaunch

  ghost predicate DistinctTables(turns: seq<Turn>) {
    forall i :: 0 <= i < |turns| && turns[i].Table? ==> DistinctIds(turns[i].frame)
  }

  // ----- the ledger, exactly ----------------------------------------------------------

  ghost predicate ShowsLauncher(launcher: Snapshot, turn: Turn, p: Snapshot) {
    turn.Table? && p in turn.frame && p.id == launcher.id && p.start == launcher.start
  }

  /** `p` is the last snapshot of its PID seen below the launcher. */
  ghost predicate LatestBelow(launcher: Snapshot, turns: seq<Turn>, p: Snapshot)
    decreases |turns|
  {
    turns != [] &&
    var before, last := turns[..|turns| - 1], turns[|turns| - 1];
    BelowIn(launcher, last, p)
    || (LatestBelow(launcher, before, p) && forall q :: BelowIn(launcher, last, q) ==> q.id != p.id)
  }

  /** `p` is the last snapshot of the launcher, at first the one taken after the spawn. */
  ghost predicate LatestSelf(launcher: Snapshot, turns: seq<Turn>, p: Snapshot)
    decreases |turns|
  {
    if turns == [] then p == launcher
    else
      var before, last := turns[..|turns| - 1], turns[|turns| - 1];
      ShowsLauncher(launcher, last, p)
      || (LatestSelf(launcher, before, p) && forall q :: !ShowsLauncher(launcher, last, q))
  }

  ghost predicate OfLedger(launcher: Snapshot, turns: seq<Turn>, p: Snapshot) {
    LatestSelf(launcher, turns, p) || LatestBelow(launcher, turns, p)
  }

  /** Nobody is missing from these lists and nobody is there without reason. */
  ghost predicate LedgerExact(launcher: Snapshot, turns: seq<Turn>, progress: Progress) {
    && (forall p :: p in progress.descendants <==> LatestBelow(launcher, turns, p))
    && (forall p :: p in progress.members <==> OfLedger(launcher, turns, p))
  }

  lemma LatestBelowAppend(launcher: Snapshot, turns: seq<Turn>, turn: Turn, p: Snapshot)
    ensures LatestBelow(launcher, turns + [turn], p) <==>
              BelowIn(launcher, turn, p)
              || (LatestBelow(launcher, turns, p) && forall q :: BelowIn(launcher, turn, q) ==> q.id != p.id)
  {
    assert (turns + [turn])[..|turns|] == turns && (turns + [turn])[|turns|] == turn;
  }

  lemma LatestSelfAppend(launcher: Snapshot, turns: seq<Turn>, turn: Turn, p: Snapshot)
    ensures LatestSelf(launcher, turns + [turn], p) <==>
              ShowsLauncher(launcher, turn, p)
              || (LatestSelf(launcher, turns, p) && forall q :: !ShowsLauncher(launcher, turn, q))
  {
    assert (turns + [turn])[..|turns|] == turns && (turns + [turn])[|turns|] == turn;
  }

  // The progress of a turn that reads a table and does not find the launcher PID reused.
  function Tracked(launcher: Snapshot, progress: Progress, frame: Frame): Progress {
    var tracked := Track(launcher, progress, frame);
    Progress(Remember(tracked.members, tracked.descendants), tracked.descendants)
  }

  lemma TrackedExact(launcher: Snapshot, turns: seq<Turn>, progress: Progress, turn: Turn)
    requires Sound(launcher, turns, progress) && LedgerExact(launcher, turns, progress)
    requires turn.Table? && DistinctIds(turn.frame)
    requires forall p :: p in turn.frame && p.id == launcher.id ==> SameInstance(launcher, p)
    ensures LedgerExact(launcher, turns + [turn], Tracked(launcher, progress, turn.frame))
  {
    var tracked := Track(launcher, progress, turn.frame);
    TrackSound(launcher, turns, progress, turn);
    TrackedBelow(launcher, turns, progress, turn);
    TrackedSelf(launcher, turns, progress, turn);
    JoinedExact(launcher, turns, turn, tracked);
  }

  lemma JoinedExact(launcher: Snapshot, turns: seq<Turn>, turn: Turn, tracked: Progress)
    requires DistinctIds(tracked.members) && DistinctIds(tracked.descendants)
    requires forall p :: p in tracked.descendants <==> LatestBelow(launcher, turns + [turn], p)
    requires forall p :: p in tracked.members <==>
               LatestSelf(launcher, turns + [turn], p) || LatestBelow(launcher, turns, p)
    ensures forall p :: p in Remember(tracked.members, tracked.descendants) <==> OfLedger(launcher, turns + [turn], p)
  {
    RememberExact(tracked.members, tracked.descendants);
    forall p ensures p in Remember(tracked.members, tracked.descendants) <==> OfLedger(launcher, turns + [turn], p) {
      if LatestSelf(launcher, turns + [turn], p) {
        SelfNotBelow(launcher, turns + [turn], tracked.descendants, p);
      }
      if LatestBelow(launcher, turns, p) {
        StillShown(launcher, turns, turn, tracked.descendants, p);
      }
    }
  }

  lemma StillShown(launcher: Snapshot, turns: seq<Turn>, turn: Turn, descendants: seq<Snapshot>, p: Snapshot)
    requires forall q :: q in descendants <==> LatestBelow(launcher, turns + [turn], q)
    requires LatestBelow(launcher, turns, p)
    ensures p.id in Ids(descendants)
  {
    LatestBelowAppend(launcher, turns, turn, p);
    if q :| BelowIn(launcher, turn, q) && q.id == p.id {
      LatestBelowAppend(launcher, turns, turn, q);
      assert q in descendants;
    } else {
      assert p in descendants;
    }
  }

  lemma SelfNotBelow(launcher: Snapshot, turns: seq<Turn>, descendants: seq<Snapshot>, p: Snapshot)
    requires LatestSelf(launcher, turns, p) && forall d :: d in descendants ==> LatestBelow(launcher, turns, d)
    ensures p.id !in Ids(descendants)
  {
    SelfIsLauncher(launcher, turns, p);
    forall d | d in descendants ensures d.id != launcher.id {
      BelowIsNotLauncher(launcher, turns, d);
    }
  }

  lemma {:induction false} SelfIsLauncher(launcher: Snapshot, turns: seq<Turn>, p: Snapshot)
    requires LatestSelf(launcher, turns, p)
    ensures p.id == launcher.id
    decreases |turns|
  {
    if turns != [] && !ShowsLauncher(launcher, turns[|turns| - 1], p) {
      SelfIsLauncher(launcher, turns[..|turns| - 1], p);
    }
  }

  lemma {:induction false} BelowIsNotLauncher(launcher: Snapshot, turns: seq<Turn>, p: Snapshot)
    requires LatestBelow(launcher, turns, p)
    ensures p.id != launcher.id
    decreases |turns|
  {
    if !BelowIn(launcher, turns[|turns| - 1], p) {
      BelowIsNotLauncher(launcher, turns[..|turns| - 1], p);
    }
  }

  // What this turn shows below the launcher is what descendant discovery reports.
  lemma BelowIsDescend(launcher: Snapshot, turn: Turn, p: Snapshot)
    requires turn.Table? && DistinctIds(turn.frame) && HasInstance(turn.frame, launcher)
    ensures BelowIn(launcher, turn, p) <==> p in Descend({launcher.id}, turn.frame)
  {
    DescendAttributed({launcher.id}, turn.frame);
    if p in turn.frame {
      DescendExact({launcher.id}, turn.frame, p);
    }
  }

  lemma AbsentShowsNothing(launcher: Snapshot, turn: Turn)
    requires turn.Table? && launcher.id !in Ids(turn.frame)
    ensures forall q :: !BelowIn(launcher, turn, q) && !ShowsLauncher(launcher, turn, q)
  {
    forall p | p in turn.frame ensures p.id != launcher.id {
    }
  }

  lemma TrackedBelow(launcher: Snapshot, turns: seq<Turn>, progress: Progress, turn: Turn)
    requires Sound(launcher, turns, progress) && LedgerExact(launcher, turns, progress)
    requires turn.Table? && DistinctIds(turn.frame)
    requires forall p :: p in turn.frame && p.id == launcher.id ==> SameInstance(launcher, p)
    ensures forall p :: p in Track(launcher, progress, turn.frame).descendants <==>
              LatestBelow(launcher, turns + [turn], p)
  {
    var current := Find(turn.frame, launcher.id);
    var below := Descend({launcher.id}, turn.frame);
    if current.Some? {
      ClosureIsLeast({launcher.id}, turn.frame);
      RememberExact(progress.descendants, below);
      assert SameInstance(current.value, launcher);
    }
    forall p ensures p in Track(launcher, progress, turn.frame).descendants <==>
              LatestBelow(launcher, turns + [turn], p)
    {
      LatestBelowAppend(launcher, turns, turn, p);
      if current.Some? {
        forall q ensures BelowIn(launcher, turn, q) <==> q in below {
          BelowIsDescend(launcher, turn, q);
        }
        assert p.id in Ids(below) <==> exists q :: q in below && q.id == p.id;
      } else {
        AbsentShowsNothing(launcher, turn);
      }
    }
  }

  lemma TrackedSelf(launcher: Snapshot, turns: seq<Turn>, progress: Progress, turn: Turn)
    requires Sound(launcher, turns, progress) && LedgerExact(launcher, turns, progress)
    requires turn.Table? && DistinctIds(turn.frame)
    requires forall p :: p in turn.frame && p.id == launcher.id ==> SameInstance(launcher, p)
    ensures forall p :: p in Track(launcher, progress, turn.frame).members <==>
              LatestSelf(launcher, turns + [turn], p) || LatestBelow(launcher, turns, p)
  {
    var current := Find(turn.frame, launcher.id);
    if current.Some? {
      RememberExact(progress.members, [current.value]);
    }
    forall p ensures p in Track(launcher, progress, turn.frame).members <==>
              LatestSelf(launcher, turns + [turn], p) || LatestBelow(launcher, turns, p)
    {
      LatestSelfAppend(launcher, turns, turn, p);
      if current.Some? {
        assert ShowsLauncher(launcher, turn, current.value);
        if ShowsLauncher(launcher, turn, p) {
          DistinctMembers(turn.frame, p, current.value);
        }
        if LatestBelow(launcher, turns, p) {
          BelowIsNotLauncher(launcher, turns, p);
        }
        if LatestSelf(launcher, turns, p) {
          SelfIsLauncher(launcher, turns, p);
        }
        assert Ids([current.value]) == {launcher.id};
      } else {
        AbsentShowsNothing(launcher, turn);
      }
    }
  }

  // ----- how a turn decides -----------------------------------------------------------

  /** A root this launch may own: in its group, no older, and the launcher itself or the last seen
      instance of something below it. */
  ghost predicate OwnRoot(launcher: Snapshot, turns: seq<Turn>, root: Snapshot) {
    && root.group == launcher.group && root.start >= launcher.start
    && ((root.id == launcher.id && root.start == launcher.start)
        || exists d :: LatestBelow(launcher, turns, d) && d.id == root.id && d.start == root.start)
  }

  ghost predicate Reused(launcher: Snapshot, turn: Turn) {
    turn.Table? && exists p :: p in turn.frame && p.id == launcher.id && p.start != launcher.start
  }

  ghost predicate Vanished(launcher: Snapshot, before: seq<Turn>, turn: Turn) {
    turn.Table? && launcher.id !in Ids(turn.frame) && forall p :: !LatestBelow(launcher, before, p)
  }

  ghost predicate Usable(launcher: Snapshot, before: seq<Turn>, turn: Turn) {
    turn.Table? && !Reused(launcher, turn) && !Vanished(launcher, before, turn)
  }

  /** The turn waits: its table shows no Desktop root and there is time left. */
  ghost predicate Waits(launcher: Snapshot, target: Path, before: seq<Turn>, turn: Turn) {
    Usable(launcher, before, turn) && DesktopRootSnapshots(target, turn.frame) == [] && !turn.timedOut
  }

  ghost predicate TwoOwn(launcher: Snapshot, turns: seq<Turn>, roots: seq<Snapshot>) {
    exists i, j :: 0 <= i < j < |roots| && OwnRoot(launcher, turns, roots[i]) && OwnRoot(launcher, turns, roots[j])
  }

  ghost predicate OneForeign(launcher: Snapshot, turns: seq<Turn>, roots: seq<Snapshot>) {
    exists i :: 0 <= i < |roots| && !OwnRoot(launcher, turns, roots[i])
  }

  // When this is the error a turn ends with.
  ghost predicate Calls(launcher: Snapshot, target: Path, before: seq<Turn>, turn: Turn, error: LaunchError) {
    match error
    case ScanFailed => turn.Unreadable?
    case LauncherReused => Reused(launcher, turn)
    case LauncherExited => Vanished(launcher, before, turn)
    case NoAppBeforeTimeout =>
      Usable(launcher, before, turn) && DesktopRootSnapshots(target, turn.frame) == [] && turn.timedOut
    case MultipleRoots =>
      Usable(launcher, before, turn) && TwoOwn(launcher, before + [turn], DesktopRootSnapshots(target, turn.frame))
    case UnmanagedConflict =>
      && Usable(launcher, before, turn)
      && var roots := DesktopRootSnapshots(target, turn.frame);
         OneForeign(launcher, before + [turn], roots) && !TwoOwn(launcher, before + [turn], roots)
    case _ => false
  }

  /** The turn ends the launch: the session owns the sole root, and session and cleanup list hold exactly
      the ledger; a turn without a usable table leaves the ledger of the turns before it. */
  ghost predicate Decides(launcher: Snapshot, target: Path, before: seq<Turn>, turn: Turn, outcome: Outcome) {
    match outcome
    case Waiting(_) => false
    case Session(root, members) =>
      && Usable(launcher, before, turn) && DesktopRootSnapshots(target, turn.frame) == [root]
      && OwnRoot(launcher, before + [turn], root)
      && (forall p :: p in members <==> OfLedger(launcher, before + [turn], p))
    case Abandoned(error, cleanup) =>
      && Calls(launcher, target, before, turn, error)
      && var turns := if Usable(launcher, before, turn) then before + [turn] else before;
         forall p :: p in cleanup <==> OfLedger(launcher, turns, p)
  }

  lemma {:induction false} ManyManaged(launcher: Snapshot, group: nat, descendants: seq<Snapshot>, roots: seq<Snapshot>)
    ensures |Managed(launcher, group, descendants, roots)| > 1 <==>
              exists i, j :: 0 <= i < j < |roots| && IsManagedRoot(launcher, group, descendants, roots[i])
                             && IsManagedRoot(launcher, group, descendants, roots[j])
    ensures |Managed(launcher, group, descendants, roots)| < |roots| <==>
              exists i :: 0 <= i < |roots| && !IsManagedRoot(launcher, group, descendants, roots[i])
    ensures |Managed(launcher, group, descendants, roots)| > 0 <==>
              exists i :: 0 <= i < |roots| && IsManagedRoot(launcher, group, descendants, roots[i])
    ensures |Managed(launcher, group, descendants, roots)| <= |roots|
    decreases |roots|
  {
    if roots != [] {
      var rest := roots[1..];
      ManyManaged(launcher, group, descendants, rest);
      assert forall i :: 0 <= i < |rest| ==> rest[i] == roots[i + 1];
      assert forall i :: 0 < i < |roots| ==> roots[i] == rest[i - 1];
    }
  }

  lemma ManagedIsOwn(launcher: Snapshot, turns: seq<Turn>, descendants: seq<Snapshot>, root: Snapshot)
    requires forall p :: p in descendants <==> LatestBelow(launcher, turns, p)
    ensures IsManagedRoot(launcher, launcher.group, descendants, root) <==> OwnRoot(launcher, turns, root)
  {
  }

  // The choice among the roots a table shows.
  lemma SelectionExact(launcher: Snapshot, turns: seq<Turn>, descendants: seq<Snapshot>, roots: seq<Snapshot>)
    requires forall p :: p in descendants <==> LatestBelow(launcher, turns, p)
    ensures var selection := SelectManagedRoot(launcher, launcher.group, descendants, roots);
            && (selection == Rejected(MultipleRoots) <==> TwoOwn(launcher, turns, roots))
            && (selection == Rejected(UnmanagedConflict) <==>
                  OneForeign(launcher, turns, roots) && !TwoOwn(launcher, turns, roots))
            && (selection == Selected(None) <==> roots == [])
            && (forall r :: selection == Selected(Some(r)) <==> roots == [r] && OwnRoot(launcher, turns, r))
            && (selection.Rejected? ==> selection.error.MultipleRoots? || selection.error.UnmanagedConflict?)
  {
    ManyManaged(launcher, launcher.group, descendants, roots);
    forall r ensures IsManagedRoot(launcher, launcher.group, descendants, r) <==> OwnRoot(launcher, turns, r) {
      ManagedIsOwn(launcher, turns, descendants, r);
    }
    forall r ensures SelectManagedRoot(launcher, launcher.group, descendants, roots) == Selected(Some(r)) <==>
              roots == [r] && OwnRoot(launcher, turns, r)
    {
      SelectedIffSoleManagedRoot(launcher, launcher.group, descendants, roots, r);
    }
  }

  lemma FindShows(launcher: Snapshot, turn: Turn)
    requires turn.Table? && DistinctIds(turn.frame)
    ensures var current := Find(turn.frame, launcher.id);
            && (Reused(launcher, turn) <==> current.Some? && !SameInstance(launcher, current.value))
            && (launcher.id in Ids(turn.frame) <==> current.Some?)
  {
    var current := Find(turn.frame, launcher.id);
    forall p | p in turn.frame && p.id == launcher.id ensures current == Some(p) {
      DistinctMembers(turn.frame, p, current.value);
    }
  }

  lemma TurnDecides(launcher: Snapshot, target: Path, before: seq<Turn>, progress: Progress, turn: Turn)
    requires Sound(launcher, before, progress) && LedgerExact(launcher, before, progress)
    requires turn.Table? ==> DistinctIds(turn.frame)
    ensures var outcome := TakeTurn(launcher, launcher.group, target, progress, turn);
            if outcome.Waiting? then
              Waits(launcher, target, before, turn) && LedgerExact(launcher, before + [turn], outcome.progress)
            else Decides(launcher, target, before, turn, outcome)
  {
    if turn.Table? {
      FindShows(launcher, turn);
      NobodyBelow(launcher, before, progress);
      if Usable(launcher, before, turn) {
        UsableDecides(launcher, target, before, progress, turn);
      }
    }
  }

  lemma NobodyBelow(launcher: Snapshot, turns: seq<Turn>, progress: Progress)
    requires LedgerExact(launcher, turns, progress)
    ensures progress.descendants == [] <==> forall p :: !LatestBelow(launcher, turns, p)
  {
    if progress.descendants != [] {
      assert progress.descendants[0] in progress.descendants;
      assert LatestBelow(launcher, turns, progress.descendants[0]);
    }
    forall p ensures p in progress.descendants <==> LatestBelow(launcher, turns, p) {
    }
  }

  lemma UsableDecides(launcher: Snapshot, target: Path, before: seq<Turn>, progress: Progress, turn: Turn)
    requires Sound(launcher, before, progress) && LedgerExact(launcher, before, progress)
    requires turn.Table? && DistinctIds(turn.frame) && Usable(launcher, before, turn)
    ensures var outcome := TakeTurn(launcher, launcher.group, target, progress, turn);
            if outcome.Waiting? then
              Waits(launcher, target, before, turn) && LedgerExact(launcher, before + [turn], outcome.progress)
            else Decides(launcher, target, before, turn, outcome)
  {
    FindShows(launcher, turn);
    NobodyBelow(launcher, before, progress);
    TrackedExact(launcher, before, progress, turn);
    var tracked := Tracked(launcher, progress, turn.frame);
    SelectionExact(launcher, before + [turn], tracked.descendants, DesktopRootSnapshots(target, turn.frame));
  }

  lemma {:induction false} WaitingExact(launcher: Snapshot, target: Path, turns: seq<Turn>)
    requires DistinctTables(turns) && LaunchLoop(launcher, target, turns).Waiting?
    ensures LedgerExact(launcher, turns, LaunchLoop(launcher, target, turns).progress)
    ensures forall k :: 0 <= k < |turns| ==> Waits(launcher, target, turns[..k], turns[k])
    decreases |turns|
  {
    if turns == [] {
      assert LaunchLoop(launcher, target, turns).progress == Progress([launcher], []);
    } else {
      var init, last := Unsnoc(turns);
      LoopAppend(launcher, target, init, last);
      assert turns[|init|] == last && forall k :: 0 <= k < |init| ==> init[k] == turns[k];
      WaitingExact(launcher, target, init);
      WaitingSound(launcher, target, init);
      TurnDecides(launcher, target, init, LaunchLoop(launcher, target, init).progress, last);
      forall k | 0 <= k < |turns| ensures Waits(launcher, target, turns[..k], turns[k]) {
        if k == |init| {
          assert turns[..k] == init;
        } else {
          assert turns[..k] == init[..k] && Waits(launcher, target, init[..k], init[k]);
        }
      }
    }
  }

  /** The whole launch, for every sequence of turns: it waits exactly through the turns without a root
      and with time left; the first other turn decides, as its table says, and the session's ledger or
      the cleanup list is exactly the launcher and everything last seen below it. */
  lemma LaunchExact(launcher: Snapshot, target: Path, turns: seq<Turn>) returns (n: nat)
    requires DistinctTables(turns)
    ensures n <= |turns| && forall k :: 0 <= k < n ==> Waits(launcher, target, turns[..k], turns[k])
    ensures var outcome := LaunchLoop(launcher, target, turns);
            if n == |turns| then outcome.Waiting? && LedgerExact(launcher, turns, outcome.progress)
            else Decides(launcher, target, turns[..n], turns[n], outcome)
  {
    n := TurnsTaken(launcher, target, turns);
    if LaunchLoop(launcher, target, turns).Waiting? {
      WaitingExact(launcher, target, turns);
    } else {
      n := n - 1;
      DecidingExact(launcher, target, turns, n);
      EarlierWait(launcher, target, turns, n);
    }
  }

  lemma DecidingExact(launcher: Snapshot, target: Path, turns: seq<Turn>, n: nat)
    requires DistinctTables(turns) && n < |turns| && TakesTurns(launcher, target, turns, n + 1)
    requires !LaunchLoop(launcher, target, turns).Waiting?
    ensures Decides(launcher, target, turns[..n], turns[n], LaunchLoop(launcher, target, turns))
  {
    var before := turns[..n];
    assert forall k :: 0 <= k < n ==> before[k] == turns[k];
    WaitingExact(launcher, target, before);
    WaitingSound(launcher, target, before);
    TurnDecides(launcher, target, before, LaunchLoop(launcher, target, before).progress, turns[n]);
  }

  lemma EarlierWait(launcher: Snapshot, target: Path, turns: seq<Turn>, n: nat)
    requires DistinctTables(turns) && n <= |turns| && LaunchLoop(launcher, target, turns[..n]).Waiting?
    ensures forall k :: 0 <= k < n ==> Waits(launcher, target, turns[..k], turns[k])
  {
    var before := turns[..n];
    assert forall k :: 0 <= k < n ==> before[k] == turns[k];
    WaitingExact(launcher, target, before);
    forall k | 0 <= k < n ensures Waits(launcher, target, turns[..k], turns[k]) {
      assert turns[..k] == before[..k] && Waits(launcher, target, before[..k], before[k]);
    }
  }
}
