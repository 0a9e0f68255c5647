/** The observed process tree: which live processes this program owns, frame after frame. */
module ObservedTree {
  import opened Wrappers
  import opened Processes
  import opened IndependentService

  datatype Platform = Linux | MacOs
  datatype RootExecutablePolicy = Fixed | FollowSameProcess

  datatype Error =
    | RootReused(id: nat)
    | RootExecutableChanged(id: nat)
    | UnattributedMember(id: nat)

  datatype Outcome = Observed(processes: seq<Snapshot>) | Failed(error: Error)

  // The fields of an observed tree, as a value.
  datatype State = State(
    root: Snapshot,
    known: seq<Snapshot>,
    group: Option<nat>,
    groupStart: nat,
    policy: RootExecutablePolicy)

  // What one observation reads from the system: the process table and the registry directory.
  datatype Poll = Poll(frame: Frame, directory: Option<seq<Entry>>)

  // ----- one frame, as functions of the state -----------------------------------------

  /** Known processes carried into this frame: the root PID always, others only while the
      same instance is live. */
  function Refresh(rootId: nat, current: Option<Snapshot>, known: seq<Snapshot>, frame: Frame): seq<Snapshot> {
    if known == [] then []
    else
      var rest := Refresh(rootId, current, known[1..], frame);
      if known[0].id == rootId then [if current.Some? then current.value else known[0]] + rest
      else
        var live := FindInstance(frame, known[0]);
        if live.Some? then [live.value] + rest else rest
  }

  predicate InGroup(p: Snapshot, group: nat, groupStart: nat) {
    p.start >= groupStart && p.group == group
  }

  function GroupMembers(t: State, frame: Frame): seq<Snapshot> {
    if t.group.None? || frame == [] then []
    else if InGroup(frame[0], t.group.value, t.groupStart) then [frame[0]] + GroupMembers(t, frame[1..])
    else GroupMembers(t, frame[1..])
  }

  /** Appends the observed processes whose PID is not known yet. */
  function Adopt(known: seq<Snapshot>, observed: seq<Snapshot>): seq<Snapshot>
    decreases |observed|
  {
    if observed == [] then known
    else if observed[0].id in Ids(known) then Adopt(known, observed[1..])
    else Adopt(known + [observed[0]], observed[1..])
  }

  /** The known processes that are live in this frame, as the frame shows them. */
  function Live(known: seq<Snapshot>, frame: Frame): seq<Snapshot> {
    if known == [] then []
    else
      var current := FindInstance(frame, known[0]);
      if current.Some? then [current.value] + Live(known[1..], frame) else Live(known[1..], frame)
  }

  predicate Traceable(p: Snapshot, known: seq<Snapshot>, permitted: seq<Snapshot>) {
    (exists k :: k in known && SameInstance(k, p)) || (exists d :: d in permitted && SameInstance(d, p))
  }

  function FirstForeign(members: seq<Snapshot>, known: seq<Snapshot>, permitted: seq<Snapshot>): (r: Option<Snapshot>)
    ensures r.None? <==> forall p :: p in members ==> Traceable(p, known, permitted)
    ensures r.Some? ==> r.value in members && !Traceable(r.value, known, permitted)
  {
    if members == [] then None
    else if !Traceable(members[0], known, permitted) then Some(members[0])
    else FirstForeign(members[1..], known, permitted)
  }

  function RootCheck(t: State, current: Option<Snapshot>): Option<Error> {
    if current.None? then None
    else if !SameInstance(t.root, current.value) then Some(RootReused(t.root.id))
    else if current.value.executable != t.root.executable && t.policy.Fixed? then
      Some(RootExecutableChanged(t.root.id))
    else None
  }

  /** The tree after the root check passed and retired processes were dropped. */
  function Refreshed(t: State, frame: Frame): State {
    var current := Find(frame, t.root.id);
    t.(root := if current.Some? then t.root.(executable := current.value.executable) else t.root,
       known := Refresh(t.root.id, current, t.known, frame))
  }

  function Candidates(t: State, frame: Frame): seq<Snapshot> {
    GroupMembers(t, frame) + Descend(Ids(t.known), frame)
  }

  function ObserveFrame(platform: Platform, t: State, frame: Frame): (State, Outcome) {
    var failure := RootCheck(t, Find(frame, t.root.id));
    if failure.Some? then (t, Failed(failure.value))
    else
      var r := Refreshed(t, frame);
      var foreign := FirstForeign(GroupMembers(r, frame), r.known, Descend(Ids(r.known), frame));
      if platform.Linux? && r.group.Some? && foreign.Some? then
        (r, Failed(UnattributedMember(foreign.value.id)))
      else
        var adopted := r.(known := Adopt(r.known, Candidates(r, frame)));
        (adopted, Observed(Live(adopted.known, frame)))
  }

  function Without(processes: seq<Snapshot>, ids: set<nat>): seq<Snapshot> {
    if processes == [] then []
    else if processes[0].id in ids then Without(processes[1..], ids)
    else [processes[0]] + Without(processes[1..], ids)
  }

  ghost function TransferredBy(root: Snapshot, owned: seq<Snapshot>, directory: Option<seq<Entry>>): set<nat> {
    if directory.Some? then Transferred(root, owned, directory.value) else {}
  }

  ghost function Observe(platform: Platform, t: State, poll: Poll): (State, Outcome) {
    var (seen, outcome) := ObserveFrame(platform, t, poll.frame);
    match outcome
    case Failed(_) => (seen, outcome)
    case Observed(owned) =>
      var gone := TransferredBy(seen.root, owned, poll.directory);
      (seen.(known := Without(seen.known, gone)), Observed(Without(owned, gone)))
  }

  /** The state before observation number |polls| of a run. A caller may observe again after
      a failure, so a run continues from whatever state the failure left. */
  ghost function Run(platform: Platform, t: State, polls: seq<Poll>): State {
    if polls == [] then t
    else Observe(platform, Run(platform, t, polls[..|polls| - 1]), polls[|polls| - 1]).0
  }

  // ----- the object -------------------------------------------------------------------

  class ObservedProcessTree {
    var root: Snapshot
    var known: seq<Snapshot>
    var group: Option<nat>
    var groupStart: nat
    var policy: RootExecutablePolicy
    const platform: Platform

    function View(): State
      reads this
    {
      State(root, known, group, groupStart, policy)
    }

    constructor WithOwnedProcesses(platform: Platform, root: Snapshot, group: Option<nat>,
                                   groupStart: Option<nat>, owned: seq<Snapshot>)
      ensures View() == Opened(root, group, groupStart, owned)
      ensures this.platform == platform && this.root == root && this.group == group && policy.Fixed?
      ensures this.groupStart == if groupStart.Some? then groupStart.value else root.start
      ensures known == owned || known == owned + [root]
      ensures known == owned <==> HasInstance(owned, root)
    {
      this.platform := platform;
      this.root := root;
      this.group := group;
      this.groupStart := if groupStart.Some? then groupStart.value else root.start;
      this.known := if exists p :: p in owned && SameInstance(p, root) then owned else owned + [root];
      this.policy := Fixed;
    }

    /** A tree that leads its own process group observes that group too. */
    constructor FollowingRootExec(platform: Platform, root: Snapshot)
      ensures View() ==
              Opened(root, if root.group == root.id then Some(root.group) else None, None, [])
                .(policy := FollowSameProcess)
      ensures this.platform == platform && this.root == root && known == [root] && policy.FollowSameProcess?
      ensures group == (if root.group == root.id then Some(root.id) else None) && groupStart == root.start
    {
      this.platform := platform;
      this.root := root;
      this.group := if root.group == root.id then Some(root.group) else None;
      this.groupStart := root.start;
      this.known := [root];
      this.policy := FollowSameProcess;
    }

    method ObserveSnapshots(snapshots: Frame) returns (outcome: Outcome)
      modifies this
      ensures (View(), outcome) == ObserveFrame(platform, old(View()), snapshots)
    {
      var current := Find(snapshots, root.id);
      if current.Some? {
        if !SameInstance(root, current.value) {
          return Failed(RootReused(root.id));
        }
        if current.value.executable != root.executable {
          if policy.Fixed? {
            return Failed(RootExecutableChanged(root.id));
          }
          root := root.(executable := current.value.executable);
        }
      }
      known := RefreshKnown(root.id, current, known, snapshots);
      assert View() == Refreshed(old(View()), snapshots);
      var members := GroupMembers(View(), snapshots);
      IdListElements(known);
      var descendants := DescendantSnapshots(IdList(known), snapshots);
      if platform.Linux? && group.Some? {
        var foreign := FirstForeign(members, known, descendants);
        if foreign.Some? {
          return Failed(UnattributedMember(foreign.value.id));
        }
      }
      AdoptAll(members + descendants);
      return Observed(Live(known, snapshots));
    }

    method AdoptAll(observed: seq<Snapshot>)
      modifies this`known
      ensures known == Adopt(old(known), observed)
    {
      for i := 0 to |observed|
        invariant Adopt(known, observed[i..]) == Adopt(old(known), observed)
      {
        assert observed[i..][0] == observed[i] && observed[i..][1..] == observed[i + 1..];
        if observed[i].id !in Ids(known) {
          known := known + [observed[i]];
        }
      }
      assert observed[|observed|..] == [];
    }

    method ObserveSystem(poll: Poll) returns (outcome: Outcome)
      modifies this
      ensures (View(), outcome) == Observe(platform, old(View()), poll)
    {
      outcome := ObserveSnapshots(poll.frame);
      if outcome.Observed? {
        var transferred := TransferredProcesses(root, outcome.processes, poll.directory);
        known := Without(known, Elements(transferred));
        outcome := Observed(Without(outcome.processes, Elements(transferred)));
      }
    }
  }

  function Opened(root: Snapshot, group: Option<nat>, groupStart: Option<nat>, owned: seq<Snapshot>): State {
    State(root,
          if exists p :: p in owned && SameInstance(p, root) then owned else owned + [root],
          group,
          if groupStart.Some? then groupStart.value else root.start,
          Fixed)
  }

  function IdList(known: seq<Snapshot>): seq<nat> {
    seq(|known|, i requires 0 <= i < |known| => known[i].id)
  }

  lemma IdListElements(known: seq<Snapshot>)
    ensures Elements(IdList(known)) == Ids(known)
  {
    var ids := IdList(known);
    forall x | x in Ids(known) ensures x in Elements(ids) {
      var i :| 0 <= i < |known| && known[i].id == x;
      assert ids[i] in ids;
    }
  }

  method RefreshKnown(rootId: nat, current: Option<Snapshot>, known: seq<Snapshot>, snapshots: Frame)
    returns (refreshed: seq<Snapshot>)
    ensures refreshed == Refresh(rootId, current, known, snapshots)
  {
    refreshed := [];
    for i := 0 to |known|
      invariant Refresh(rootId, current, known, snapshots) ==
                refreshed + Refresh(rootId, current, known[i..], snapshots)
    {
      var expected := known[i];
      assert known[i..][0] == expected && known[i..][1..] == known[i + 1..];
      if expected.id == rootId {
        refreshed := refreshed + [if current.Some? then current.value else expected];
        continue;
      }
      var live := FindInstance(snapshots, expected);
      if live.Some? {
        refreshed := refreshed + [live.value];
      }
    }
    assert known[|known|..] == [];
  }
}
