/** Ownership transfer over frames and runs, on both platforms: registered services leave the
    observed tree, and signals spare them for as long as their registration lasts. */
module OwnershipTransfer {
  import opened Wrappers
  import opened Processes
  import opened IndependentService
  import opened ObservedTree
  import opened TreeOwnership
  import opened TreeSafety
  import Prefilter = MacosProcessObservation

  // ----- one frame --------------------------------------------------------------------

  /** After a successful observation neither the result nor the ledger holds a registered
      leader or anything that hangs below it through owned processes. */
  lemma TransferredLeave(platform: Platform, t: State, poll: Poll, leader: Snapshot)
    requires Observe(platform, t, poll).1.Observed? && poll.directory.Some?
    requires var (seen, outcome) := ObserveFrame(platform, t, poll.frame);
             leader in outcome.processes && Registered(seen.root, poll.directory.value, leader)
    ensures var owned := ObserveFrame(platform, t, poll.frame).1.processes;
            var gone := Closure({leader.id}, owned);
            && Ids(Observe(platform, t, poll).1.processes) !! gone
            && Ids(Observe(platform, t, poll).0.known) !! gone
  {
    var (seen, outcome) := ObserveFrame(platform, t, poll.frame);
    var owned := outcome.processes;
    var all := Transferred(seen.root, owned, poll.directory.value);
    TransferredIsLeast(seen.root, owned, poll.directory.value);
    ClosureIsLeast({leader.id}, owned);
    assert Closure({leader.id}, owned) <= all;
    forall p ensures p in Without(owned, all) ==> p.id !in all {
      WithoutExact(owned, all, p);
    }
    forall p ensures p in Without(seen.known, all) ==> p.id !in all {
      WithoutExact(seen.known, all, p);
    }
  }

  /** Lineage discovery reaches this process from the ledger. */
  ghost predicate Reached(t: State, frame: Frame, p: Snapshot) {
    p in frame && p.id in Closure(Ids(Refreshed(t, frame).known), frame)
  }

  lemma ReachedIsOwned(platform: Platform, t: State, frame: Frame, p: Snapshot)
    requires DistinctIds(frame) && ObserveFrame(platform, t, frame).1.Observed? && Reached(t, frame, p)
    ensures p in ObserveFrame(platform, t, frame).1.processes
  {
    var carried := Refreshed(t, frame).known;
    KnownExact(platform, t, frame);
    CarriedExact(t, frame, p);
    if p.id in Ids(carried) {
      var k :| k in carried && k.id == p.id;
      CarriedInFrame(t, frame);
      assert k.id in Ids(frame);
      DistinctMembers(frame, k, p);
    }
  }

  // Below a reached process, whatever hangs there in the process table hangs there through owned
  // processes: discovery has just made all of it owned.
  lemma OwnedBelow(platform: Platform, t: State, frame: Frame, leader: Snapshot)
    requires DistinctIds(frame) && ObserveFrame(platform, t, frame).1.Observed? && Reached(t, frame, leader)
    ensures Closure({leader.id}, frame) <= Closure({leader.id}, ObserveFrame(platform, t, frame).1.processes)
  {
    var owned := ObserveFrame(platform, t, frame).1.processes;
    var s := Closure({leader.id}, owned);
    KnownExact(platform, t, frame);
    ClosureOfPart({leader.id}, owned, frame);
    ClosureMonotone({leader.id}, Ids(Refreshed(t, frame).known), frame);
    ClosureClosed(Ids(Refreshed(t, frame).known), frame);
    ClosureIsLeast({leader.id}, owned);
    forall p | p in frame && p.parent in s ensures p.id in s {
      ReachedIsOwned(platform, t, frame, p);
    }
    assert ChildClosed(s, frame);
    ClosureIsLeast({leader.id}, frame);
  }

  lemma ClosureOfPart(roots: set<nat>, part: seq<Snapshot>, frame: Frame)
    requires forall p :: p in part ==> p in frame
    ensures Closure(roots, part) <= Closure(roots, frame)
  {
    ClosureIsLeast(roots, part);
    ClosureIsLeast(roots, frame);
    assert ChildClosed(Closure(roots, frame), part);
  }

  /** Nothing of this subtree is reported or stays in the ledger. */
  ghost predicate Spared(platform: Platform, t: State, poll: Poll, leader: nat) {
    && Observe(platform, t, poll).1.Observed?
    && Ids(Observe(platform, t, poll).1.processes) !! Closure({leader}, poll.frame)
    && Ids(Observe(platform, t, poll).0.known) !! Closure({leader}, poll.frame)
  }

  /** The whole subtree of a reached registered leader in the process table is gone, not only the
      part known before. */
  lemma SubtreeLeaves(platform: Platform, t: State, poll: Poll, leader: Snapshot)
    requires DistinctIds(poll.frame) && Observe(platform, t, poll).1.Observed? && poll.directory.Some?
    requires Reached(t, poll.frame, leader) && Registered(t.root, poll.directory.value, leader)
    ensures Spared(platform, t, poll, leader.id)
  {
    ReachedIsOwned(platform, t, poll.frame, leader);
    OwnedBelow(platform, t, poll.frame, leader);
    TransferredLeave(platform, t, poll, leader);
  }

  /** Removal from the ledger does not last: a registered service whose parent is still owned
      is found again by the next frame, and handed over again before anyone can signal it. */
  lemma RediscoveredAndTransferred(platform: Platform, t: State, poll: Poll, leader: Snapshot)
    requires DistinctIds(poll.frame) && poll.directory.Some?
    requires ObserveFrame(platform, t, poll.frame).1.Observed?
    requires leader in poll.frame && leader.parent in Ids(Refreshed(t, poll.frame).known)
    requires leader.id !in Ids(t.known) && Registered(t.root, poll.directory.value, leader)
    ensures leader in ObserveFrame(platform, t, poll.frame).1.processes
    ensures leader.id !in Ids(Observe(platform, t, poll).0.known)
    ensures leader !in Observe(platform, t, poll).1.processes
  {
    var carried := Ids(Refreshed(t, poll.frame).known);
    var outcome := ObserveFrame(platform, t, poll.frame).1;
    KnownExact(platform, t, poll.frame);
    ClosureIsLeast(carried, poll.frame);
    Prefilter.RefreshIds(t.root.id, Find(poll.frame, t.root.id), t.known, poll.frame);
    assert leader.id in Closure(carried, poll.frame) && leader.id !in carried;
    TransferredLeave(platform, t, poll, leader);
    ClosureIsLeast({leader.id}, outcome.processes);
    assert leader.id !in Ids(Observe(platform, t, poll).1.processes);
  }

  // Below an unreached leader, everything reachable hangs below a ledger process that is itself
  // below the leader.
  lemma ReachedThroughLedger(roots: set<nat>, leader: nat, frame: Frame, id: nat)
    requires DistinctIds(frame) && leader !in Closure(roots, frame)
    requires id in Closure({leader}, frame) && id in Closure(roots, frame)
    ensures BelowSome(roots * Closure({leader}, frame), frame, id)
  {
    var below := Closure({leader}, frame);
    var reached := Closure(roots, frame);
    var s := (below - reached) + Closure(roots * below, frame);
    forall p | p in frame && p.parent in s ensures p.id in s {
      StaysApart(roots, leader, frame, p);
    }
    ClosureIsLeast({leader}, frame);
    assert ChildClosed(s, frame) && {leader} <= s;
    ClosureOfOne(roots * below, frame);
  }

  lemma StaysApart(roots: set<nat>, leader: nat, frame: Frame, p: Snapshot)
    requires DistinctIds(frame) && p in frame
    requires var below, reached := Closure({leader}, frame), Closure(roots, frame);
             p.parent in (below - reached) + Closure(roots * below, frame)
    ensures var below, reached := Closure({leader}, frame), Closure(roots, frame);
            p.id in (below - reached) + Closure(roots * below, frame)
  {
    var below := Closure({leader}, frame);
    ClosureIsLeast(roots * below, frame);
    if p.parent !in Closure(roots * below, frame) {
      ClosureClosed({leader}, frame);
      if p.id in Closure(roots, frame) && p.id !in roots {
        ReachedParent(roots, frame, p);
      }
    }
  }

  lemma ReachedParent(roots: set<nat>, frame: Frame, p: Snapshot)
    requires DistinctIds(frame) && p in frame && p.id in Closure(roots, frame) && p.id !in roots
    ensures p.parent in Closure(roots, frame)
  {
    DescendExact(roots, frame, p);
    DescendAttributed(roots, frame);
    var found := Descend(roots, frame);
    var i :| 0 <= i < |found| && found[i] == p;
    assert Ids(found[..i]) <= Ids(found);
  }

  ghost predicate Watched(t: State, p: Snapshot) {
    t.group.Some? && InGroup(p, t.group.value, t.groupStart)
  }

  /** The processes of this part of a frame that are reached or in the watched group. */
  ghost function Held(t: State, frame: Frame, part: seq<Snapshot>): seq<Snapshot> {
    if part == [] then []
    else (if Reached(t, frame, part[0]) || Watched(t, part[0]) then [part[0]] else []) + Held(t, frame, part[1..])
  }

  lemma {:induction false} HeldExact(t: State, frame: Frame, part: seq<Snapshot>, p: Snapshot)
    ensures p in Held(t, frame, part) <==> p in part && (Reached(t, frame, p) || Watched(t, p))
  {
    if part != [] {
      HeldExact(t, frame, part[1..], p);
    }
  }

  lemma HeldIsOwned(platform: Platform, t: State, frame: Frame)
    requires DistinctIds(frame) && ObserveFrame(platform, t, frame).1.Observed?
    ensures SameMembers(Held(t, frame, frame), ObserveFrame(platform, t, frame).1.processes)
  {
    var owned := ObserveFrame(platform, t, frame).1.processes;
    KnownExact(platform, t, frame);
    forall p ensures p in Held(t, frame, frame) <==> p in owned {
      HeldExact(t, frame, frame, p);
      CarriedExact(t, frame, p);
      if Reached(t, frame, p) {
        ReachedIsOwned(platform, t, frame, p);
      }
    }
  }

  /** This PID hangs, through reached or watched processes, below a registered service among them. */
  ghost predicate HandedOver(t: State, poll: Poll, id: nat)
    requires poll.directory.Some?
  {
    exists q :: q in Held(t, poll.frame, poll.frame) && Registered(t.root, poll.directory.value, q)
                && id in Closure({q.id}, Held(t, poll.frame, poll.frame))
  }

  lemma HandedOverIsTransferred(root: Snapshot, held: seq<Snapshot>, entries: seq<Entry>, id: nat)
    ensures id in Transferred(root, held, entries) <==>
            exists q :: q in held && Registered(root, entries, q) && id in Closure({q.id}, held)
  {
    if id in Transferred(root, held, entries) {
      var q := LeaderAbove(root, held, entries, id);
    }
    if q :| q in held && Registered(root, entries, q) && id in Closure({q.id}, held) {
      TransferredIsLeast(root, held, entries);
      ClosureMonotone({q.id}, Leaders(root, held, entries), held);
    }
  }

  lemma LeaderAbove(root: Snapshot, held: seq<Snapshot>, entries: seq<Entry>, id: nat) returns (q: Snapshot)
    requires id in Transferred(root, held, entries)
    ensures q in held && Registered(root, entries, q) && id in Closure({q.id}, held)
  {
    var leaders := Leaders(root, held, entries);
    ClosureOfOne(leaders, held);
    assert BelowSome(leaders, held, id);
    var r :| r in leaders && id in Closure({r}, held);
    q := LeaderOf(root, held, entries, r);
  }

  lemma LeaderOf(root: Snapshot, owned: seq<Snapshot>, entries: seq<Entry>, id: nat) returns (q: Snapshot)
    requires id in Leaders(root, owned, entries)
    ensures q in owned && q.id == id && Registered(root, entries, q)
  {
    q :| q in owned && q.id == id && Registered(root, entries, q);
  }

  // What one observation hands over, in terms of ledger and frame.
  lemma GoneExact(platform: Platform, t: State, poll: Poll, id: nat)
    requires DistinctIds(poll.frame) && poll.directory.Some? && ObserveFrame(platform, t, poll.frame).1.Observed?
    ensures var (seen, outcome) := ObserveFrame(platform, t, poll.frame);
            id in TransferredBy(seen.root, outcome.processes, poll.directory) <==> HandedOver(t, poll, id)
  {
    var (seen, outcome) := ObserveFrame(platform, t, poll.frame);
    var held := Held(t, poll.frame, poll.frame);
    HeldIsOwned(platform, t, poll.frame);
    TransferSameMembers(t.root, held, outcome.processes, poll.directory);
    SameLeaders(t.root, seen.root, outcome.processes, poll.directory.value);
    HandedOverIsTransferred(t.root, held, poll.directory.value, id);
  }

  // Only the PID of the root matters to a transfer.
  lemma SameLeaders(a: Snapshot, b: Snapshot, owned: seq<Snapshot>, entries: seq<Entry>)
    requires a.id == b.id
    ensures Transferred(a, owned, entries) == Transferred(b, owned, entries)
  {
    assert Leaders(a, owned, entries) == Leaders(b, owned, entries);
  }

  // What stays after one observation.
  lemma KeptExact(platform: Platform, t: State, poll: Poll, p: Snapshot)
    requires DistinctIds(poll.frame) && poll.directory.Some? && Observe(platform, t, poll).1.Observed?
    ensures p in Observe(platform, t, poll).0.known <==>
              (p in Refreshed(t, poll.frame).known || p in Held(t, poll.frame, poll.frame))
              && !HandedOver(t, poll, p.id)
    ensures p in Observe(platform, t, poll).1.processes <==>
              p in Held(t, poll.frame, poll.frame) && !HandedOver(t, poll, p.id)
  {
    var (seen, outcome) := ObserveFrame(platform, t, poll.frame);
    var gone := TransferredBy(seen.root, outcome.processes, poll.directory);
    GoneExact(platform, t, poll, p.id);
    WithoutExact(seen.known, gone, p);
    WithoutExact(outcome.processes, gone, p);
    HeldIsOwned(platform, t, poll.frame);
    KnownExact(platform, t, poll.frame);
    CarriedExact(t, poll.frame, p);
    if p in seen.known && p !in Refreshed(t, poll.frame).known {
      assert p in poll.frame;
    }
  }

  /** What may pull a PID below an unreached service back: the ledger process or group member it
      hangs below. */
  ghost predicate Pulls(t: State, frame: Frame, p: Snapshot) {
    p in Refreshed(t, frame).known || (p in frame && Watched(t, p))
  }

  // A reached PID below a handed-over ledger process is handed over with it.
  lemma HandedOverBelow(platform: Platform, t: State, poll: Poll, k: Snapshot, id: nat)
    requires DistinctIds(poll.frame) && poll.directory.Some? && ObserveFrame(platform, t, poll.frame).1.Observed?
    requires k in Refreshed(t, poll.frame).known && k.id in Ids(poll.frame)
    requires HandedOver(t, poll, k.id) && id in Closure({k.id}, poll.frame)
    ensures HandedOver(t, poll, id)
  {
    var held := Held(t, poll.frame, poll.frame);
    var owned := ObserveFrame(platform, t, poll.frame).1.processes;
    CarriedInFrame(t, poll.frame);
    ClosureIsLeast(Ids(Refreshed(t, poll.frame).known), poll.frame);
    OwnedBelow(platform, t, poll.frame, k);
    HeldIsOwned(platform, t, poll.frame);
    ClosureSameMembers({k.id}, held, owned);
    var q :| q in held && Registered(t.root, poll.directory.value, q) && k.id in Closure({q.id}, held);
    ClosureMonotone({k.id}, {q.id}, held);
  }

  lemma BelowLeaderIsHandedOver(platform: Platform, t: State, poll: Poll, leader: Snapshot, p: Snapshot)
    requires DistinctIds(poll.frame) && poll.directory.Some? && ObserveFrame(platform, t, poll.frame).1.Observed?
    requires leader in poll.frame && !Reached(t, poll.frame, leader)
    requires forall k :: Pulls(t, poll.frame, k) && k.id in Closure({leader.id}, poll.frame) ==>
               HandedOver(t, poll, k.id)
    requires p in Refreshed(t, poll.frame).known || p in Held(t, poll.frame, poll.frame)
    requires p.id in Closure({leader.id}, poll.frame)
    ensures HandedOver(t, poll, p.id)
  {
    HeldExact(t, poll.frame, poll.frame, p);
    if !Pulls(t, poll.frame, p) {
      var carried := Refreshed(t, poll.frame).known;
      var k := LedgerAbove(carried, leader, poll.frame, p.id);
      assert Pulls(t, poll.frame, k);
      HandedOverBelow(platform, t, poll, k, p.id);
    }
  }

  lemma LedgerAbove(carried: seq<Snapshot>, leader: Snapshot, frame: Frame, id: nat) returns (k: Snapshot)
    requires DistinctIds(frame) && leader in frame && leader.id !in Closure(Ids(carried), frame)
    requires id in Closure({leader.id}, frame) && id in Closure(Ids(carried), frame)
    ensures k in carried && k.id in Closure({leader.id}, frame) && id in Closure({k.id}, frame)
    ensures k.id in Ids(frame)
  {
    ReachedThroughLedger(Ids(carried), leader.id, frame, id);
    var r :| r in Ids(carried) * Closure({leader.id}, frame) && id in Closure({r}, frame);
    k :| k in carried && k.id == r;
    DescendAttributed({leader.id}, frame);
  }

  lemma SparedIfHandedOver(platform: Platform, t: State, poll: Poll, leader: Snapshot)
    requires DistinctIds(poll.frame) && Observe(platform, t, poll).1.Observed? && poll.directory.Some?
    requires leader in poll.frame && Registered(t.root, poll.directory.value, leader)
    requires forall k :: Pulls(t, poll.frame, k) && k.id in Closure({leader.id}, poll.frame) ==>
               HandedOver(t, poll, k.id)
    ensures Spared(platform, t, poll, leader.id)
  {
    if Reached(t, poll.frame, leader) {
      SubtreeLeaves(platform, t, poll, leader);
      return;
    }
    forall p | p in Observe(platform, t, poll).0.known || p in Observe(platform, t, poll).1.processes
      ensures p.id !in Closure({leader.id}, poll.frame)
    {
      KeptExact(platform, t, poll, p);
      if p.id in Closure({leader.id}, poll.frame) {
        BelowLeaderIsHandedOver(platform, t, poll, leader, p);
      }
    }
  }

  lemma HandedOverIfSpared(platform: Platform, t: State, poll: Poll, leader: nat, k: Snapshot)
    requires DistinctIds(poll.frame) && poll.directory.Some? && Spared(platform, t, poll, leader)
    requires Pulls(t, poll.frame, k) && k.id in Closure({leader}, poll.frame)
    ensures HandedOver(t, poll, k.id)
  {
    KeptExact(platform, t, poll, k);
    HeldExact(t, poll.frame, poll.frame, k);
    var known := Observe(platform, t, poll).0.known;
    assert k in known ==> k.id in Ids(known);
  }

  /** One frame, exactly, for every tree on every platform: a live registered leader's whole subtree
      leaves result and ledger if and only if every ledger process and every watched group member
      found below it is handed over, with this service or with another. */
  lemma SparedExact(platform: Platform, t: State, poll: Poll, leader: Snapshot)
    requires DistinctIds(poll.frame) && Observe(platform, t, poll).1.Observed? && poll.directory.Some?
    requires leader in poll.frame && Registered(t.root, poll.directory.value, leader)
    ensures Spared(platform, t, poll, leader.id) <==>
            forall k :: Pulls(t, poll.frame, k) && k.id in Closure({leader.id}, poll.frame) ==>
              HandedOver(t, poll, k.id)
  {
    if Spared(platform, t, poll, leader.id) {
      forall k | Pulls(t, poll.frame, k) && k.id in Closure({leader.id}, poll.frame)
        ensures HandedOver(t, poll, k.id)
      {
        HandedOverIfSpared(platform, t, poll, leader.id, k);
      }
    } else if forall k :: Pulls(t, poll.frame, k) && k.id in Closure({leader.id}, poll.frame) ==>
                HandedOver(t, poll, k.id) {
      SparedIfHandedOver(platform, t, poll, leader);
    }
  }

  // ----- handed over for the rest of the run ------------------------------------------

  /** This instance is live and a usable registration names it, at every poll. */
  ghost predicate StaysRegistered(root: Snapshot, polls: seq<Poll>, leader: Snapshot) {
    forall i :: 0 <= i < |polls| ==> polls[i].directory.Some? && RegisteredIn(root, polls[i], leader)
  }

  ghost predicate RegisteredIn(root: Snapshot, poll: Poll, leader: Snapshot)
    requires poll.directory.Some?
  {
    exists p :: p in poll.frame && SameInstance(p, leader) && Registered(root, poll.directory.value, p)
  }

  /** The ledger this poll left holds `p`, which its frame showed outside the subtree. */
  ghost predicate LeftOutside(platform: Platform, t: State, polls: seq<Poll>, i: nat, leader: nat, p: Snapshot)
    requires i < |polls|
  {
    && p in Run(platform, t, polls[..i + 1]).known
    && p in polls[i].frame && p.id !in Closure({leader}, polls[i].frame)
  }

  // This instance is below the leader now.
  ghost predicate NowBelow(frame: Frame, leader: nat, p: Snapshot) {
    p.id in Closure({leader}, frame) && HasInstance(frame, p)
  }

  /** No owned process is re-parented into this subtree: what one poll left in the ledger, outside
      it, no later frame shows below the leader. */
  ghost predicate NothingMovesBelow(platform: Platform, t: State, polls: seq<Poll>, leader: nat) {
    forall i, j, p :: 0 <= i < j < |polls| && LeftOutside(platform, t, polls, i, leader, p) ==>
      !NowBelow(polls[j].frame, leader, p)
  }

  /** Neither the root nor, on macOS, a member of the watched group is ever below the leader. The
      Linux observation already refuses group members it cannot trace. */
  ghost predicate OthersOutside(platform: Platform, t: State, frame: Frame, leader: nat) {
    && t.root.id !in Closure({leader}, frame)
    && (platform.MacOs? ==> forall p :: p in frame && Watched(t, p) ==> p.id !in Closure({leader}, frame))
  }

  ghost predicate OthersStayOutside(platform: Platform, t: State, polls: seq<Poll>, leader: nat) {
    forall i :: 0 <= i < |polls| ==> OthersOutside(platform, t, polls[i].frame, leader)
  }

  /** The service is found and handed over by the first poll. */
  ghost predicate HandedOverFirst(platform: Platform, t: State, polls: seq<Poll>, leader: Snapshot) {
    && polls != [] && Observe(platform, t, polls[0]).1.Observed?
    && exists p :: SameInstance(p, leader) && Reached(t, polls[0].frame, p)
  }

  /** The service is handed over by the first poll, stays live and registered, and nothing moves
      into its subtree. */
  ghost predicate HandedOverOnce(platform: Platform, t: State, polls: seq<Poll>, leader: Snapshot) {
    && DistinctPolls(polls) && HandedOverFirst(platform, t, polls, leader)
    && StaysRegistered(t.root, polls, leader) && NothingMovesBelow(platform, t, polls, leader.id)
    && OthersStayOutside(platform, t, polls, leader.id)
  }

  ghost predicate SeenOutside(platform: Platform, t: State, polls: seq<Poll>, leader: nat, k: Snapshot) {
    exists i :: 0 <= i < |polls| && LeftOutside(platform, t, polls, i, leader, k)
  }

  ghost predicate KnownOutside(platform: Platform, t: State, polls: seq<Poll>, leader: nat) {
    forall k :: k in Run(platform, t, polls).known ==>
      k.id == t.root.id || SeenOutside(platform, t, polls, leader, k)
  }

  lemma RunLast(platform: Platform, t: State, polls: seq<Poll>, poll: Poll)
    ensures Run(platform, t, polls + [poll]) == Observe(platform, Run(platform, t, polls), poll).0
  {
    assert (polls + [poll])[..|polls|] == polls && (polls + [poll])[|polls|] == poll;
  }

  lemma LeftOutsideLater(platform: Platform, t: State, polls: seq<Poll>, poll: Poll, i: nat, leader: nat, p: Snapshot)
    requires i < |polls|
    ensures LeftOutside(platform, t, polls, i, leader, p) <==> LeftOutside(platform, t, polls + [poll], i, leader, p)
  {
    assert (polls + [poll])[..i + 1] == polls[..i + 1] && (polls + [poll])[i] == polls[i];
  }

  // Whatever the ledger carries into the next frame is still outside.
  lemma CarriedOutside(platform: Platform, t: State, polls: seq<Poll>, poll: Poll, leader: nat, k: Snapshot)
    requires DistinctIds(poll.frame) && KnownOutside(platform, t, polls, leader)
    requires NothingMovesBelow(platform, t, polls + [poll], leader)
    requires OthersOutside(platform, t, poll.frame, leader)
    requires k in Refreshed(Run(platform, t, polls), poll.frame).known
    ensures k.id !in Closure({leader}, poll.frame)
  {
    var all := polls + [poll];
    var u := Run(platform, t, polls);
    RootFixedOverRun(platform, t, polls);
    CarriedExact(u, poll.frame, k);
    if k.id != t.root.id {
      var p :| p in u.known && SameInstance(p, k);
      var i :| 0 <= i < |polls| && LeftOutside(platform, t, polls, i, leader, p);
      LeftOutsideLater(platform, t, polls, poll, i, leader, p);
      assert SameInstance(k, p) && HasInstance(poll.frame, p);
      assert all[|polls|] == poll && !NowBelow(all[|polls|].frame, leader, p);
    }
  }

  // One poll of a run in which the service has been handed over before.
  lemma NextPollSpares(platform: Platform, t: State, polls: seq<Poll>, poll: Poll, leader: Snapshot)
    requires DistinctIds(poll.frame) && KnownOutside(platform, t, polls, leader.id)
    requires NothingMovesBelow(platform, t, polls + [poll], leader.id)
    requires OthersOutside(platform, t, poll.frame, leader.id)
    requires poll.directory.Some? && RegisteredIn(t.root, poll, leader)
    requires Observe(platform, Run(platform, t, polls), poll).1.Observed?
    ensures Spared(platform, Run(platform, t, polls), poll, leader.id)
  {
    var u := Run(platform, t, polls);
    RootFixedOverRun(platform, t, polls);
    var p :| p in poll.frame && SameInstance(p, leader) && Registered(t.root, poll.directory.value, p);
    forall k | k in Refreshed(u, poll.frame).known ensures k.id !in Closure({leader.id}, poll.frame) {
      CarriedOutside(platform, t, polls, poll, leader.id, k);
    }
    if Reached(u, poll.frame, p) {
      SubtreeLeaves(platform, u, poll, p);
    } else {
      forall k | k in poll.frame && Watched(u, k) ensures k.id !in Closure({leader.id}, poll.frame) {
        WatchedOutside(platform, t, u, poll, p, k);
      }
      SparedIfHandedOver(platform, u, poll, p);
    }
  }

  // On Linux a group member is reached, so not below a service that nothing in the ledger is below.
  lemma WatchedOutside(platform: Platform, t: State, u: State, poll: Poll, leader: Snapshot, k: Snapshot)
    requires DistinctIds(poll.frame) && ObserveFrame(platform, u, poll.frame).1.Observed?
    requires OthersOutside(platform, t, poll.frame, leader.id) && u.group == t.group && u.groupStart == t.groupStart
    requires leader in poll.frame && !Reached(u, poll.frame, leader)
    requires forall c :: c in Refreshed(u, poll.frame).known ==> c.id !in Closure({leader.id}, poll.frame)
    requires k in poll.frame && Watched(u, k)
    ensures k.id !in Closure({leader.id}, poll.frame)
  {
    if platform.Linux? && k.id in Closure({leader.id}, poll.frame) {
      TripwireExact(u, poll.frame);
      var c := LedgerAbove(Refreshed(u, poll.frame).known, leader, poll.frame, k.id);
      assert false;
    }
  }

  lemma FirstPollSpares(platform: Platform, t: State, poll: Poll, leader: Snapshot)
    requires DistinctIds(poll.frame) && HandedOverFirst(platform, t, [poll], leader)
    requires poll.directory.Some? && RegisteredIn(t.root, poll, leader)
    ensures Spared(platform, t, poll, leader.id)
  {
    var p :| SameInstance(p, leader) && Reached(t, poll.frame, p);
    var q :| q in poll.frame && SameInstance(q, leader) && Registered(t.root, poll.directory.value, q);
    DistinctMembers(poll.frame, p, q);
    SubtreeLeaves(platform, t, poll, q);
  }

  // A process the newest poll leaves in the ledger and shows outside.
  lemma NewlyOutside(platform: Platform, t: State, polls: seq<Poll>, poll: Poll, leader: nat, k: Snapshot)
    requires k in Run(platform, t, polls + [poll]).known && k in poll.frame && k.id !in Closure({leader}, poll.frame)
    ensures SeenOutside(platform, t, polls + [poll], leader, k)
  {
    var all := polls + [poll];
    assert all[..|polls| + 1] == all && all[|polls|] == poll;
    assert LeftOutside(platform, t, all, |polls|, leader, k);
  }

  lemma SparedKnownOutside(platform: Platform, t: State, polls: seq<Poll>, poll: Poll, leader: nat)
    requires DistinctIds(poll.frame) && Spared(platform, Run(platform, t, polls), poll, leader)
    ensures KnownOutside(platform, t, polls + [poll], leader)
  {
    var u := Run(platform, t, polls);
    RunLast(platform, t, polls, poll);
    RootFixedOverRun(platform, t, polls);
    var after := Observe(platform, u, poll).0;
    forall k | k in after.known && k.id != t.root.id ensures SeenOutside(platform, t, polls + [poll], leader, k) {
      KnownAfter(platform, u, poll, k);
      KnownExact(platform, u, poll.frame);
      assert k in poll.frame && k.id in Ids(after.known);
      NewlyOutside(platform, t, polls, poll, leader, k);
    }
  }

  lemma FailedKnownOutside(platform: Platform, t: State, polls: seq<Poll>, poll: Poll, leader: nat)
    requires DistinctIds(poll.frame) && KnownOutside(platform, t, polls, leader)
    requires NothingMovesBelow(platform, t, polls + [poll], leader)
    requires OthersOutside(platform, t, poll.frame, leader)
    requires Observe(platform, Run(platform, t, polls), poll).1.Failed?
    ensures KnownOutside(platform, t, polls + [poll], leader)
  {
    var u := Run(platform, t, polls);
    RunLast(platform, t, polls, poll);
    RootFixedOverRun(platform, t, polls);
    var after := Observe(platform, u, poll).0;
    forall k | k in after.known && k.id != t.root.id ensures SeenOutside(platform, t, polls + [poll], leader, k) {
      if k in u.known {
        var i :| 0 <= i < |polls| && LeftOutside(platform, t, polls, i, leader, k);
        LeftOutsideLater(platform, t, polls, poll, i, leader, k);
      } else {
        CarriedExact(u, poll.frame, k);
        CarriedOutside(platform, t, polls, poll, leader, k);
        NewlyOutside(platform, t, polls, poll, leader, k);
      }
    }
  }

  lemma MovesPrefix(platform: Platform, t: State, polls: seq<Poll>, poll: Poll, leader: nat)
    requires NothingMovesBelow(platform, t, polls + [poll], leader)
    ensures NothingMovesBelow(platform, t, polls, leader)
  {
    var all := polls + [poll];
    forall i, j, p | 0 <= i < j < |polls| && LeftOutside(platform, t, polls, i, leader, p)
      ensures !NowBelow(polls[j].frame, leader, p)
    {
      LeftOutsideLater(platform, t, polls, poll, i, leader, p);
      assert all[j] == polls[j] && !NowBelow(all[j].frame, leader, p);
    }
  }

  lemma LastPoll(platform: Platform, t: State, polls: seq<Poll>, poll: Poll, leader: Snapshot)
    requires HandedOverOnce(platform, t, polls + [poll], leader)
    ensures DistinctIds(poll.frame) && poll.directory.Some? && RegisteredIn(t.root, poll, leader)
    ensures OthersOutside(platform, t, poll.frame, leader.id)
    ensures polls != [] ==> HandedOverOnce(platform, t, polls, leader)
    ensures polls == [] ==> HandedOverFirst(platform, t, [poll], leader)
  {
    var all := polls + [poll];
    assert all[|polls|] == poll && RegisteredIn(t.root, all[|polls|], leader);
    assert forall i :: 0 <= i < |polls| ==> all[i] == polls[i];
    MovesPrefix(platform, t, polls, poll, leader.id);
    if polls == [] {
      assert all == [poll];
    }
    forall i | 0 <= i < |polls| ensures polls[i].directory.Some? && RegisteredIn(t.root, polls[i], leader) {
      assert RegisteredIn(t.root, all[i], leader);
    }
  }

  lemma Unsnoc(polls: seq<Poll>) returns (init: seq<Poll>, poll: Poll)
    requires polls != []
    ensures polls == init + [poll]
  {
    init, poll := polls[..|polls| - 1], polls[|polls| - 1];
  }

  lemma {:induction false} KnownOutsideOverRun(platform: Platform, t: State, polls: seq<Poll>, leader: Snapshot)
    requires HandedOverOnce(platform, t, polls, leader)
    ensures KnownOutside(platform, t, polls, leader.id)
    decreases |polls|
  {
    var init, poll := Unsnoc(polls);
    LastPoll(platform, t, init, poll, leader);
    if init != [] {
      KnownOutsideOverRun(platform, t, init, leader);
    }
    NextKnownOutside(platform, t, init, poll, leader);
  }

  lemma NextKnownOutside(platform: Platform, t: State, polls: seq<Poll>, poll: Poll, leader: Snapshot)
    requires HandedOverOnce(platform, t, polls + [poll], leader)
    requires polls != [] ==> KnownOutside(platform, t, polls, leader.id)
    ensures KnownOutside(platform, t, polls + [poll], leader.id)
  {
    LastPoll(platform, t, polls, poll, leader);
    if Observe(platform, Run(platform, t, polls), poll).1.Observed? {
      LastSpares(platform, t, polls, poll, leader);
      SparedKnownOutside(platform, t, polls, poll, leader.id);
    } else if polls != [] {
      FailedKnownOutside(platform, t, polls, poll, leader.id);
    }
  }

  lemma LastSpares(platform: Platform, t: State, polls: seq<Poll>, poll: Poll, leader: Snapshot)
    requires HandedOverOnce(platform, t, polls + [poll], leader)
    requires polls != [] ==> KnownOutside(platform, t, polls, leader.id)
    requires Observe(platform, Run(platform, t, polls), poll).1.Observed?
    ensures Spared(platform, Run(platform, t, polls), poll, leader.id)
  {
    LastPoll(platform, t, polls, poll, leader);
    if polls == [] {
      FirstPollSpares(platform, t, poll, leader);
    } else {
      NextPollSpares(platform, t, polls, poll, leader);
    }
  }

  /** Whole runs: once a service has been found and handed over, no later poll reports anything of
      its subtree or takes it back into the ledger, while it stays live and registered and nothing
      owned is re-parented into its subtree. Polls in between may fail, the service may fall out of
      lineage discovery and come back, and its subtree may grow. */
  lemma TransferIsForGood(platform: Platform, t: State, polls: seq<Poll>, poll: Poll, leader: Snapshot)
    requires HandedOverOnce(platform, t, polls + [poll], leader)
    requires Observe(platform, Run(platform, t, polls), poll).1.Observed?
    ensures Spared(platform, Run(platform, t, polls), poll, leader.id)
  {
    LastPoll(platform, t, polls, poll, leader);
    if polls != [] {
      KnownOutsideOverRun(platform, t, polls, leader);
    }
    LastSpares(platform, t, polls, poll, leader);
  }

  // ----- outside the conditions -------------------------------------------------------

  const SERVICE := Record(5, 0, "")
  const REGISTRY := [File(true, 0, false, false, Some(SERVICE))]

  // Root 1, the registered service 5 whose parent is gone, and process 6 below it.
  function Orphaned(group: nat): Frame {
    [Snapshot(1, 0, 1, "", 0), Snapshot(5, 9, 5, "", 0), Snapshot(6, 5, group, "", 0)]
  }

  lemma OnlyFiveRegistered(group: nat)
    ensures var frame := Orphaned(group);
            forall p :: p in frame ==> (Registered(frame[0], REGISTRY, p) <==> p == frame[1])
  {
    assert Considered(REGISTRY) == REGISTRY && REGISTRY[0] in REGISTRY;
  }

  lemma NotReached(t: State, group: nat)
    requires var frame := Orphaned(group);
             t.root == frame[0] && forall p :: p in t.known ==> p == frame[0] || p == frame[2]
    ensures var frame := Orphaned(group); !Reached(t, frame, frame[1]) && DistinctIds(frame)
  {
    var frame := Orphaned(group);
    var carried := Refreshed(t, frame).known;
    forall p | p in carried ensures p.id in {1, 6} {
      CarriedExact(t, frame, p);
    }
    ClosureIsLeast(Ids(carried), frame);
    assert ChildClosed({1, 6}, frame) && Ids(carried) <= {1, 6};
  }

  lemma ChildKept(platform: Platform, t: State, group: nat)
    requires var frame := Orphaned(group);
             && t.root == frame[0] && (forall p :: p in t.known ==> p == frame[0] || p == frame[2])
             && !Watched(t, frame[1]) && Pulls(t, frame, frame[2])
             && Observe(platform, t, Poll(frame, Some(REGISTRY))).1.Observed?
    ensures var frame := Orphaned(group);
            && frame[2].id in Closure({frame[1].id}, frame)
            && frame[2] in Observe(platform, t, Poll(frame, Some(REGISTRY))).1.processes
  {
    var frame := Orphaned(group);
    var poll := Poll(frame, Some(REGISTRY));
    NotReached(t, group);
    OnlyFiveRegistered(group);
    forall q | q in Held(t, frame, frame) ensures !Registered(t.root, REGISTRY, q) {
      HeldExact(t, frame, frame, q);
    }
    assert frame[2] in frame;
    HeldExact(t, frame, frame, frame[2]);
    ClosureIsLeast(Ids(Refreshed(t, frame).known), frame);
    KeptExact(platform, t, poll, frame[2]);
    ClosureIsLeast({5}, frame);
  }

  /** Outside the exact condition: the ledger knows process 6, which hangs below the registered
      service 5 that discovery does not reach. Process 6 is reported and would be signalled. */
  lemma UnreachedLeaderIsNotSpared(platform: Platform)
    ensures var frame := Orphaned(1);
            var t := State(frame[0], [frame[0], frame[2]], None, 0, Fixed);
            var seen := Observe(platform, t, Poll(frame, Some(REGISTRY))).1;
            && Registered(t.root, REGISTRY, frame[1]) && frame[2].id in Closure({frame[1].id}, frame)
            && seen.Observed? && frame[2] in seen.processes
  {
    var frame := Orphaned(1);
    var t := State(frame[0], [frame[0], frame[2]], None, 0, Fixed);
    assert frame[1] in frame && frame[2] in frame && frame[2] in t.known;
    OnlyFiveRegistered(1);
    assert SameInstance(frame[2], frame[2]);
    CarriedExact(t, frame, frame[2]);
    ChildKept(platform, t, 1);
  }

  /** On macOS a watched group member below such a service is reported although the ledger never
      knew it. */
  lemma WatchedMemberIsNotSpared()
    ensures var frame := Orphaned(1);
            var t := State(frame[0], [frame[0]], Some(1), 0, Fixed);
            var seen := Observe(MacOs, t, Poll(frame, Some(REGISTRY))).1;
            && Registered(t.root, REGISTRY, frame[1]) && frame[2].id in Closure({frame[1].id}, frame)
            && seen.Observed? && frame[2] in seen.processes
  {
    var frame := Orphaned(1);
    var t := State(frame[0], [frame[0]], Some(1), 0, Fixed);
    assert frame[1] in frame && frame[2] in frame;
    OnlyFiveRegistered(1);
    ChildKept(MacOs, t, 1);
  }

  /** `signal_exact` at any later point of such a run reaches nothing in the subtree. */
  method SignalSparesTransferred(tree: ObservedProcessTree, poll: Poll, probes: map<nat, Probe>,
                                 ghost t: State, ghost polls: seq<Poll>, ghost leader: Snapshot)
    returns (delivery: Delivery)
    requires tree.View() == Run(tree.platform, t, polls)
    requires HandedOverOnce(tree.platform, t, polls + [poll], leader)
    modifies tree
    ensures tree.View() == Run(tree.platform, t, polls + [poll])
    ensures var seen := Observe(tree.platform, Run(tree.platform, t, polls), poll).1;
            if seen.Observed? then Delivers(seen.processes, probes, delivery) else delivery == Delivery([], false)
    ensures forall p :: p in delivery.sent ==>
              && p.id !in Closure({leader.id}, poll.frame)
              && p.id in probes && probes[p.id].Running? && SameInstance(p, probes[p.id].current)
  {
    RunLast(tree.platform, t, polls, poll);
    delivery := SignalExact(tree, poll, probes);
    if delivery.sent != [] {
      assert delivery.sent[0] in delivery.sent;
      TransferIsForGood(tree.platform, t, polls, poll, leader);
      assert forall p :: p in delivery.sent ==>
               p.id in Ids(Observe(tree.platform, Run(tree.platform, t, polls), poll).1.processes);
    }
  }
}
