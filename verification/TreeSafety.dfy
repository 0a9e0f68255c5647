/** Safety of one observed tree: the Linux process group only raises alarms, and signals reach
    exact observed instances only. */
module TreeSafety {
  import opened Wrappers
  import opened Processes
  import opened IndependentService
  import opened ObservedTree
  import opened TreeOwnership
  import Prefilter = MacosProcessObservation

  // ----- the process group on Linux ---------------------------------------------------

  lemma TraceableIffBelow(t: State, frame: Frame, g: Snapshot)
    requires DistinctIds(frame) && g in frame
    ensures var r := Refreshed(t, frame);
            Traceable(g, r.known, Descend(Ids(r.known), frame)) <==> g.id in Closure(Ids(r.known), frame)
  {
    var r := Refreshed(t, frame);
    DescendExact(Ids(r.known), frame, g);
    if g.id in Ids(r.known) {
      var k :| k in r.known && k.id == g.id;
      CarriedInFrame(t, frame);
      assert k.id in Ids(frame);
      DistinctMembers(frame, k, g);
    }
  }

  /** On Linux an observation fails for the group exactly when some group member is neither
      known nor reachable from a known PID. */
  lemma TripwireExact(t: State, frame: Frame)
    requires DistinctIds(frame) && t.group.Some? && RootCheck(t, Find(frame, t.root.id)).None?
    ensures ObserveFrame(Linux, t, frame).1.Failed? <==>
            exists g :: g in frame && g.group == t.group.value && g.start >= t.groupStart
                        && g.id !in Closure(Ids(Refreshed(t, frame).known), frame)
  {
    var r := Refreshed(t, frame);
    Prefilter.GroupMembersSound(r, frame);
    forall g | g in frame
      ensures Traceable(g, r.known, Descend(Ids(r.known), frame)) <==> g.id in Closure(Ids(r.known), frame)
    {
      TraceableIffBelow(t, frame, g);
    }
  }

  /** An observation succeeds exactly when nothing speaks against it: the root PID is not reused, its
      executable has not changed under the fixed policy, and on Linux every member of the watched
      group hangs below a carried PID. */
  lemma ObservedExact(platform: Platform, t: State, poll: Poll)
    requires DistinctIds(poll.frame)
    ensures Observe(platform, t, poll).1.Observed? <==>
              && (forall p :: p in poll.frame && p.id == t.root.id ==>
                    p.start == t.root.start && (p.executable == t.root.executable || t.policy.FollowSameProcess?))
              && (platform.Linux? && t.group.Some? ==>
                    forall g :: g in poll.frame && g.group == t.group.value && g.start >= t.groupStart ==>
                      g.id in Closure(Ids(Refreshed(t, poll.frame).known), poll.frame))
  {
    RootErrorsExact(platform, t, poll);
    forall p | p in poll.frame && p.id == t.root.id ensures Find(poll.frame, t.root.id) == Some(p) {
      FindDistinct(poll.frame, p);
    }
    if platform.Linux? && t.group.Some? && RootCheck(t, Find(poll.frame, t.root.id)).None? {
      TripwireExact(t, poll.frame);
    }
  }

  /** What a failed group check leaves: the root as this frame shows it, the ledger of the carried
      processes and nothing more, and an error that names a member nobody in the ledger is above. */
  lemma FailedCheckExact(t: State, poll: Poll)
    requires DistinctIds(poll.frame) && Observe(Linux, t, poll).1.Failed?
    requires Observe(Linux, t, poll).1.error.UnattributedMember?
    ensures var (next, outcome) := Observe(Linux, t, poll);
            && (forall p :: p in next.known <==> Carried(t, poll.frame, p))
            && next == t.(root := next.root, known := next.known) && t.group.Some?
            && exists g :: g in poll.frame && g.id == outcome.error.id && g.group == t.group.value
                           && g.start >= t.groupStart && g.id !in Closure(Ids(next.known), poll.frame)
  {
    var r := Refreshed(t, poll.frame);
    forall p ensures p in r.known <==> Carried(t, poll.frame, p) {
      CarriedExact(t, poll.frame, p);
    }
    Prefilter.GroupMembersSound(r, poll.frame);
    var foreign := FirstForeign(GroupMembers(r, poll.frame), r.known, Descend(Ids(r.known), poll.frame));
    TraceableIffBelow(t, poll.frame, foreign.value);
    assert foreign.value in poll.frame;
  }

  // `u` knows the same processes as `t` but watches no group.
  ghost predicate Ungrouped(t: State, u: State) {
    && u.root == t.root && u.policy == t.policy && u.group.None? && SameMembers(t.known, u.known)
  }

  lemma CarriedIds(t: State, u: State, frame: Frame)
    requires DistinctIds(frame) && Ungrouped(t, u)
    ensures forall p :: Carried(t, frame, p) <==> Carried(u, frame, p)
    ensures SameMembers(Refreshed(t, frame).known, Refreshed(u, frame).known)
    ensures Ids(Refreshed(t, frame).known) == Ids(Refreshed(u, frame).known)
  {
    assert Ids(t.known) == Ids(u.known);
    forall p ensures Carried(t, frame, p) <==> Carried(u, frame, p) {
      assert HasInstance(t.known, p) <==> HasInstance(u.known, p);
    }
    forall p ensures p in Refreshed(t, frame).known <==> p in Refreshed(u, frame).known {
      CarriedExact(t, frame, p);
      CarriedExact(u, frame, p);
    }
  }

  lemma GroupAddsNothing(t: State, frame: Frame)
    requires DistinctIds(frame) && t.group.Some? && ObserveFrame(Linux, t, frame).1.Observed?
    ensures forall p :: p in ObserveFrame(Linux, t, frame).0.known <==>
              Carried(t, frame, p)
              || (p in frame && p.id in Closure(Ids(Refreshed(t, frame).known), frame)
                  && p.id !in Ids(Refreshed(t, frame).known))
  {
    var r := Refreshed(t, frame);
    KnownExact(Linux, t, frame);
    TripwireExact(t, frame);
    forall p | p in frame && p.id in Ids(r.known) ensures Carried(t, frame, p) {
      var k :| k in r.known && k.id == p.id;
      CarriedInFrame(t, frame);
      assert k.id in Ids(frame);
      DistinctMembers(frame, k, p);
      CarriedExact(t, frame, p);
    }
  }

  /** One frame: a grouped observation that succeeds reports and keeps exactly what the
      ungrouped one does. */
  lemma GroupIsTripwire(t: State, u: State, frame: Frame)
    requires DistinctIds(frame) && t.group.Some? && Ungrouped(t, u)
    requires ObserveFrame(Linux, t, frame).1.Observed?
    ensures var (t', a) := ObserveFrame(Linux, t, frame);
            var (u', b) := ObserveFrame(Linux, u, frame);
            b.Observed? && SameMembers(a.processes, b.processes) && Ungrouped(t', u')
  {
    CarriedIds(t, u, frame);
    GroupAddsNothing(t, frame);
    KnownExact(Linux, t, frame);
    KnownExact(Linux, u, frame);
  }

  lemma ClosureSameMembers(roots: set<nat>, a: Frame, b: Frame)
    requires SameMembers(a, b)
    ensures Closure(roots, a) == Closure(roots, b)
  {
    ClosureIsLeast(roots, a);
    ClosureIsLeast(roots, b);
    assert ChildClosed(Closure(roots, b), a) && ChildClosed(Closure(roots, a), b);
  }

  lemma TransferSameMembers(root: Snapshot, a: seq<Snapshot>, b: seq<Snapshot>, directory: Option<seq<Entry>>)
    requires SameMembers(a, b)
    ensures TransferredBy(root, a, directory) == TransferredBy(root, b, directory)
  {
    if directory.Some? {
      assert Leaders(root, a, directory.value) == Leaders(root, b, directory.value);
      ClosureSameMembers(Leaders(root, a, directory.value), a, b);
    }
  }

  lemma WithoutSameMembers(a: seq<Snapshot>, b: seq<Snapshot>, ids: set<nat>)
    requires SameMembers(a, b)
    ensures SameMembers(Without(a, ids), Without(b, ids))
  {
    forall p ensures p in Without(a, ids) <==> p in Without(b, ids) {
      WithoutExact(a, ids, p);
      WithoutExact(b, ids, p);
    }
  }

  ghost predicate AllObserved(t: State, polls: seq<Poll>) {
    forall i :: 0 <= i < |polls| ==> Observe(Linux, Run(Linux, t, polls[..i]), polls[i]).1.Observed?
  }

  lemma TripwireObserve(t: State, u: State, poll: Poll)
    requires DistinctIds(poll.frame) && t.group.Some? && Ungrouped(t, u)
    requires Observe(Linux, t, poll).1.Observed?
    ensures Observe(Linux, u, poll).1.Observed?
    ensures SameMembers(Observe(Linux, t, poll).1.processes, Observe(Linux, u, poll).1.processes)
    ensures Ungrouped(Observe(Linux, t, poll).0, Observe(Linux, u, poll).0)
  {
    GroupIsTripwire(t, u, poll.frame);
    var (t', a) := ObserveFrame(Linux, t, poll.frame);
    var (u', b) := ObserveFrame(Linux, u, poll.frame);
    TransferSameMembers(t'.root, a.processes, b.processes, poll.directory);
    var gone := TransferredBy(t'.root, a.processes, poll.directory);
    WithoutSameMembers(a.processes, b.processes, gone);
    WithoutSameMembers(t'.known, u'.known, gone);
  }

  lemma AllObservedPrefix(t: State, polls: seq<Poll>, n: nat)
    requires AllObserved(t, polls) && n <= |polls|
    ensures AllObserved(t, polls[..n])
  {
    assert forall i :: 0 <= i < n ==> polls[..n][..i] == polls[..i] && polls[..n][i] == polls[i];
  }

  lemma {:induction false} UngroupedOverRun(t: State, u: State, polls: seq<Poll>)
    requires DistinctPolls(polls) && t.group.Some? && Ungrouped(t, u) && AllObserved(t, polls)
    ensures Ungrouped(Run(Linux, t, polls), Run(Linux, u, polls))
    decreases |polls|
  {
    if polls != [] {
      var n := |polls| - 1;
      AllObservedPrefix(t, polls, n);
      UngroupedOverRun(t, u, polls[..n]);
      RootFixedOverRun(Linux, t, polls[..n]);
      TripwireObserve(Run(Linux, t, polls[..n]), Run(Linux, u, polls[..n]), polls[n]);
    }
  }

  /** Whole runs: as long as the grouped tree keeps succeeding, the group has granted nothing;
      the tree without a group reports the same processes at every poll. */
  lemma GroupNeverGrants(t: State, u: State, polls: seq<Poll>, i: nat)
    requires DistinctPolls(polls) && t.group.Some? && Ungrouped(t, u) && AllObserved(t, polls) && i < |polls|
    ensures var a := Observe(Linux, Run(Linux, t, polls[..i]), polls[i]).1;
            var b := Observe(Linux, Run(Linux, u, polls[..i]), polls[i]).1;
            a.Observed? && b.Observed? && SameMembers(a.processes, b.processes)
  {
    AllObservedPrefix(t, polls, i);
    UngroupedOverRun(t, u, polls[..i]);
    RootFixedOverRun(Linux, t, polls[..i]);
    TripwireObserve(Run(Linux, t, polls[..i]), Run(Linux, u, polls[..i]), polls[i]);
  }

  // ----- signals ----------------------------------------------------------------------

  // What the re-check of one target finds just before delivery; a PID without an entry is gone.
  datatype Probe = Unreadable | Running(current: Snapshot, sendFails: bool)

  datatype Delivery = Delivery(sent: seq<Snapshot>, completed: bool)

  // This target is still there and cannot be signalled as the instance it was.
  predicate Refused(p: Snapshot, probes: map<nat, Probe>) {
    p.id in probes &&
    (probes[p.id].Unreadable? || probes[p.id].current.id != p.id || probes[p.id].current.start != p.start
     || probes[p.id].sendFails)
  }

  /** The targets that are still there, in order. */
  ghost function Present(targets: seq<Snapshot>, probes: map<nat, Probe>): seq<Snapshot> {
    if targets == [] then []
    else
      var last := targets[|targets| - 1];
      Present(targets[..|targets| - 1], probes) + (if last.id in probes then [last] else [])
  }

  lemma {:induction false} PresentExact(targets: seq<Snapshot>, probes: map<nat, Probe>)
    ensures forall p :: p in Present(targets, probes) <==> p in targets && p.id in probes
  {
    if targets != [] {
      PresentExact(targets[..|targets| - 1], probes);
      assert targets == targets[..|targets| - 1] + [targets[|targets| - 1]];
    }
  }

  /** The delivery reached the first `n` targets: all of these that are still there were signalled and
      nobody else, and it stopped at the next one, which refuses, or is complete. */
  ghost predicate Reaches(targets: seq<Snapshot>, probes: map<nat, Probe>, n: nat, delivery: Delivery) {
    && n <= |targets| && (forall j :: 0 <= j < n ==> !Refused(targets[j], probes))
    && delivery.sent == Present(targets[..n], probes)
    && delivery.completed == (n == |targets|) && (n < |targets| ==> Refused(targets[n], probes))
  }

  /** Everything a delivery to these targets does: it completes exactly when no target refuses, then
      with all that are still there signalled, and otherwise it stops at the first that refuses. */
  ghost predicate Delivers(targets: seq<Snapshot>, probes: map<nat, Probe>, delivery: Delivery) {
    && (exists n :: Reaches(targets, probes, n, delivery))
    && (forall p :: p in delivery.sent ==> p in targets && p.id in probes && !Refused(p, probes))
    && (delivery.completed <==> forall p :: p in targets ==> !Refused(p, probes))
    && (delivery.completed ==> forall p :: p in targets && p.id in probes ==> p in delivery.sent)
  }

  lemma ReachesDelivers(targets: seq<Snapshot>, probes: map<nat, Probe>, n: nat, delivery: Delivery)
    requires Reaches(targets, probes, n, delivery)
    ensures Delivers(targets, probes, delivery)
  {
    PresentExact(targets[..n], probes);
    assert targets == targets[..n] + targets[n..];
    if n < |targets| {
      assert targets[n] in targets;
    }
  }

  /** Targets are signalled in order; a vanished one is skipped, a reused PID or a failing
      call stops the delivery. */
  method SignalProcesses(targets: seq<Snapshot>, probes: map<nat, Probe>) returns (delivery: Delivery)
    ensures Delivers(targets, probes, delivery)
  {
    var sent := [];
    for i := 0 to |targets|
      invariant forall j :: 0 <= j < i ==> !Refused(targets[j], probes)
      invariant sent == Present(targets[..i], probes)
    {
      var expected := targets[i];
      assert targets[..i + 1] == targets[..i] + [expected];
      if expected.id !in probes {
        continue;
      }
      var probe := probes[expected.id];
      if probe.Unreadable? || !SameInstance(expected, probe.current) || probe.sendFails {
        ReachesDelivers(targets, probes, i, Delivery(sent, false));
        return Delivery(sent, false);
      }
      sent := sent + [expected];
    }
    ReachesDelivers(targets, probes, |targets|, Delivery(sent, true));
    return Delivery(sent, true);
  }

  /** `signal_exact`: observe, then signal everything that was observed. */
  method SignalExact(tree: ObservedProcessTree, poll: Poll, probes: map<nat, Probe>) returns (delivery: Delivery)
    modifies tree
    ensures tree.View() == Observe(tree.platform, old(tree.View()), poll).0
    ensures Observe(tree.platform, old(tree.View()), poll).1.Failed? ==> delivery == Delivery([], false)
    ensures Observe(tree.platform, old(tree.View()), poll).1.Observed? ==>
              Delivers(Observe(tree.platform, old(tree.View()), poll).1.processes, probes, delivery)
  {
    var outcome := tree.ObserveSystem(poll);
    if outcome.Failed? {
      return Delivery([], false);
    }
    delivery := SignalProcesses(outcome.processes, probes);
  }

  /** Live observed processes outside the current subtree of the root. */
  method Escaped(tree: ObservedProcessTree, poll: Poll) returns (outcome: Outcome)
    modifies tree
    ensures tree.View() == Observe(tree.platform, old(tree.View()), poll).0
    ensures var seen := Observe(tree.platform, old(tree.View()), poll).1;
            && (seen.Failed? <==> outcome.Failed?)
            && (seen.Observed? ==> forall p :: p in outcome.processes <==>
                  p in seen.processes && p.id !in Closure({tree.root.id}, seen.processes))
  {
    outcome := tree.ObserveSystem(poll);
    if outcome.Observed? {
      var live := outcome.processes;
      var descendants := DescendantSnapshots([tree.root.id], live);
      assert Elements([tree.root.id]) == {tree.root.id};
      var inside := Ids(descendants) + {tree.root.id};
      outcome := Observed(Without(live, inside));
      forall p ensures p in Without(live, inside) <==> p in live && p.id !in inside {
        WithoutExact(live, inside, p);
      }
    }
  }
}
