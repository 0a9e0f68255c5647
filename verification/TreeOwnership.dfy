/** What an observed tree owns: exact membership after one frame, provenance over whole runs
    and PID reuse. */
module TreeOwnership {
  import opened Wrappers
  import opened Processes
  import opened IndependentService
  import opened ObservedTree
  import Prefilter = MacosProcessObservation

  ghost predicate SameMembers(a: seq<Snapshot>, b: seq<Snapshot>) {
    forall p :: p in a <==> p in b
  }

  // ----- exact membership after one frame ---------------------------------------------

  ghost predicate Carried(t: State, frame: Frame, p: Snapshot) {
    if p.id == t.root.id then
      if Find(frame, p.id).Some? then p in frame && p.id in Ids(t.known) else p in t.known
    else p in frame && HasInstance(t.known, p)
  }

  lemma FindDistinct(frame: Frame, p: Snapshot)
    requires DistinctIds(frame) && p in frame
    ensures Find(frame, p.id) == Some(p)
  {
    assert p.id in Ids(frame);
    DistinctMembers(frame, p, Find(frame, p.id).value);
  }

  lemma {:induction false} RefreshExact(t: State, known: seq<Snapshot>, frame: Frame, p: Snapshot)
    requires DistinctIds(frame)
    ensures p in Refresh(t.root.id, Find(frame, t.root.id), known, frame) <==> Carried(t.(known := known), frame, p)
  {
    if known != [] {
      var k := known[0];
      RefreshExact(t, known[1..], frame, p);
      assert forall q :: q in known <==> q == k || q in known[1..];
      assert Ids(known) == {k.id} + Ids(known[1..]);
      assert HasInstance(known, p) <==> SameInstance(k, p) || HasInstance(known[1..], p);
      if p in frame {
        FindDistinct(frame, p);
        var live := FindInstance(frame, k);
        if live.Some? && live.value.id == p.id {
          DistinctMembers(frame, live.value, p);
        }
      }
    }
  }

  lemma {:induction false} LiveExact(known: seq<Snapshot>, frame: Frame, p: Snapshot)
    requires DistinctIds(frame)
    ensures p in Live(known, frame) <==> p in frame && HasInstance(known, p)
  {
    if known != [] {
      LiveExact(known[1..], frame, p);
      assert HasInstance(known, p) <==> SameInstance(known[0], p) || HasInstance(known[1..], p);
      var live := FindInstance(frame, known[0]);
      if p in frame && live.Some? && live.value.id == p.id {
        DistinctMembers(frame, live.value, p);
      }
    }
  }

  lemma {:induction false} AdoptExact(known: seq<Snapshot>, observed: seq<Snapshot>, frame: Frame)
    requires DistinctIds(frame)
    requires forall p :: p in observed ==> p in frame
    requires forall p :: p in known && p.id in Ids(frame) ==> p in frame
    ensures SameMembers(Adopt(known, observed), known + observed)
    decreases |observed|
  {
    if observed != [] {
      var p := observed[0];
      assert p in frame && observed == [p] + observed[1..];
      if p.id in Ids(known) {
        var k :| k in known && k.id == p.id;
        assert k in frame;
        DistinctMembers(frame, k, p);
        AdoptExact(known, observed[1..], frame);
      } else {
        AdoptExact(known + [p], observed[1..], frame);
      }
    }
  }

  /** The known processes after a successful observation are exactly the carried ones, the
      descendants of carried PIDs, and the group members. */
  lemma KnownExact(platform: Platform, t: State, frame: Frame)
    requires DistinctIds(frame) && ObserveFrame(platform, t, frame).1.Observed?
    ensures var (t', outcome) := ObserveFrame(platform, t, frame);
            var carried := Refreshed(t, frame).known;
            && (forall p :: p in t'.known <==>
                 Carried(t, frame, p)
                 || (p in frame && p.id in Closure(Ids(carried), frame) && p.id !in Ids(carried))
                 || (p in frame && t.group == Some(p.group) && p.start >= t.groupStart))
            && (forall p :: p in outcome.processes <==> p in frame && p in t'.known)
  {
    var (t', outcome) := ObserveFrame(platform, t, frame);
    var r := Refreshed(t, frame);
    forall p ensures p in r.known <==> Carried(t, frame, p) {
      RefreshExact(t, t.known, frame, p);
      assert t.(known := t.known) == t;
    }
    Prefilter.GroupMembersSound(r, frame);
    ClosureIsLeast(Ids(r.known), frame);
    CarriedInFrame(t, frame);
    AdoptExact(r.known, Candidates(r, frame), frame);
    forall p | p in frame ensures
      p in Descend(Ids(r.known), frame) <==> p.id in Closure(Ids(r.known), frame) && p.id !in Ids(r.known)
    {
      DescendExact(Ids(r.known), frame, p);
    }
    forall p ensures p in outcome.processes <==> p in frame && p in t'.known {
      LiveExact(t'.known, frame, p);
      if p in frame && HasInstance(t'.known, p) {
        var k :| k in t'.known && SameInstance(k, p);
        assert k.id in Ids(frame);
        assert k in frame;
        DistinctMembers(frame, k, p);
      }
    }
  }

  lemma CarriedInFrame(t: State, frame: Frame)
    requires DistinctIds(frame)
    ensures forall p :: p in Refreshed(t, frame).known && p.id in Ids(frame) ==> p in frame
  {
    forall p | p in Refreshed(t, frame).known && p.id in Ids(frame) ensures p in frame {
      RefreshExact(t, t.known, frame, p);
    }
  }

  // ----- the root anchors every run ---------------------------------------------------

  ghost predicate DistinctPolls(polls: seq<Poll>) {
    forall i :: 0 <= i < |polls| ==> DistinctIds(polls[i].frame)
  }

  /** Over any run only the executable of the root may change; group and policy never do. */
  lemma {:induction false} RootFixedOverRun(platform: Platform, t: State, polls: seq<Poll>)
    ensures var u := Run(platform, t, polls);
            && SameInstance(u.root, t.root)
            && u.group == t.group && u.groupStart == t.groupStart && u.policy == t.policy
            && (t.policy.Fixed? ==> u.root == t.root)
    decreases |polls|
  {
    if polls != [] {
      RootFixedOverRun(platform, t, polls[..|polls| - 1]);
    }
  }

  /** A reused root PID is always refused, whatever happened before, and changes nothing;
      and that error is never reported for anything else. */
  lemma RootReuseAlwaysFails(platform: Platform, t: State, polls: seq<Poll>, poll: Poll)
    requires DistinctIds(poll.frame)
    ensures var u := Run(platform, t, polls);
            (exists p :: p in poll.frame && p.id == t.root.id && p.start != t.root.start)
            <==> Observe(platform, u, poll) == (u, Failed(RootReused(t.root.id)))
  {
    RootFixedOverRun(platform, t, polls);
    var u := Run(platform, t, polls);
    if p :| p in poll.frame && p.id == t.root.id && p.start != t.root.start {
      FindDistinct(poll.frame, p);
    }
  }

  /** Which root errors are reported and which root comes next, read off the frame: the executable of
      the root instance is refused under the fixed policy and followed under the other. */
  lemma RootErrorsExact(platform: Platform, t: State, poll: Poll)
    requires DistinctIds(poll.frame)
    ensures var (next, outcome) := Observe(platform, t, poll);
            && (outcome == Failed(RootExecutableChanged(t.root.id)) <==>
                  t.policy.Fixed? && exists p :: p in poll.frame && p.id == t.root.id && p.start == t.root.start
                                               && p.executable != t.root.executable)
            && (outcome == Failed(RootReused(t.root.id)) <==>
                  exists p :: p in poll.frame && p.id == t.root.id && p.start != t.root.start)
            && (outcome.Failed? ==> outcome.error == RootExecutableChanged(t.root.id)
                                    || outcome.error == RootReused(t.root.id)
                                    || (platform.Linux? && t.group.Some? && outcome.error.UnattributedMember?))
            && (forall p :: p in poll.frame && p.id == t.root.id && p.start == t.root.start
                            && (t.policy.FollowSameProcess? || p.executable == t.root.executable)
                            ==> next.root == t.root.(executable := p.executable))
            && (t.root.id !in Ids(poll.frame) ==> next.root == t.root)
            && (outcome.Failed? && !outcome.error.UnattributedMember? ==> next == t)
  {
    forall p | p in poll.frame && p.id == t.root.id ensures Find(poll.frame, t.root.id) == Some(p) {
      FindDistinct(poll.frame, p);
    }
  }

  // ----- provenance -------------------------------------------------------------------

  // Why a process is owned. `at` numbers the poll that showed the link.
  datatype Lineage =
    | Given(p: Snapshot)
    | RootChild(at: nat, p: Snapshot)
    | GroupMember(at: nat, p: Snapshot)
    | ChildOf(parent: Lineage, at: nat, p: Snapshot)

  /** The state right after poll `at` was matched against the frame, before any transfer. */
  ghost function Seen(platform: Platform, t: State, polls: seq<Poll>, at: nat): State
    requires at < |polls|
  {
    ObserveFrame(platform, Run(platform, t, polls[..at]), polls[at].frame).0
  }

  /** Each link appeared in the frame of its poll while the parent was the root PID, or an
      instance that was live in that frame and known at that moment. Group membership counts
      on macOS only. */
  ghost predicate ValidLineage(platform: Platform, t: State, polls: seq<Poll>, l: Lineage) {
    match l
    case Given(p) => p in t.known
    case RootChild(at, p) => at < |polls| && p in polls[at].frame && p.parent == t.root.id
    case GroupMember(at, p) =>
      && platform.MacOs? && at < |polls| && p in polls[at].frame
      && t.group.Some? && InGroup(p, t.group.value, t.groupStart)
    case ChildOf(parent, at, p) =>
      && ValidLineage(platform, t, polls, parent)
      && at < |polls| && p in polls[at].frame && p.parent == parent.p.id
      && HasInstance(polls[at].frame, parent.p)
      && HasInstance(Seen(platform, t, polls, at).known, parent.p)
  }

  ghost predicate Owned(platform: Platform, t: State, polls: seq<Poll>, p: Snapshot) {
    exists l :: ValidLineage(platform, t, polls, l) && SameInstance(l.p, p)
  }

  lemma {:induction false} LineageMonotone(platform: Platform, t: State, polls: seq<Poll>, poll: Poll, l: Lineage)
    requires ValidLineage(platform, t, polls, l)
    ensures ValidLineage(platform, t, polls + [poll], l)
  {
    if l.ChildOf? {
      LineageMonotone(platform, t, polls, poll, l.parent);
      assert (polls + [poll])[..l.at] == polls[..l.at];
    }
  }

  lemma OwnedMonotone(platform: Platform, t: State, polls: seq<Poll>, poll: Poll, p: Snapshot)
    requires Owned(platform, t, polls, p)
    ensures Owned(platform, t, polls + [poll], p)
  {
    var l :| ValidLineage(platform, t, polls, l) && SameInstance(l.p, p);
    LineageMonotone(platform, t, polls, poll, l);
  }

  lemma OwnedInstance(platform: Platform, t: State, polls: seq<Poll>, k: Snapshot, p: Snapshot)
    requires Owned(platform, t, polls, k) && SameInstance(k, p)
    ensures Owned(platform, t, polls, p)
  {
    var l :| ValidLineage(platform, t, polls, l) && SameInstance(l.p, k);
    assert SameInstance(l.p, p);
  }

  lemma GivenOwned(platform: Platform, t: State, polls: seq<Poll>, p: Snapshot)
    requires HasInstance(t.known, p)
    ensures Owned(platform, t, polls, p)
  {
    var k :| k in t.known && SameInstance(k, p);
    assert ValidLineage(platform, t, polls, Given(k));
    assert SameInstance(Given(k).p, p);
  }

  ghost predicate KnownOwned(platform: Platform, t: State, polls: seq<Poll>) {
    forall k :: k in Run(platform, t, polls).known ==> Owned(platform, t, polls, k)
  }

  // `u` is the state the new poll meets.
  ghost predicate Meets(platform: Platform, t: State, polls: seq<Poll>, u: State, poll: Poll) {
    && u == Run(platform, t, polls) && KnownOwned(platform, t, polls)
    && HasInstance(t.known, t.root) && SameInstance(u.root, t.root)
    && u.group == t.group && u.groupStart == t.groupStart
    && DistinctIds(poll.frame)
    && RootCheck(u, Find(poll.frame, u.root.id)).None?
  }

  lemma CarriedOwned(platform: Platform, t: State, polls: seq<Poll>, u: State, poll: Poll, p: Snapshot)
    requires Meets(platform, t, polls, u, poll) && Carried(u, poll.frame, p)
    ensures Owned(platform, t, polls + [poll], p)
  {
    if p.id == u.root.id && Find(poll.frame, p.id).Some? {
      FindDistinct(poll.frame, p);
      var g :| g in t.known && SameInstance(g, t.root);
      assert SameInstance(g, p);
      GivenOwned(platform, t, polls + [poll], p);
    } else {
      var k := if p in u.known then p else var k :| k in u.known && SameInstance(k, p); k;
      OwnedMonotone(platform, t, polls, poll, k);
      OwnedInstance(platform, t, polls + [poll], k, p);
    }
  }

  lemma ChildOwned(platform: Platform, t: State, polls: seq<Poll>, u: State, poll: Poll, q: Snapshot, p: Snapshot)
    requires Meets(platform, t, polls, u, poll)
    requires p in poll.frame && q in poll.frame && p.parent == q.id
    requires q in ObserveFrame(platform, u, poll.frame).0.known
    requires Owned(platform, t, polls + [poll], q)
    ensures Owned(platform, t, polls + [poll], p)
  {
    var all := polls + [poll];
    assert all[..|polls|] == polls && all[|polls|] == poll;
    assert Seen(platform, t, all, |polls|) == ObserveFrame(platform, u, poll.frame).0;
    var l :| ValidLineage(platform, t, all, l) && SameInstance(l.p, q);
    assert SameInstance(q, l.p);
    var child := ChildOf(l, |polls|, p);
    assert ValidLineage(platform, t, all, child) && SameInstance(child.p, p);
  }

  // One descendant, given that its parent is carried or was found before it.
  lemma DescendantOwned(platform: Platform, t: State, polls: seq<Poll>, u: State, poll: Poll, earlier: seq<Snapshot>,
                        p: Snapshot)
    requires Meets(platform, t, polls, u, poll) && ObserveFrame(platform, u, poll.frame).1.Observed?
    requires p in poll.frame && p.parent in Ids(Refreshed(u, poll.frame).known) + Ids(earlier)
    requires forall q :: q in earlier ==> q in Descend(Ids(Refreshed(u, poll.frame).known), poll.frame)
    requires forall q :: q in earlier ==> Owned(platform, t, polls + [poll], q)
    ensures Owned(platform, t, polls + [poll], p)
  {
    if p.parent == t.root.id {
      assert (polls + [poll])[|polls|] == poll;
      assert ValidLineage(platform, t, polls + [poll], RootChild(|polls|, p));
      assert SameInstance(RootChild(|polls|, p).p, p);
      return;
    }
    var r := Refreshed(u, poll.frame).known;
    var q: Snapshot;
    if p.parent in Ids(earlier) {
      q :| q in earlier && q.id == p.parent;
      DescendAttributed(Ids(r), poll.frame);
      DescendExact(Ids(r), poll.frame, q);
    } else {
      q :| q in r && q.id == p.parent;
      CarriedExact(u, poll.frame, q);
      CarriedOwned(platform, t, polls, u, poll, q);
    }
    KnownExact(platform, u, poll.frame);
    ChildOwned(platform, t, polls, u, poll, q, p);
  }

  lemma {:induction false} DescendantsOwned(platform: Platform, t: State, polls: seq<Poll>, u: State, poll: Poll,
                                            found: seq<Snapshot>)
    requires Meets(platform, t, polls, u, poll) && ObserveFrame(platform, u, poll.frame).1.Observed?
    requires Attributed(Ids(Refreshed(u, poll.frame).known), found)
    requires forall q :: q in found ==> q in Descend(Ids(Refreshed(u, poll.frame).known), poll.frame)
    ensures forall q :: q in found ==> Owned(platform, t, polls + [poll], q)
    decreases |found|
  {
    if found != [] {
      var init, p := Split(Ids(Refreshed(u, poll.frame).known), found);
      DescendantsOwned(platform, t, polls, u, poll, init);
      DescendAttributed(Ids(Refreshed(u, poll.frame).known), poll.frame);
      DescendantOwned(platform, t, polls, u, poll, init, p);
    }
  }

  lemma Split(owned: set<nat>, found: seq<Snapshot>) returns (init: seq<Snapshot>, p: Snapshot)
    requires Attributed(owned, found) && found != []
    ensures Attributed(owned, init) && |init| == |found| - 1
    ensures p in found && p.parent in owned + Ids(init)
    ensures forall q :: q in found <==> q in init || q == p
  {
    var last := |found| - 1;
    init, p := found[..last], found[last];
    assert found == init + [p];
    assert forall i :: 0 <= i < |init| ==> init[..i] == found[..i];
  }

  lemma CarriedExact(t: State, frame: Frame, p: Snapshot)
    requires DistinctIds(frame)
    ensures p in Refreshed(t, frame).known <==> Carried(t, frame, p)
  {
    RefreshExact(t, t.known, frame, p);
    assert t.(known := t.known) == t;
  }

  lemma SeenOwned(platform: Platform, t: State, polls: seq<Poll>, poll: Poll, p: Snapshot)
    requires DistinctIds(poll.frame) && HasInstance(t.known, t.root) && KnownOwned(platform, t, polls)
    requires p in ObserveFrame(platform, Run(platform, t, polls), poll.frame).0.known
    ensures Owned(platform, t, polls + [poll], p)
  {
    var u := Run(platform, t, polls);
    RootFixedOverRun(platform, t, polls);
    if RootCheck(u, Find(poll.frame, u.root.id)).Some? {
      OwnedMonotone(platform, t, polls, poll, p);
    } else {
      CarriedExact(u, poll.frame, p);
      if Carried(u, poll.frame, p) {
        CarriedOwned(platform, t, polls, u, poll, p);
      } else {
        FoundOwned(platform, t, polls, u, poll, p);
      }
    }
  }

  lemma FoundOwned(platform: Platform, t: State, polls: seq<Poll>, u: State, poll: Poll, p: Snapshot)
    requires Meets(platform, t, polls, u, poll) && ObserveFrame(platform, u, poll.frame).1.Observed?
    requires p in ObserveFrame(platform, u, poll.frame).0.known && !Carried(u, poll.frame, p)
    ensures Owned(platform, t, polls + [poll], p)
  {
    var r := Refreshed(u, poll.frame);
    var below := Descend(Ids(r.known), poll.frame);
    KnownExact(platform, u, poll.frame);
    DescendAttributed(Ids(r.known), poll.frame);
    DescendantsOwned(platform, t, polls, u, poll, below);
    DescendExact(Ids(r.known), poll.frame, p);
    if p !in below {
      if platform.MacOs? {
        assert (polls + [poll])[|polls|] == poll;
        assert ValidLineage(platform, t, polls + [poll], GroupMember(|polls|, p));
        assert SameInstance(GroupMember(|polls|, p).p, p);
      } else {
        Prefilter.GroupMembersSound(r, poll.frame);
        assert Traceable(p, r.known, below);
        var k :| (k in r.known || k in below) && SameInstance(k, p);
        if k in r.known {
          CarriedExact(u, poll.frame, k);
          CarriedOwned(platform, t, polls, u, poll, k);
        }
        OwnedInstance(platform, t, polls + [poll], k, p);
      }
    }
  }

  lemma {:induction false} WithoutExact(processes: seq<Snapshot>, ids: set<nat>, p: Snapshot)
    ensures p in Without(processes, ids) <==> p in processes && p.id !in ids
  {
    if processes != [] {
      WithoutExact(processes[1..], ids, p);
    }
  }

  /** A constructed tree knows its own root, so the provenance theorems apply to every tree. */
  lemma OpenedKnowsRoot(root: Snapshot, group: Option<nat>, groupStart: Option<nat>, owned: seq<Snapshot>)
    ensures var t := Opened(root, group, groupStart, owned);
            && t.root == root && t.group == group && t.policy.Fixed?
            && t.groupStart == (if groupStart.Some? then groupStart.value else root.start)
            && HasInstance(t.known, t.root) && owned <= t.known
            && forall p :: p in t.known ==> p in owned || p == root
  {
    var t := Opened(root, group, groupStart, owned);
    if exists p :: p in owned && SameInstance(p, root) {
      var p :| p in owned && SameInstance(p, root);
      assert p in t.known;
    } else {
      assert root in t.known && SameInstance(root, root);
    }
  }

  /** Over every run, everything known has a lineage. */
  lemma {:induction false} KnownAlwaysOwned(platform: Platform, t: State, polls: seq<Poll>)
    requires DistinctPolls(polls) && HasInstance(t.known, t.root)
    ensures KnownOwned(platform, t, polls)
    decreases |polls|
  {
    if polls == [] {
      forall k | k in t.known ensures Owned(platform, t, polls, k) {
        assert ValidLineage(platform, t, polls, Given(k));
      }
    } else {
      var init, poll := polls[..|polls| - 1], polls[|polls| - 1];
      assert polls == init + [poll];
      KnownAlwaysOwned(platform, t, init);
      var u := Run(platform, t, init);
      forall k | k in Run(platform, t, polls).known ensures Owned(platform, t, polls, k) {
        KnownAfter(platform, u, poll, k);
        SeenOwned(platform, t, init, poll, k);
      }
    }
  }

  lemma KnownAfter(platform: Platform, u: State, poll: Poll, k: Snapshot)
    requires k in Observe(platform, u, poll).0.known
    ensures k in ObserveFrame(platform, u, poll.frame).0.known
  {
    var (seen, outcome) := ObserveFrame(platform, u, poll.frame);
    if outcome.Observed? {
      WithoutExact(seen.known, TransferredBy(seen.root, outcome.processes, poll.directory), k);
    }
  }

  /** Every process `observe` returns, in any run, is live in the current frame and joined to a
      process handed to the constructor by observed links. */
  lemma ObservedIsOwned(platform: Platform, t: State, polls: seq<Poll>, poll: Poll, p: Snapshot)
    requires DistinctPolls(polls) && DistinctIds(poll.frame) && HasInstance(t.known, t.root)
    requires Observe(platform, Run(platform, t, polls), poll).1.Observed?
    requires p in Observe(platform, Run(platform, t, polls), poll).1.processes
    ensures p in poll.frame && Owned(platform, t, polls + [poll], p)
  {
    var u := Run(platform, t, polls);
    var (seen, outcome) := ObserveFrame(platform, u, poll.frame);
    WithoutExact(outcome.processes, TransferredBy(seen.root, outcome.processes, poll.directory), p);
    KnownExact(platform, u, poll.frame);
    KnownAlwaysOwned(platform, t, polls);
    SeenOwned(platform, t, polls, poll, p);
  }

  // ----- PID reuse below the root -----------------------------------------------------

  /** Known PIDs stay distinct over every run, so a PID names one owned process. */
  lemma {:induction false} KnownDistinctOverRun(platform: Platform, t: State, polls: seq<Poll>)
    requires DistinctIds(t.known) && DistinctPolls(polls)
    ensures DistinctIds(Run(platform, t, polls).known)
    decreases |polls|
  {
    if polls != [] {
      var init, poll := polls[..|polls| - 1], polls[|polls| - 1];
      KnownDistinctOverRun(platform, t, init);
      var u := Run(platform, t, init);
      RefreshDistinct(u.root.id, Find(poll.frame, u.root.id), u.known, poll.frame);
      var r := Refreshed(u, poll.frame);
      AdoptDistinct(r.known, Candidates(r, poll.frame));
      var (seen, outcome) := ObserveFrame(platform, u, poll.frame);
      if outcome.Observed? {
        WithoutDistinct(seen.known, TransferredBy(seen.root, outcome.processes, poll.directory));
      }
    }
  }

  lemma {:induction false} RefreshDistinct(rootId: nat, current: Option<Snapshot>, known: seq<Snapshot>, frame: Frame)
    requires DistinctIds(known) && (current.Some? ==> current.value.id == rootId)
    ensures DistinctIds(Refresh(rootId, current, known, frame))
  {
    if known != [] {
      RefreshDistinct(rootId, current, known[1..], frame);
      var rest := Refresh(rootId, current, known[1..], frame);
      Prefilter.RefreshIds(rootId, current, known[1..], frame);
      assert forall q :: q in rest ==> q.id in Ids(rest);
      assert known[0].id !in Ids(known[1..]);
    }
  }

  lemma {:induction false} AdoptDistinct(known: seq<Snapshot>, observed: seq<Snapshot>)
    requires DistinctIds(known)
    ensures DistinctIds(Adopt(known, observed))
    decreases |observed|
  {
    if observed != [] {
      if observed[0].id in Ids(known) {
        AdoptDistinct(known, observed[1..]);
      } else {
        assert forall i :: 0 <= i < |known| ==> known[i].id in Ids(known);
        AdoptDistinct(known + [observed[0]], observed[1..]);
      }
    }
  }

  lemma {:induction false} WithoutDistinct(processes: seq<Snapshot>, ids: set<nat>)
    requires DistinctIds(processes)
    ensures DistinctIds(Without(processes, ids))
  {
    if processes != [] {
      WithoutDistinct(processes[1..], ids);
      forall q | q in Without(processes[1..], ids) ensures q.id != processes[0].id {
        WithoutExact(processes[1..], ids, q);
      }
    }
  }

  /** When a known PID no longer shows the known instance, the PID stays known exactly if this
      very frame attributes its new holder: below a carried PID, or in the group. */
  lemma ReusedPidNeedsNewAttribution(platform: Platform, t: State, frame: Frame, retired: Snapshot)
    requires DistinctIds(frame) && DistinctIds(t.known) && ObserveFrame(platform, t, frame).1.Observed?
    requires retired in t.known && retired.id != t.root.id && !HasInstance(frame, retired)
    ensures var t' := ObserveFrame(platform, t, frame).0;
            retired.id in Ids(t'.known) <==>
              exists p :: p in frame && p.id == retired.id &&
                (p in Descend(Ids(Refreshed(t, frame).known), frame)
                 || (t.group.Some? && InGroup(p, t.group.value, t.groupStart)))
  {
    var t' := ObserveFrame(platform, t, frame).0;
    var carried := Ids(Refreshed(t, frame).known);
    KnownExact(platform, t, frame);
    forall p | p in frame && p.id == retired.id ensures !Carried(t, frame, p) {
      if HasInstance(t.known, p) {
        var k :| k in t.known && SameInstance(k, p);
        DistinctMembers(t.known, k, retired);
      }
    }
    forall p | p in frame
      ensures p in Descend(carried, frame) <==> p.id in Closure(carried, frame) && p.id !in carried
    {
      DescendExact(carried, frame, p);
    }
    if exists p :: p in frame && p.id == retired.id && (p in Descend(carried, frame)
                 || (t.group.Some? && InGroup(p, t.group.value, t.groupStart))) {
      var p :| p in frame && p.id == retired.id && (p in Descend(carried, frame)
                 || (t.group.Some? && InGroup(p, t.group.value, t.groupStart)));
      assert p in t'.known;
    }
  }
}
