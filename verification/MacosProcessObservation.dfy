/** The prefilter that resolves executable paths only for possible tree members, and the
    proof that no observation can tell it from a full scan. */
module MacosProcessObservation {
  import opened Wrappers
  import opened Processes
  import opened IndependentService
  import opened ObservedTree

  datatype Identity = Identity(id: nat, parent: nat, group: nat, start: nat)

  // Paths that can be read; a PID missing from the map is unreadable.
  type Paths = map<nat, Path>

  function Bare(identities: seq<Identity>): Frame {
    seq(|identities|, i requires 0 <= i < |identities| =>
      Snapshot(identities[i].id, identities[i].parent, identities[i].group, "", identities[i].start))
  }

  /** The complete snapshots of the readable identities selected by `wanted`. */
  function Resolve(identities: seq<Identity>, paths: Paths, wanted: set<nat>): Frame {
    if identities == [] then []
    else
      var p := identities[0];
      var rest := Resolve(identities[1..], paths, wanted);
      if p.id in wanted && p.id in paths then
        [Snapshot(p.id, p.parent, p.group, paths[p.id], p.start)] + rest
      else rest
  }

  /** Every readable process: what an unfiltered scan yields. */
  function FullScan(identities: seq<Identity>, paths: Paths): Frame {
    Resolve(identities, paths, Ids(Bare(identities)))
  }

  // The PIDs the search starts from.
  ghost function Seeds(identities: seq<Identity>, rootId: nat, known: seq<Snapshot>, group: Option<(nat,
                       nat)>): set<nat> {
    Ids(known) + {rootId} +
    set p | p in identities && group.Some? && p.group == group.value.0 && p.start >= group.value.1 :: p.id
  }

  ghost function CandidateIds(identities: seq<Identity>, rootId: nat, known: seq<Snapshot>, group: Option<(nat,
                              nat)>): set<nat> {
    Closure(Seeds(identities, rootId, known, group), Bare(identities))
  }

  /** The candidates are the least set with the known PIDs, the root PID and the members of the watched
      group that holds every child of its members. */
  lemma CandidatesLeast(identities: seq<Identity>, rootId: nat, known: seq<Snapshot>, group: Option<(nat, nat)>)
    ensures var c := CandidateIds(identities, rootId, known, group);
            && rootId in c && (forall k :: k in known ==> k.id in c)
            && (forall p :: p in identities && group.Some? && p.group == group.value.0 && p.start >= group.value.1
                            ==> p.id in c)
            && (forall p :: p in identities && p.parent in c ==> p.id in c)
    ensures forall s: set<nat> ::
              && rootId in s && (forall k :: k in known ==> k.id in s)
              && (forall p :: p in identities && group.Some? && p.group == group.value.0 && p.start >= group.value.1
                              ==> p.id in s)
              && (forall p :: p in identities && p.parent in s ==> p.id in s)
              ==> CandidateIds(identities, rootId, known, group) <= s
  {
    var seeds, table := Seeds(identities, rootId, known, group), Bare(identities);
    ClosureIsLeast(seeds, table);
    forall p | p in identities && p.parent in Closure(seeds, table) ensures p.id in Closure(seeds, table) {
      BareMember(identities, p);
    }
    forall s: set<nat> |
        && rootId in s && (forall k :: k in known ==> k.id in s)
        && (forall p :: p in identities && group.Some? && p.group == group.value.0 && p.start >= group.value.1
                        ==> p.id in s)
        && (forall p :: p in identities && p.parent in s ==> p.id in s)
      ensures Closure(seeds, table) <= s
    {
      assert seeds <= s;
      assert ChildClosed(s, table);
    }
  }

  /** What path resolution keeps of each process, field by field. */
  lemma {:induction false} ResolveExact(identities: seq<Identity>, paths: Paths, wanted: set<nat>, s: Snapshot)
    ensures s in Resolve(identities, paths, wanted) <==>
              && Identity(s.id, s.parent, s.group, s.start) in identities
              && s.id in wanted && s.id in paths && s.executable == paths[s.id]
    decreases |identities|
  {
    if identities != [] {
      ResolveExact(identities[1..], paths, wanted, s);
      assert identities == [identities[0]] + identities[1..];
    }
  }

  /** It keeps the order of the table: one more identity adds its snapshot at the end, or nothing. */
  lemma {:induction false} ResolveInOrder(identities: seq<Identity>, paths: Paths, wanted: set<nat>, p: Identity)
    ensures Resolve(identities + [p], paths, wanted) ==
            Resolve(identities, paths, wanted) +
            if p.id in wanted && p.id in paths then [Snapshot(p.id, p.parent, p.group, paths[p.id], p.start)] else []
    decreases |identities|
  {
    if identities == [] {
      assert identities + [p] == [p] && [p][1..] == [];
    } else {
      assert (identities + [p])[0] == identities[0] && (identities + [p])[1..] == identities[1..] + [p];
      ResolveInOrder(identities[1..], paths, wanted, p);
    }
  }

  /** A full scan yields exactly the readable processes, each with its own path. */
  lemma FullScanExact(identities: seq<Identity>, paths: Paths, s: Snapshot)
    ensures s in FullScan(identities, paths) <==>
              && Identity(s.id, s.parent, s.group, s.start) in identities
              && s.id in paths && s.executable == paths[s.id]
  {
    ResolveExact(identities, paths, Ids(Bare(identities)), s);
    if Identity(s.id, s.parent, s.group, s.start) in identities {
      BareMember(identities, Identity(s.id, s.parent, s.group, s.start));
    }
  }

  /** The search for candidates followed by path resolution. */
  method ResolveTreeCandidates(identities: seq<Identity>, rootId: nat, known: seq<Snapshot>,
                               group: Option<(nat, nat)>, paths: Paths)
    returns (snapshots: Frame)
    ensures snapshots == Resolve(identities, paths, CandidateIds(identities, rootId, known, group))
  {
    var candidates := (set p | p in known :: p.id) + {rootId};
    if group.Some? {
      candidates := candidates +
        set p | p in identities && p.group == group.value.0 && p.start >= group.value.1 :: p.id;
    }
    ghost var seeds := Seeds(identities, rootId, known, group);
    ghost var table := Bare(identities);
    ghost var all := Closure(seeds, table);
    ClosureIsLeast(seeds, table);
    assert candidates == seeds;
    var changed := true;
    while changed
      invariant seeds <= candidates <= all
      invariant !changed ==> ChildClosed(candidates, table)
      decreases all - candidates, changed
    {
      candidates, changed := GrowCandidates(identities, candidates, all);
    }
    assert candidates == all;
    snapshots := Resolve(identities, paths, candidates);
  }

  method GrowCandidates(identities: seq<Identity>, candidates: set<nat>, ghost all: set<nat>)
    returns (grown: set<nat>, changed: bool)
    requires candidates <= all && ChildClosed(all, Bare(identities))
    ensures candidates <= grown <= all
    ensures changed <==> grown != candidates
    ensures !changed ==> ChildClosed(grown, Bare(identities))
  {
    grown, changed := candidates, false;
    for i := 0 to |identities|
      invariant candidates <= grown <= all
      invariant changed <==> grown != candidates
      invariant forall j :: !changed && 0 <= j < i && identities[j].parent in candidates ==>
                  identities[j].id in candidates
    {
      var p := identities[i];
      if p.parent in grown {
        BareMember(identities, p);
        changed := changed || p.id !in grown;
        grown := grown + {p.id};
      }
    }
  }

  // ----- the filter is invisible ------------------------------------------------------

  function Within(frame: Frame, c: set<nat>): Frame {
    if frame == [] then []
    else if frame[0].id in c then [frame[0]] + Within(frame[1..], c)
    else Within(frame[1..], c)
  }

  lemma {:induction false} FindWithin(frame: Frame, c: set<nat>, id: nat)
    requires id in c
    ensures Find(Within(frame, c), id) == Find(frame, id)
  {
    if frame != [] {
      FindWithin(frame[1..], c, id);
    }
  }

  lemma {:induction false} FindInstanceWithin(frame: Frame, c: set<nat>, expected: Snapshot)
    requires expected.id in c
    ensures FindInstance(Within(frame, c), expected) == FindInstance(frame, expected)
  {
    if frame != [] {
      FindInstanceWithin(frame[1..], c, expected);
    }
  }

  lemma {:induction false} RefreshWithin(rootId: nat, current: Option<Snapshot>, known: seq<Snapshot>, frame: Frame,
                                         c: set<nat>)
    requires Ids(known) <= c
    ensures Refresh(rootId, current, known, Within(frame, c)) == Refresh(rootId, current, known, frame)
  {
    if known != [] {
      assert known[0].id in Ids(known) && Ids(known[1..]) <= Ids(known);
      FindInstanceWithin(frame, c, known[0]);
      RefreshWithin(rootId, current, known[1..], frame, c);
    }
  }

  lemma {:induction false} LiveWithin(known: seq<Snapshot>, frame: Frame, c: set<nat>)
    requires Ids(known) <= c
    ensures Live(known, Within(frame, c)) == Live(known, frame)
  {
    if known != [] {
      assert known[0].id in Ids(known) && Ids(known[1..]) <= Ids(known);
      FindInstanceWithin(frame, c, known[0]);
      LiveWithin(known[1..], frame, c);
    }
  }

  lemma {:induction false} GroupMembersWithin(t: State, frame: Frame, c: set<nat>)
    requires Ids(GroupMembers(t, frame)) <= c
    ensures GroupMembers(t, Within(frame, c)) == GroupMembers(t, frame)
    decreases |frame|
  {
    if frame != [] && t.group.Some? {
      if InGroup(frame[0], t.group.value, t.groupStart) {
        assert GroupMembers(t, frame)[0] == frame[0];
        assert frame[0].id in Ids(GroupMembers(t, frame));
        assert Ids(GroupMembers(t, frame[1..])) <= Ids(GroupMembers(t, frame));
      }
      GroupMembersWithin(t, frame[1..], c);
    }
  }

  lemma {:induction false} SweepWithin(owned: set<nat>, frame: Frame, c: set<nat>)
    requires owned <= c && ChildClosed(c, frame)
    ensures Sweep(owned, Within(frame, c)) == Sweep(owned, frame)
    ensures Ids(Sweep(owned, frame)) <= c
    decreases |frame|
  {
    if frame != [] {
      assert ChildClosed(c, frame[1..]);
      if frame[0].id !in owned && frame[0].parent in owned {
        SweepWithin(owned + {frame[0].id}, frame[1..], c);
      } else {
        SweepWithin(owned, frame[1..], c);
      }
    }
  }

  lemma {:induction false} DescendWithin(owned: set<nat>, frame: Frame, c: set<nat>)
    requires owned <= c && ChildClosed(c, frame)
    ensures Descend(owned, Within(frame, c)) == Descend(owned, frame)
    ensures Ids(Descend(owned, frame)) <= c
    decreases Ids(frame) - owned
  {
    SweepWithin(owned, frame, c);
    var found := Sweep(owned, frame);
    if found != [] {
      assert found[0].id in Ids(frame) - owned && found[0].id in Ids(found);
      DescendWithin(owned + Ids(found), frame, c);
      IdsConcat(found, Descend(owned + Ids(found), frame));
    }
  }

  lemma {:induction false} RefreshIds(rootId: nat, current: Option<Snapshot>, known: seq<Snapshot>, frame: Frame)
    requires current.Some? ==> current.value.id == rootId
    ensures Ids(Refresh(rootId, current, known, frame)) <= Ids(known)
  {
    if known != [] {
      RefreshIds(rootId, current, known[1..], frame);
      assert Ids(known) == {known[0].id} + Ids(known[1..]);
    }
  }

  lemma {:induction false} AdoptIds(known: seq<Snapshot>, observed: seq<Snapshot>)
    ensures Ids(Adopt(known, observed)) == Ids(known) + Ids(observed)
    decreases |observed|
  {
    if observed != [] {
      assert Ids(observed) == {observed[0].id} + Ids(observed[1..]);
      if observed[0].id in Ids(known) {
        AdoptIds(known, observed[1..]);
      } else {
        IdsConcat(known, [observed[0]]);
        AdoptIds(known + [observed[0]], observed[1..]);
      }
    }
  }

  /** Any child-closed selection that keeps the known PIDs, the root PID and the group members
      leaves the observation untouched: same outcome, same error, same state. */
  lemma SelectionInvisible(platform: Platform, t: State, frame: Frame, c: set<nat>)
    requires Ids(t.known) <= c && t.root.id in c && Ids(GroupMembers(t, frame)) <= c
    requires ChildClosed(c, frame)
    ensures ObserveFrame(platform, t, Within(frame, c)) == ObserveFrame(platform, t, frame)
  {
    FindWithin(frame, c, t.root.id);
    var current := Find(frame, t.root.id);
    RefreshWithin(t.root.id, current, t.known, frame, c);
    RefreshIds(t.root.id, current, t.known, frame);
    var r := Refreshed(t, frame);
    assert Refreshed(t, Within(frame, c)) == r;
    SameGroup(r, t, frame);
    GroupMembersWithin(r, frame, c);
    DescendWithin(Ids(r.known), frame, c);
    AdoptIds(r.known, Candidates(r, frame));
    IdsConcat(GroupMembers(r, frame), Descend(Ids(r.known), frame));
    LiveWithin(Adopt(r.known, Candidates(r, frame)), frame, c);
  }

  lemma {:induction false} SameGroup(t: State, u: State, frame: Frame)
    requires t.group == u.group && t.groupStart == u.groupStart
    ensures GroupMembers(t, frame) == GroupMembers(u, frame)
    decreases |frame|
  {
    if frame != [] && t.group.Some? {
      SameGroup(t, u, frame[1..]);
    }
  }

  lemma {:induction false} ResolveIsWithin(identities: seq<Identity>, paths: Paths, all: set<nat>, c: set<nat>)
    requires forall p :: p in identities ==> p.id in all
    ensures Resolve(identities, paths, c) == Within(Resolve(identities, paths, all), c)
  {
    if identities != [] {
      assert forall p :: p in identities[1..] ==> p in identities;
      ResolveIsWithin(identities[1..], paths, all, c);
    }
  }

  lemma {:induction false} ResolveOrigin(identities: seq<Identity>, paths: Paths, c: set<nat>)
    ensures forall s :: s in Resolve(identities, paths, c) ==>
            exists p :: p in identities && p.id == s.id && p.parent == s.parent && p.group == s.group
                        && p.start == s.start
  {
    if identities != [] {
      ResolveOrigin(identities[1..], paths, c);
    }
  }

  lemma BareMember(identities: seq<Identity>, p: Identity)
    requires p in identities
    ensures Snapshot(p.id, p.parent, p.group, "", p.start) in Bare(identities)
  {
    var i :| 0 <= i < |identities| && identities[i] == p;
    assert Bare(identities)[i] in Bare(identities);
  }

  function GroupOf(t: State): Option<(nat, nat)> {
    if t.group.Some? then Some((t.group.value, t.groupStart)) else None
  }

  /** The table the prefilter hands to the observer. */
  ghost function FastScan(t: State, identities: seq<Identity>, paths: Paths): Frame {
    Resolve(identities, paths, CandidateIds(identities, t.root.id, t.known, GroupOf(t)))
  }

  /** For every table, every set of unreadable paths and every tree state, observing the
      prefiltered table equals observing the full readable table. */
  lemma PrefilterInvisible(platform: Platform, t: State, identities: seq<Identity>, paths: Paths)
    ensures ObserveFrame(platform, t, FastScan(t, identities, paths)) ==
            ObserveFrame(platform, t, FullScan(identities, paths))
  {
    var table := Bare(identities);
    var full := FullScan(identities, paths);
    var seeds := Seeds(identities, t.root.id, t.known, GroupOf(t));
    var c := CandidateIds(identities, t.root.id, t.known, GroupOf(t));
    ClosureIsLeast(seeds, table);
    forall p | p in identities ensures p.id in Ids(table) {
      BareMember(identities, p);
    }
    ResolveIsWithin(identities, paths, Ids(table), c);
    ResolveOrigin(identities, paths, Ids(table));
    forall s | s in full && s.parent in c ensures s.id in c {
      var p :| p in identities && p.id == s.id && p.parent == s.parent && p.group == s.group && p.start == s.start;
      BareMember(identities, p);
    }
    GroupMembersSound(t, full);
    forall id | id in Ids(GroupMembers(t, full)) ensures id in c {
      var s :| s in GroupMembers(t, full) && s.id == id;
      var p :| p in identities && p.id == s.id && p.parent == s.parent && p.group == s.group && p.start == s.start;
      assert p.id in seeds;
    }
    SelectionInvisible(platform, t, full, c);
  }

  lemma {:induction false} GroupMembersSound(t: State, frame: Frame)
    ensures forall p :: p in GroupMembers(t, frame) <==>
            p in frame && t.group.Some? && InGroup(p, t.group.value, t.groupStart)
    decreases |frame|
  {
    if frame != [] {
      GroupMembersSound(t, frame[1..]);
    }
  }

  // One system state as the prefiltered observer meets it.
  datatype Scan = Scan(identities: seq<Identity>, paths: Paths, directory: Option<seq<Entry>>)

  ghost function ObserveFast(platform: Platform, t: State, scan: Scan): (State, Outcome) {
    Observe(platform, t, Poll(FastScan(t, scan.identities, scan.paths), scan.directory))
  }

  ghost function ObserveFull(platform: Platform, t: State, scan: Scan): (State, Outcome) {
    Observe(platform, t, Poll(FullScan(scan.identities, scan.paths), scan.directory))
  }

  /** The outcomes of a whole run and the state it ends in. */
  ghost function Outcomes(platform: Platform, t: State, scans: seq<Scan>, fast: bool): (State, seq<Outcome>)
    decreases |scans|
  {
    if scans == [] then (t, [])
    else
      var (t', outcome) := if fast then ObserveFast(platform, t, scans[0]) else ObserveFull(platform, t, scans[0]);
      var (end, rest) := Outcomes(platform, t', scans[1..], fast);
      (end, [outcome] + rest)
  }

  /** Lock-step: over every run the two observers report the same outcomes and end alike. */
  lemma {:induction false} RunsAgree(platform: Platform, t: State, scans: seq<Scan>)
    ensures Outcomes(platform, t, scans, true) == Outcomes(platform, t, scans, false)
    decreases |scans|
  {
    if scans != [] {
      PrefilterInvisible(platform, t, scans[0].identities, scans[0].paths);
      RunsAgree(platform, ObserveFull(platform, t, scans[0]).0, scans[1..]);
    }
  }

  /** The prefiltered observer as the object runs it. */
  method ObserveMacos(tree: ObservedProcessTree, scan: Scan) returns (outcome: Outcome)
    requires tree.platform.MacOs?
    modifies tree
    ensures (tree.View(), outcome) == ObserveFull(MacOs, old(tree.View()), scan)
  {
    PrefilterInvisible(MacOs, tree.View(), scan.identities, scan.paths);
    var snapshots := ResolveTreeCandidates(scan.identities, tree.root.id, tree.known, GroupOf(tree.View()), scan.paths);
    outcome := tree.ObserveSystem(Poll(snapshots, scan.directory));
  }
}
