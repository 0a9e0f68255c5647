/** Which processes are the roots of a running Desktop. */
module DesktopRoots {
  import opened Processes

  function Running(target: Path, frame: Frame): seq<Snapshot> {
    if frame == [] then []
    else if frame[0].executable == target then [frame[0]] + Running(target, frame[1..])
    else Running(target, frame[1..])
  }

  function Orphans(processes: seq<Snapshot>, parents: set<nat>): seq<Snapshot> {
    if processes == [] then []
    else if processes[0].parent !in parents then [processes[0]] + Orphans(processes[1..], parents)
    else Orphans(processes[1..], parents)
  }

  function Insert(p: Snapshot, sorted: seq<Snapshot>): seq<Snapshot> {
    if sorted == [] || p.id <= sorted[0].id then [p] + sorted
    else [sorted[0]] + Insert(p, sorted[1..])
  }

  /** Stable sort by PID. */
  function SortById(processes: seq<Snapshot>): seq<Snapshot> {
    if processes == [] then [] else Insert(processes[0], SortById(processes[1..]))
  }

  function TreeRoots(target: Path, frame: Frame): seq<Snapshot> {
    Orphans(Running(target, frame), Ids(Running(target, frame)))
  }

  function DesktopProcessTree(target: Path, frame: Frame): seq<Snapshot> {
    var roots := TreeRoots(target, frame);
    SortById(roots + Descend(Ids(roots), frame))
  }

  function DesktopRootSnapshots(target: Path, frame: Frame): seq<Snapshot> {
    var tree := DesktopProcessTree(target, frame);
    Orphans(Running(target, tree), Ids(tree))
  }

  // ----- meaning ----------------------------------------------------------------------

  ghost predicate ProperAncestor(a: Snapshot, p: Snapshot, frame: Frame) {
    a in frame && p in frame && p.parent in Closure({a.id}, frame)
  }

  ghost function TargetAncestors(target: Path, p: Snapshot, frame: Frame): set<Snapshot> {
    set a | a in frame && a.executable == target && ProperAncestor(a, p, frame)
  }

  // Weaker than acyclic parents: a PID that is its own parent is fine unless it runs the target.
  ghost predicate NoTargetCycle(target: Path, frame: Frame) {
    forall p :: p in frame && p.executable == target ==> !ProperAncestor(p, p, frame)
  }

  lemma AncestorTransitive(a: Snapshot, b: Snapshot, p: Snapshot, frame: Frame)
    requires ProperAncestor(a, b, frame) && ProperAncestor(b, p, frame)
    ensures ProperAncestor(a, p, frame)
  {
    ClosureIsLeast({a.id}, frame);
    assert b.id in Closure({a.id}, frame);
    ClosureMonotone({b.id}, {a.id}, frame);
  }

  lemma {:induction false} RunningExact(target: Path, frame: Frame)
    ensures forall p :: p in Running(target, frame) <==> p in frame && p.executable == target
  {
    if frame != [] {
      RunningExact(target, frame[1..]);
    }
  }

  lemma {:induction false} OrphansExact(processes: seq<Snapshot>, parents: set<nat>)
    ensures forall p :: p in Orphans(processes, parents) <==> p in processes && p.parent !in parents
  {
    if processes != [] {
      OrphansExact(processes[1..], parents);
    }
  }

  ghost predicate SortedById(processes: seq<Snapshot>) {
    forall i, j :: 0 <= i < j < |processes| ==> processes[i].id <= processes[j].id
  }

  lemma {:induction false} InsertKeeps(p: Snapshot, sorted: seq<Snapshot>)
    ensures multiset(Insert(p, sorted)) == multiset(sorted) + multiset{p}
  {
    if sorted != [] && p.id > sorted[0].id {
      InsertKeeps(p, sorted[1..]);
      assert sorted == [sorted[0]] + sorted[1..];
    }
  }

  lemma {:induction false} InsertExact(p: Snapshot, sorted: seq<Snapshot>)
    requires SortedById(sorted)
    ensures SortedById(Insert(p, sorted))
    ensures forall q :: q in Insert(p, sorted) ==> q == p || q in sorted
  {
    if sorted != [] && p.id > sorted[0].id {
      InsertExact(p, sorted[1..]);
      assert forall q :: q in sorted[1..] ==> sorted[0].id <= q.id;
    }
  }

  /** The tree is reported in PID order and loses nothing in the sorting. */
  lemma {:induction false} SortExact(processes: seq<Snapshot>)
    ensures SortedById(SortById(processes)) && multiset(SortById(processes)) == multiset(processes)
  {
    if processes != [] {
      SortExact(processes[1..]);
      InsertExact(processes[0], SortById(processes[1..]));
      InsertKeeps(processes[0], SortById(processes[1..]));
      assert processes == [processes[0]] + processes[1..];
    }
  }

  ghost predicate Parentless(target: Path, p: Snapshot, frame: Frame) {
    forall q :: q in frame && q.executable == target ==> q.id != p.parent
  }

  lemma TreeExact(target: Path, frame: Frame)
    ensures var roots := TreeRoots(target, frame);
            && (forall p :: p in roots <==> p in frame && p.executable == target && Parentless(target, p, frame))
            && Ids(DesktopProcessTree(target, frame)) == Closure(Ids(roots), frame)
            && forall p :: p in DesktopProcessTree(target, frame) <==> p in roots || p in Descend(Ids(roots), frame)
  {
    var roots := TreeRoots(target, frame);
    RunningExact(target, frame);
    OrphansExact(Running(target, frame), Ids(Running(target, frame)));
    var all := roots + Descend(Ids(roots), frame);
    SortExact(all);
    assert forall p :: p in SortById(all) <==> p in multiset(SortById(all));
    assert forall p :: p in all <==> p in multiset(all);
    IdsConcat(roots, Descend(Ids(roots), frame));
    assert Ids(SortById(all)) == Ids(all);
  }

  /** A target process without target ancestors at or above `p`. */
  lemma {:induction false} TopAncestor(target: Path, p: Snapshot, frame: Frame) returns (top: Snapshot)
    requires p in frame && p.executable == target && NoTargetCycle(target, frame)
    ensures top in frame && top.executable == target && TargetAncestors(target, top, frame) == {}
    ensures top == p || ProperAncestor(top, p, frame)
    decreases TargetAncestors(target, p, frame)
  {
    if TargetAncestors(target, p, frame) == {} {
      return p;
    }
    var a :| a in TargetAncestors(target, p, frame);
    forall b | b in TargetAncestors(target, a, frame) ensures b in TargetAncestors(target, p, frame) {
      AncestorTransitive(b, a, p, frame);
    }
    assert a !in TargetAncestors(target, a, frame);
    top := TopAncestor(target, a, frame);
    if top != a {
      AncestorTransitive(top, a, p, frame);
    }
  }

  /** A process running the target whose parent does not. */
  ghost predicate TopLevel(target: Path, p: Snapshot, frame: Frame) {
    p in frame && p.executable == target && Parentless(target, p, frame)
  }

  /** In every frame, whatever its parent links: the roots are the top-level target processes with
      no top-level target process among their proper ancestors, in PID order. */
  lemma ReportedExact(target: Path, frame: Frame)
    ensures forall p :: p in DesktopRootSnapshots(target, frame) <==>
              TopLevel(target, p, frame) && forall q :: TopLevel(target, q, frame) ==> !ProperAncestor(q, p, frame)
    ensures SortedById(DesktopRootSnapshots(target, frame))
  {
    var tree := DesktopProcessTree(target, frame);
    var roots := TreeRoots(target, frame);
    TreeExact(target, frame);
    RunningExact(target, tree);
    OrphansExact(Running(target, tree), Ids(tree));
    forall p | p in tree && p.parent !in Ids(tree) ensures p in roots {
      InnerHasParent(roots, frame, p);
    }
    forall p | p in roots ensures p.parent in Ids(tree) <==> exists q :: q in roots && ProperAncestor(q, p, frame) {
      BelowRoots(roots, frame, p);
    }
    SortExact(roots + Descend(Ids(roots), frame));
    SelectionSorted(target, tree);
  }

  lemma InnerHasParent(roots: seq<Snapshot>, frame: Frame, p: Snapshot)
    ensures p in Descend(Ids(roots), frame) ==> p.parent in Closure(Ids(roots), frame)
  {
    var found := Descend(Ids(roots), frame);
    DescendAttributed(Ids(roots), frame);
    if p in found {
      var i :| 0 <= i < |found| && found[i] == p;
      assert Ids(found[..i]) <= Ids(found);
    }
  }

  lemma BelowRoots(roots: seq<Snapshot>, frame: Frame, p: Snapshot)
    requires p in frame && forall q :: q in roots ==> q in frame
    ensures p.parent in Closure(Ids(roots), frame) <==> exists q :: q in roots && ProperAncestor(q, p, frame)
  {
    if p.parent in Closure(Ids(roots), frame) {
      var q := RootAbove(roots, frame, p.parent);
      assert ProperAncestor(q, p, frame);
    } else if q :| q in roots && ProperAncestor(q, p, frame) {
      ClosureClosed(Ids(roots), frame);
      assert q.id in Ids(roots);
      ClosureMonotone({q.id}, Ids(roots), frame);
      assert false;
    }
  }

  lemma RootAbove(roots: seq<Snapshot>, frame: Frame, id: nat) returns (q: Snapshot)
    requires id in Closure(Ids(roots), frame)
    ensures q in roots && id in Closure({q.id}, frame)
  {
    ClosureOfOne(Ids(roots), frame);
    assert BelowSome(Ids(roots), frame, id);
    var r :| r in Ids(roots) && id in Closure({r}, frame);
    q :| q in roots && q.id == r;
  }

  /** Every top-level target process with a target ancestor has a top-level one. */
  ghost predicate AncestorsReachTop(target: Path, frame: Frame) {
    forall p :: TopLevel(target, p, frame) && TargetAncestors(target, p, frame) != {} ==>
      exists q :: TopLevel(target, q, frame) && ProperAncestor(q, p, frame)
  }

  ghost predicate ReportsRoots(target: Path, frame: Frame) {
    forall p :: p in DesktopRootSnapshots(target, frame) <==>
      p in frame && p.executable == target && TargetAncestors(target, p, frame) == {}
  }

  /** `desktop_root_snapshots` returns exactly the processes running the target that have no proper
      ancestor running it, if and only if ancestors reach the top. */
  lemma DesktopRootsExact(target: Path, frame: Frame)
    ensures ReportsRoots(target, frame) <==> AncestorsReachTop(target, frame)
  {
    ReportedExact(target, frame);
    forall p | p in frame && p.executable == target && TargetAncestors(target, p, frame) == {}
      ensures p in DesktopRootSnapshots(target, frame)
    {
      TopInRoots(target, frame, p);
      NotBelowTarget(target, frame, p);
    }
    if ReportsRoots(target, frame) {
      forall p | TopLevel(target, p, frame) && TargetAncestors(target, p, frame) != {}
        ensures exists q :: TopLevel(target, q, frame) && ProperAncestor(q, p, frame)
      {
        assert p !in DesktopRootSnapshots(target, frame);
      }
    }
  }

  /** Without a cycle through a target process the roots are always reported. */
  lemma AcyclicRootsExact(target: Path, frame: Frame)
    requires NoTargetCycle(target, frame)
    ensures ReportsRoots(target, frame)
  {
    forall p | TopLevel(target, p, frame) && TargetAncestors(target, p, frame) != {}
      ensures exists q :: TopLevel(target, q, frame) && ProperAncestor(q, p, frame)
    {
      var a :| a in TargetAncestors(target, p, frame);
      var top := TopAncestor(target, a, frame);
      if top != a {
        AncestorTransitive(top, a, p, frame);
      }
      TopInRoots(target, frame, top);
    }
    DesktopRootsExact(target, frame);
  }

  lemma NotBelowTarget(target: Path, frame: Frame, p: Snapshot)
    requires p in frame && TargetAncestors(target, p, frame) == {}
    ensures forall q :: q in frame && q.executable == target ==> p.parent !in Closure({q.id}, frame)
  {
    forall q | q in frame && q.executable == target ensures p.parent !in Closure({q.id}, frame) {
      assert q !in TargetAncestors(target, p, frame);
    }
  }

  lemma TopInRoots(target: Path, frame: Frame, p: Snapshot)
    requires p in frame && p.executable == target && TargetAncestors(target, p, frame) == {}
    ensures TopLevel(target, p, frame)
  {
    NotBelowTarget(target, frame, p);
    assert p.parent in Closure({p.parent}, frame);
  }

  lemma {:induction false} SelectionSorted(target: Path, tree: seq<Snapshot>)
    requires SortedById(tree)
    ensures forall ids :: SortedById(Orphans(Running(target, tree), ids))
  {
    RunningSorted(target, tree);
    forall ids ensures SortedById(Orphans(Running(target, tree), ids)) {
      OrphansSorted(Running(target, tree), ids);
    }
  }

  lemma {:induction false} RunningSorted(target: Path, tree: seq<Snapshot>)
    requires SortedById(tree)
    ensures SortedById(Running(target, tree))
  {
    if tree != [] {
      RunningSorted(target, tree[1..]);
      RunningExact(target, tree[1..]);
    }
  }

  lemma {:induction false} OrphansSorted(processes: seq<Snapshot>, parents: set<nat>)
    requires SortedById(processes)
    ensures SortedById(Orphans(processes, parents))
  {
    if processes != [] {
      OrphansSorted(processes[1..], parents);
      OrphansExact(processes[1..], parents);
    }
  }

  /** A scan that read process 1 before and process 2 after PID 2 was reused shows each as the
      other's parent. Neither is top-level, and the target process 4 below them is reported
      although it has target ancestors. */
  lemma TargetCycleBreaksRoots(target: Path, other: Path)
    requires target != other
    ensures var frame := [Snapshot(1, 2, 1, target, 0), Snapshot(2, 1, 1, target, 0), Snapshot(3, 1, 1, other, 0),
                          Snapshot(4, 3, 1, target, 0)];
            frame[3] in DesktopRootSnapshots(target, frame) && ProperAncestor(frame[0], frame[3], frame)
  {
    CycleHides(target, Snapshot(1, 2, 1, target, 0), Snapshot(2, 1, 1, target, 0), Snapshot(3, 1, 1, other, 0),
               Snapshot(4, 3, 1, target, 0));
  }

  lemma CycleHides(target: Path, a: Snapshot, b: Snapshot, d: Snapshot, e: Snapshot)
    requires a.executable == b.executable == e.executable == target != d.executable
    requires a.id == b.parent == d.parent == 1 && b.id == a.parent == 2 && d.id == e.parent == 3 && e.id == 4
    ensures e in DesktopRootSnapshots(target, [a, b, d, e]) && ProperAncestor(a, e, [a, b, d, e])
  {
    var frame := [a, b, d, e];
    CycleTop(target, a, b, d, e);
    CycleAncestor(a, b, d, e);
    LeafIsOutside(a, b, d, e);
    ReportedExact(target, frame);
  }

  lemma CycleTop(target: Path, a: Snapshot, b: Snapshot, d: Snapshot, e: Snapshot)
    requires a.executable == b.executable == e.executable == target != d.executable
    requires a.id == b.parent == d.parent == 1 && b.id == a.parent == 2 && d.id == e.parent == 3 && e.id == 4
    ensures forall q :: TopLevel(target, q, [a, b, d, e]) <==> q == e
  {
    var frame := [a, b, d, e];
    assert a in frame && b in frame && e in frame;
    assert !Parentless(target, a, frame) && !Parentless(target, b, frame);
  }

  lemma CycleAncestor(a: Snapshot, b: Snapshot, d: Snapshot, e: Snapshot)
    requires d.parent == a.id && e.parent == d.id
    ensures ProperAncestor(a, e, [a, b, d, e])
  {
    var frame := [a, b, d, e];
    assert a in frame && d in frame && e in frame;
    ClosureIsLeast({a.id}, frame);
    assert a.id in Closure({a.id}, frame);
  }

  lemma LeafIsOutside(a: Snapshot, b: Snapshot, d: Snapshot, e: Snapshot)
    requires a.parent != e.id && b.parent != e.id && d.parent != e.id && e.parent != e.id
    ensures !ProperAncestor(e, e, [a, b, d, e])
  {
    ClosureIsLeast({e.id}, [a, b, d, e]);
    assert ChildClosed({e.id}, [a, b, d, e]);
  }
}
