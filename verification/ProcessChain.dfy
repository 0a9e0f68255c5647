/** Search for a parent/child pair of executables below one exact root instance. */
module ProcessChain {
  import opened Wrappers
  import opened Processes

  // One link of a start-ordered chain: a child no older than the parent it names.
  predicate Link(parent: Snapshot, child: Snapshot) {
    child.parent == parent.id && child.start >= parent.start
  }

  /** A chain of links through the frame. */
  ghost predicate Chain(frame: Frame, path: seq<Snapshot>) {
    && path != []
    && (forall i :: 0 <= i < |path| ==> path[i] in frame)
    && (forall i :: 0 <= i < |path| - 1 ==> Link(path[i], path[i + 1]))
  }

  ghost predicate Reachable(frame: Frame, root: Snapshot, p: Snapshot) {
    exists path :: Chain(frame, path) && path[0] == root && path[|path| - 1] == p
  }

  predicate IsRoot(root: Snapshot, candidate: Snapshot) {
    SameInstance(root, candidate) && candidate.executable == root.executable
  }

  predicate IsPair(root: Snapshot, parentExe: Path, childExe: Path, parent: Snapshot, child: Snapshot) {
    && parent.id != root.id && child.id != root.id && Link(parent, child)
    && parent.executable == parentExe && child.executable == childExe
  }

  /** The exact root is present, and below it a non-root process of the parent executable has
      a direct non-root child of the child executable. */
  ghost predicate PairBelow(root: Snapshot, parentExe: Path, childExe: Path, frame: Frame) {
    exists current, parent, child ::
      current in frame && IsRoot(root, current) && Reachable(frame, current, parent)
      && child in frame && IsPair(root, parentExe, childExe, parent, child)
  }

  function FindRoot(root: Snapshot, frame: Frame): (r: Option<Snapshot>)
    ensures r.Some? ==> r.value in frame && IsRoot(root, r.value)
    ensures r.None? ==> forall p :: p in frame ==> !IsRoot(root, p)
  {
    if frame == [] then None
    else if IsRoot(root, frame[0]) then Some(frame[0])
    else FindRoot(root, frame[1..])
  }

  lemma ReachableStep(frame: Frame, root: Snapshot, p: Snapshot, child: Snapshot)
    requires Reachable(frame, root, p) && child in frame && Link(p, child)
    ensures Reachable(frame, root, child)
  {
    var path :| Chain(frame, path) && path[0] == root && path[|path| - 1] == p;
    var longer := path + [child];
    assert Chain(frame, longer) && longer[0] == root && longer[|longer| - 1] == child;
  }

  lemma ReachableRoot(frame: Frame, root: Snapshot)
    requires root in frame
    ensures Reachable(frame, root, root)
  {
    assert Chain(frame, [root]);
  }

  // What a finished search has established about a visited set: it holds the root and is
  // closed under links, and no pair starts at one of its members.
  ghost predicate Exhausted(root: Snapshot, parentExe: Path, childExe: Path, frame: Frame, seen: set<Snapshot>) {
    forall parent, child :: parent in seen && child in frame && Link(parent, child) ==>
      child in seen && !IsPair(root, parentExe, childExe, parent, child)
  }

  lemma {:induction false} ChainStays(root: Snapshot, parentExe: Path, childExe: Path, frame: Frame,
                                      seen: set<Snapshot>, path: seq<Snapshot>)
    requires Exhausted(root, parentExe, childExe, frame, seen) && Chain(frame, path) && path[0] in seen
    ensures path[|path| - 1] in seen
    decreases |path|
  {
    if |path| > 1 {
      var init := path[..|path| - 1];
      assert Chain(frame, init) && init[0] == path[0];
      ChainStays(root, parentExe, childExe, frame, seen, init);
      assert Link(path[|path| - 2], path[|path| - 1]);
    }
  }

  lemma NoPair(root: Snapshot, current: Snapshot, parentExe: Path, childExe: Path, frame: Frame, seen: set<Snapshot>)
    requires DistinctIds(frame) && current in frame && IsRoot(root, current) && current in seen
    requires Exhausted(root, parentExe, childExe, frame, seen)
    ensures !PairBelow(root, parentExe, childExe, frame)
  {
    forall other, parent, child |
        other in frame && IsRoot(root, other) && Reachable(frame, other, parent) && child in frame
      ensures !IsPair(root, parentExe, childExe, parent, child)
    {
      DistinctMembers(frame, other, current);
      var path :| Chain(frame, path) && path[0] == current && path[|path| - 1] == parent;
      ChainStays(root, parentExe, childExe, frame, seen, path);
    }
  }

  // The search state: `seen` are the snapshots whose PIDs are visited, `pending` the ones
  // whose children are still to be looked at. Everything seen but the root was discovered
  // from a parent whose children have all been looked at.
  ghost predicate Discovered(frame: Frame, current: Snapshot, pending: seq<Snapshot>, seen: set<Snapshot>,
                             c: Snapshot) {
    c == current || exists q :: q in seen && q !in pending && Link(q, c)
  }

  ghost predicate Searching(root: Snapshot, current: Snapshot, parentExe: Path, childExe: Path, frame: Frame,
                            pending: seq<Snapshot>, visited: set<nat>, seen: set<Snapshot>) {
    && current in seen && seen <= (set p | p in frame)
    && visited == (set p | p in seen :: p.id)
    && (forall p :: p in pending ==> p in seen)
    && DistinctIds(pending)
    && (forall p :: p in seen ==> Reachable(frame, current, p) && Discovered(frame, current, pending, seen, p))
    && (forall parent, child :: parent in seen && parent !in pending && child in frame && Link(parent, child) ==>
          child in seen && !IsPair(root, parentExe, childExe, parent, child))
  }

  lemma SearchStart(root: Snapshot, current: Snapshot, parentExe: Path, childExe: Path, frame: Frame)
    requires current in frame && IsRoot(root, current)
    ensures Searching(root, current, parentExe, childExe, frame, [current], {root.id}, {current})
  {
    ReachableRoot(frame, current);
  }

  /** Depth-first search over the table; it ends on cyclic tables because each PID is pushed
      at most once. */
  method MatchesPair(root: Snapshot, parentExe: Path, childExe: Path, snapshots: Frame) returns (found: bool)
    requires DistinctIds(snapshots)
    ensures found <==> PairBelow(root, parentExe, childExe, snapshots)
  {
    var current := FindRoot(root, snapshots);
    if current.None? {
      return false;
    }
    ghost var start := current.value;
    var pending := [current.value];
    var visited := {root.id};
    ghost var seen := {start};
    ghost var all := set p | p in snapshots;
    SearchStart(root, start, parentExe, childExe, snapshots);
    while pending != []
      invariant Searching(root, start, parentExe, childExe, snapshots, pending, visited, seen)
      decreases all - seen, |pending|
    {
      var parent := pending[|pending| - 1];
      assert pending == pending[..|pending| - 1] + [parent];
      pending := pending[..|pending| - 1];
      ghost var before := seen;
      ghost var rest := pending;
      found, pending, visited, seen :=
        VisitChildren(root, start, parentExe, childExe, snapshots, parent, pending, visited, seen);
      if found {
        return;
      }
      assert seen == before ==> pending == rest;
      assert before <= seen <= all;
    }
    NoPair(root, start, parentExe, childExe, snapshots, seen);
    return false;
  }

  // Halfway through the children of `parent`: the first `i` rows have been looked at.
  ghost predicate Visiting(root: Snapshot, current: Snapshot, parentExe: Path, childExe: Path, frame: Frame,
                           parent: Snapshot, pending0: seq<Snapshot>, seen0: set<Snapshot>, i: nat,
                           pending: seq<Snapshot>, visited: set<nat>, seen: set<Snapshot>) {
    && i <= |frame|
    && seen0 <= seen && visited == (set p | p in seen :: p.id)
    && DistinctIds(pending)
    && (forall p :: p in pending <==> p in pending0 || p in seen - seen0)
    && (forall p :: p in seen - seen0 ==> Link(parent, p) && p in frame[..i])
    && (seen == seen0 ==> pending == pending0)
    && (forall j :: 0 <= j < i && Link(parent, frame[j]) ==>
          frame[j] in seen && !IsPair(root, parentExe, childExe, parent, frame[j]))
  }

  lemma VisitStart(root: Snapshot, current: Snapshot, parentExe: Path, childExe: Path, frame: Frame,
                   parent: Snapshot, pending0: seq<Snapshot>, visited0: set<nat>, seen0: set<Snapshot>)
    requires Searching(root, current, parentExe, childExe, frame, pending0 + [parent], visited0, seen0)
    requires IsRoot(root, current)
    ensures Visiting(root, current, parentExe, childExe, frame, parent, pending0, seen0, 0, pending0, visited0, seen0)
    ensures Reachable(frame, current, parent) && root.id in visited0
  {
    var popped := pending0 + [parent];
    assert popped[|pending0|] == parent && parent in popped;
    forall i, j | 0 <= i < j < |pending0| ensures pending0[i].id != pending0[j].id {
      assert popped[i] == pending0[i] && popped[j] == pending0[j];
    }
  }

  lemma VisitPush(root: Snapshot, current: Snapshot, parentExe: Path, childExe: Path, frame: Frame,
                  parent: Snapshot, pending0: seq<Snapshot>, seen0: set<Snapshot>, i: nat,
                  pending: seq<Snapshot>, visited: set<nat>, seen: set<Snapshot>)
    requires Visiting(root, current, parentExe, childExe, frame, parent, pending0, seen0, i, pending, visited, seen)
    requires i < |frame| && Link(parent, frame[i]) && frame[i].id !in visited
    requires !IsPair(root, parentExe, childExe, parent, frame[i])
    requires forall p :: p in pending0 ==> p in seen0
    ensures Visiting(root, current, parentExe, childExe, frame, parent, pending0, seen0, i + 1,
                     pending + [frame[i]], visited + {frame[i].id}, seen + {frame[i]})
  {
    var child := frame[i];
    var seen', pending' := seen + {child}, pending + [child];
    assert child !in seen;
    forall p | p in pending ensures p.id != child.id {
      assert p in seen;
    }
    assert DistinctIds(pending');
    forall p | p in seen' - seen0 ensures Link(parent, p) && p in frame[..i + 1] {
      assert frame[..i + 1] == frame[..i] + [child];
      assert p == child || p in seen - seen0;
    }
    assert child !in seen0 && seen' != seen0;
  }

  lemma VisitSkip(root: Snapshot, current: Snapshot, parentExe: Path, childExe: Path, frame: Frame,
                  parent: Snapshot, pending0: seq<Snapshot>, seen0: set<Snapshot>, i: nat,
                  pending: seq<Snapshot>, visited: set<nat>, seen: set<Snapshot>)
    requires Visiting(root, current, parentExe, childExe, frame, parent, pending0, seen0, i, pending, visited, seen)
    requires i < |frame|
    requires Link(parent, frame[i]) ==> frame[i] in seen && !IsPair(root, parentExe, childExe, parent, frame[i])
    ensures Visiting(root, current, parentExe, childExe, frame, parent, pending0, seen0, i + 1, pending, visited, seen)
  {
    assert frame[..i + 1] == frame[..i] + [frame[i]];
  }

  lemma VisitDone(root: Snapshot, current: Snapshot, parentExe: Path, childExe: Path, frame: Frame,
                  parent: Snapshot, pending0: seq<Snapshot>, visited0: set<nat>, seen0: set<Snapshot>,
                  pending: seq<Snapshot>, visited: set<nat>, seen: set<Snapshot>)
    requires Searching(root, current, parentExe, childExe, frame, pending0 + [parent], visited0, seen0)
    requires Visiting(root, current, parentExe, childExe, frame, parent, pending0, seen0, |frame|, pending, visited,
                      seen)
    ensures Searching(root, current, parentExe, childExe, frame, pending, visited, seen)
  {
    var popped := pending0 + [parent];
    assert forall p :: p in popped <==> p in pending0 || p == parent;
    assert parent !in pending0 by {
      assert popped[|pending0|] == parent && forall k :: 0 <= k < |pending0| ==> popped[k] == pending0[k];
    }
    assert frame[..|frame|] == frame;
    forall p | p in seen ensures Reachable(frame, current, p) && Discovered(frame, current, pending, seen, p) {
      if p in seen0 {
        assert Discovered(frame, current, popped, seen0, p);
      } else {
        ReachableStep(frame, current, parent, p);
        assert parent in seen && parent !in pending && Link(parent, p);
      }
    }
  }

  method VisitChildren(root: Snapshot, ghost current: Snapshot, parentExe: Path, childExe: Path, snapshots: Frame,
                       parent: Snapshot, pending0: seq<Snapshot>, visited0: set<nat>, ghost seen0: set<Snapshot>)
    returns (found: bool, pending: seq<Snapshot>, visited: set<nat>, ghost seen: set<Snapshot>)
    requires DistinctIds(snapshots) && current in snapshots && IsRoot(root, current)
    requires Searching(root, current, parentExe, childExe, snapshots, pending0 + [parent], visited0, seen0)
    ensures found ==> PairBelow(root, parentExe, childExe, snapshots)
    ensures !found ==> Searching(root, current, parentExe, childExe, snapshots, pending, visited, seen)
    ensures seen0 <= seen <= (set p | p in snapshots)
    ensures seen == seen0 ==> pending == pending0
  {
    found, pending, visited, seen := false, pending0, visited0, seen0;
    VisitStart(root, current, parentExe, childExe, snapshots, parent, pending0, visited0, seen0);
    for i := 0 to |snapshots|
      invariant Visiting(root, current, parentExe, childExe, snapshots, parent, pending0, seen0, i, pending, visited,
                         seen)
      invariant seen <= (set p | p in snapshots)
    {
      var child := snapshots[i];
      if child.parent == parent.id && child.start >= parent.start {
        if child.id in visited {
          ghost var twin :| twin in seen && twin.id == child.id;
          DistinctMembers(snapshots, twin, child);
          AlreadySeen(root, current, parentExe, childExe, snapshots, parent, pending0, visited0, seen0, child);
        } else {
          if parent.id != root.id && parent.executable == parentExe && child.executable == childExe {
            assert IsPair(root, parentExe, childExe, parent, child);
            visited, seen, found := visited + {child.id}, seen + {child}, true;
            return;
          }
          VisitPush(root, current, parentExe, childExe, snapshots, parent, pending0, seen0, i, pending, visited, seen);
          visited, seen, pending := visited + {child.id}, seen + {child}, pending + [child];
          continue;
        }
      }
      VisitSkip(root, current, parentExe, childExe, snapshots, parent, pending0, seen0, i, pending, visited, seen);
    }
    VisitDone(root, current, parentExe, childExe, snapshots, parent, pending0, visited0, seen0, pending, visited, seen);
  }

  // A child that was already seen when its parent's turn comes is the root itself.
  lemma AlreadySeen(root: Snapshot, current: Snapshot, parentExe: Path, childExe: Path, frame: Frame,
                    parent: Snapshot, pending: seq<Snapshot>, visited: set<nat>, seen: set<Snapshot>, child: Snapshot)
    requires DistinctIds(frame) && current in frame && IsRoot(root, current) && child in frame
    requires Searching(root, current, parentExe, childExe, frame, pending + [parent], visited, seen)
    requires child.parent == parent.id
    ensures child in seen ==> child == current
  {
    assert parent in pending + [parent];
    if child in seen && child != current {
      var q :| q in seen && q !in pending + [parent] && Link(q, child);
      DistinctMembers(frame, q, parent);
      assert false;
    }
  }

  /** The search succeeds exactly when the table holds a chain, link by link: it starts at the exact root,
      every process names the one before it as its parent and is no older, and it ends with a process of
      the parent executable and one of the child executable, neither under the root PID. */
  lemma PairBelowExact(root: Snapshot, parentExe: Path, childExe: Path, frame: Frame)
    ensures PairBelow(root, parentExe, childExe, frame) <==>
              exists path :: PairChain(root, parentExe, childExe, frame, path)
  {
    if PairBelow(root, parentExe, childExe, frame) {
      var current, parent, child :| current in frame && IsRoot(root, current) && Reachable(frame, current, parent)
        && child in frame && IsPair(root, parentExe, childExe, parent, child);
      var path :| Chain(frame, path) && path[0] == current && path[|path| - 1] == parent;
      assert PairChain(root, parentExe, childExe, frame, path + [child]);
    }
    if path :| PairChain(root, parentExe, childExe, frame, path) {
      var n := |path| - 1;
      var init := path[..n];
      assert Chain(frame, init) && init[0] == path[0] && init[|init| - 1] == path[n - 1];
      assert Reachable(frame, path[0], path[n - 1]) && path[n] in frame;
    }
  }

  ghost predicate PairChain(root: Snapshot, parentExe: Path, childExe: Path, frame: Frame, path: seq<Snapshot>) {
    && |path| >= 2 && (forall i :: 0 <= i < |path| ==> path[i] in frame)
    && path[0].id == root.id && path[0].start == root.start && path[0].executable == root.executable
    && (forall i :: 0 <= i < |path| - 1 ==> path[i + 1].parent == path[i].id && path[i + 1].start >= path[i].start)
    && path[|path| - 2].id != root.id && path[|path| - 2].executable == parentExe
    && path[|path| - 1].id != root.id && path[|path| - 1].executable == childExe
  }
}
