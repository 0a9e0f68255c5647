/** Process snapshots, frames of the system process table, and descendant discovery. */
module Processes {
  import opened Wrappers

  // Paths are opaque values compared by equality.
  type Path = string

  datatype Snapshot = Snapshot(id: nat, parent: nat, group: nat, executable: Path, start: nat)

  // One enumeration of the system process table, in enumeration order.
  type Frame = seq<Snapshot>

  // PID plus start time identifies a process instance; its executable does not.
  predicate SameInstance(expected: Snapshot, current: Snapshot) {
    expected.id == current.id && expected.start == current.start
  }

  ghost predicate HasInstance(processes: seq<Snapshot>, expected: Snapshot) {
    exists p :: p in processes && SameInstance(p, expected)
  }

  function Ids(processes: seq<Snapshot>): set<nat> {
    set p | p in processes :: p.id
  }

  ghost predicate DistinctIds(processes: seq<Snapshot>) {
    forall i, j :: 0 <= i < j < |processes| ==> processes[i].id != processes[j].id
  }

  lemma DistinctMembers(processes: seq<Snapshot>, p: Snapshot, q: Snapshot)
    requires DistinctIds(processes) && p in processes && q in processes && p.id == q.id
    ensures p == q
  {
    var i :| 0 <= i < |processes| && processes[i] == p;
    var j :| 0 <= j < |processes| && processes[j] == q;
  }

  /** First entry with this PID. */
  function Find(frame: Frame, id: nat): (r: Option<Snapshot>)
    ensures r.Some? ==> r.value in frame && r.value.id == id
    ensures r.None? ==> id !in Ids(frame)
  {
    if frame == [] then None
    else if frame[0].id == id then Some(frame[0])
    else Find(frame[1..], id)
  }

  lemma {:induction false} FindFirst(frame: Frame, i: nat)
    requires i < |frame| && forall j :: 0 <= j < i ==> frame[j].id != frame[i].id
    ensures Find(frame, frame[i].id) == Some(frame[i])
    decreases i
  {
    if i > 0 {
      FindFirst(frame[1..], i - 1);
    }
  }

  /** First entry that is this exact process instance. */
  function FindInstance(frame: Frame, expected: Snapshot): (r: Option<Snapshot>)
    ensures r.Some? ==> r.value in frame && SameInstance(expected, r.value)
    ensures r.None? ==> forall p :: p in frame ==> !SameInstance(expected, p)
  {
    if frame == [] then None
    else if SameInstance(expected, frame[0]) then Some(frame[0])
    else FindInstance(frame[1..], expected)
  }

  // ----- descendants ------------------------------------------------------------------

  /** Every process whose parent is in `s` is itself in `s`. */
  ghost predicate ChildClosed(s: set<nat>, frame: Frame) {
    forall p :: p in frame && p.parent in s ==> p.id in s
  }

  /** The processes one sweep over the frame adds to `owned`, in the order it adds them. */
  function Sweep(owned: set<nat>, frame: Frame): (found: seq<Snapshot>)
    ensures forall p :: p in found ==> p in frame && p.id !in owned
    ensures found == [] ==> ChildClosed(owned, frame)
    decreases |frame|
  {
    if frame == [] then []
    else if frame[0].id !in owned && frame[0].parent in owned then
      [frame[0]] + Sweep(owned + {frame[0].id}, frame[1..])
    else Sweep(owned, frame[1..])
  }

  /** Sweeps repeated until one adds nothing. */
  function Descend(owned: set<nat>, frame: Frame): (found: seq<Snapshot>)
    decreases Ids(frame) - owned
  {
    var found := Sweep(owned, frame);
    if found == [] then [] else
      assert found[0].id in Ids(frame) - owned && found[0].id in Ids(found);
      found + Descend(owned + Ids(found), frame)
  }

  /** The roots together with everything below them in this frame. */
  function Closure(roots: set<nat>, frame: Frame): set<nat> {
    roots + Ids(Descend(roots, frame))
  }

  lemma IdsConcat(a: seq<Snapshot>, b: seq<Snapshot>)
    ensures Ids(a + b) == Ids(a) + Ids(b)
  {
  }

  // Each process is added after its parent, and no PID is added twice.
  ghost predicate Attributed(owned: set<nat>, found: seq<Snapshot>) {
    && DistinctIds(found)
    && (forall i :: 0 <= i < |found| ==> found[i].id !in owned)
    && (forall i :: 0 <= i < |found| ==> found[i].parent in owned + Ids(found[..i]))
  }

  lemma AttributedConcat(owned: set<nat>, a: seq<Snapshot>, b: seq<Snapshot>)
    requires Attributed(owned, a) && Attributed(owned + Ids(a), b)
    ensures Attributed(owned, a + b)
  {
    forall i, j | 0 <= i < j < |a + b| ensures (a + b)[i].id != (a + b)[j].id {
      if i < |a| <= j { assert a[i].id in Ids(a); }
    }
    forall i | 0 <= i < |a + b| ensures (a + b)[i].parent in owned + Ids((a + b)[..i]) {
      if i < |a| {
        assert (a + b)[..i] == a[..i];
      } else {
        assert (a + b)[..i] == a + b[..i - |a|];
        IdsConcat(a, b[..i - |a|]);
      }
    }
  }

  lemma {:induction false} SweepAttributed(owned: set<nat>, frame: Frame)
    ensures Attributed(owned, Sweep(owned, frame))
    decreases |frame|
  {
    if frame != [] {
      if frame[0].id !in owned && frame[0].parent in owned {
        var rest := Sweep(owned + {frame[0].id}, frame[1..]);
        SweepAttributed(owned + {frame[0].id}, frame[1..]);
        assert Ids([frame[0]]) == {frame[0].id};
        AttributedConcat(owned, [frame[0]], rest);
      } else {
        SweepAttributed(owned, frame[1..]);
      }
    }
  }

  lemma {:induction false} DescendAttributed(owned: set<nat>, frame: Frame)
    ensures Attributed(owned, Descend(owned, frame))
    ensures forall p :: p in Descend(owned, frame) ==> p in frame
    decreases Ids(frame) - owned
  {
    var found := Sweep(owned, frame);
    if found != [] {
      assert found[0].id in Ids(frame) - owned && found[0].id in Ids(found);
      SweepAttributed(owned, frame);
      DescendAttributed(owned + Ids(found), frame);
      AttributedConcat(owned, found, Descend(owned + Ids(found), frame));
    }
  }

  lemma {:induction false} ClosureClosed(roots: set<nat>, frame: Frame)
    ensures ChildClosed(Closure(roots, frame), frame)
    decreases Ids(frame) - roots
  {
    var found := Sweep(roots, frame);
    if found == [] {
      assert Closure(roots, frame) == roots;
    } else {
      assert found[0].id in Ids(frame) - roots && found[0].id in Ids(found);
      ClosureClosed(roots + Ids(found), frame);
      IdsConcat(found, Descend(roots + Ids(found), frame));
      assert Closure(roots, frame) == Closure(roots + Ids(found), frame);
    }
  }

  lemma {:induction false} AttributedWithin(owned: set<nat>, found: seq<Snapshot>, frame: Frame, s: set<nat>)
    requires Attributed(owned, found) && forall p :: p in found ==> p in frame
    requires owned <= s && ChildClosed(s, frame)
    ensures Ids(found) <= s
  {
    if found != [] {
      var last := |found| - 1;
      var init := found[..last];
      assert found == init + [found[last]];
      assert forall i :: 0 <= i < |init| ==> init[..i] == found[..i];
      AttributedWithin(owned, init, frame, s);
      assert found[last].parent in s;
      IdsConcat(init, [found[last]]);
    }
  }

  /** `descendant_snapshots` finds exactly the least child-closed set above its roots: it is
      closed, every closed set above the roots contains it, and nothing is reported twice. */
  lemma ClosureIsLeast(roots: set<nat>, frame: Frame)
    ensures roots <= Closure(roots, frame) && ChildClosed(Closure(roots, frame), frame)
    ensures forall s :: roots <= s && ChildClosed(s, frame) ==> Closure(roots, frame) <= s
    ensures DistinctIds(Descend(roots, frame))
    ensures forall p :: p in Descend(roots, frame) ==> p in frame && p.id !in roots
  {
    ClosureClosed(roots, frame);
    DescendAttributed(roots, frame);
    forall s | roots <= s && ChildClosed(s, frame) ensures Closure(roots, frame) <= s {
      AttributedWithin(roots, Descend(roots, frame), frame, s);
    }
  }

  /** With distinct PIDs the report holds exactly the non-root processes of the closure. */
  lemma DescendExact(roots: set<nat>, frame: Frame, p: Snapshot)
    requires DistinctIds(frame) && p in frame
    ensures p in Descend(roots, frame) <==> p.id in Closure(roots, frame) && p.id !in roots
  {
    ClosureIsLeast(roots, frame);
    if p.id in Closure(roots, frame) && p.id !in roots {
      var q :| q in Descend(roots, frame) && q.id == p.id;
      DistinctMembers(frame, p, q);
    }
  }

  lemma ClosureMonotone(a: set<nat>, b: set<nat>, frame: Frame)
    requires a <= Closure(b, frame)
    ensures Closure(a, frame) <= Closure(b, frame)
  {
    ClosureIsLeast(a, frame);
    ClosureIsLeast(b, frame);
  }

  ghost predicate BelowSome(roots: set<nat>, frame: Frame, id: nat) {
    exists r :: r in roots && id in Closure({r}, frame)
  }

  /** Whatever lies below a set of roots lies below one of them. */
  lemma ClosureOfOne(roots: set<nat>, frame: Frame)
    ensures forall id :: id in Closure(roots, frame) ==> BelowSome(roots, frame, id)
  {
    ClosureIsLeast(roots, frame);
    var s := set id | id in Closure(roots, frame) && BelowSome(roots, frame, id);
    forall r | r in roots ensures r in s {
      assert r in Closure({r}, frame);
    }
    forall q | q in frame && q.parent in s ensures q.id in s {
      var r :| r in roots && q.parent in Closure({r}, frame);
      ClosureClosed({r}, frame);
      assert q.id in Closure({r}, frame);
    }
    assert ChildClosed(s, frame);
  }

  function Elements(s: seq<nat>): set<nat> {
    set x | x in s
  }

  lemma DescendStep(owned: set<nat>, frame: Frame)
    ensures var found := Sweep(owned, frame);
            if found == [] then Descend(owned, frame) == []
            else Descend(owned, frame) == found + Descend(owned + Ids(found), frame)
                 && Ids(frame) - (owned + Ids(found)) < Ids(frame) - owned
  {
    var found := Sweep(owned, frame);
    if found != [] {
      assert found[0].id in Ids(frame) - owned && found[0].id in Ids(found);
    }
  }

  /** The loop over `owned_ids`: sweeps in place until one changes nothing. */
  method DescendantSnapshots(roots: seq<nat>, snapshots: Frame) returns (descendants: seq<Snapshot>)
    ensures descendants == Descend(Elements(roots), snapshots)
  {
    var ownedIds := roots;
    descendants := [];
    ghost var owned := Elements(roots);
    while true
      invariant owned == Elements(ownedIds)
      invariant Descend(Elements(roots), snapshots) == descendants + Descend(owned, snapshots)
      decreases Ids(snapshots) - owned
    {
      DescendStep(owned, snapshots);
      var found;
      ownedIds, found := SweepOnce(ownedIds, snapshots);
      if found == [] {
        return;
      }
      ghost var rest := Descend(owned + Ids(found), snapshots);
      assert descendants + (found + rest) == descendants + found + rest;
      owned := owned + Ids(found);
      descendants := descendants + found;
    }
  }

  method SweepOnce(ownedIds: seq<nat>, snapshots: Frame) returns (grown: seq<nat>, found: seq<Snapshot>)
    ensures found == Sweep(Elements(ownedIds), snapshots)
    ensures Elements(grown) == Elements(ownedIds) + Ids(found)
  {
    grown, found := ownedIds, [];
    for i := 0 to |snapshots|
      invariant found == Sweep(Elements(ownedIds), snapshots[..i])
      invariant Elements(grown) == Elements(ownedIds) + Ids(found)
    {
      var snapshot := snapshots[i];
      SweepAt(Elements(ownedIds), snapshots, i);
      if snapshot.id !in grown && snapshot.parent in grown {
        ElementsAppend(grown, snapshot.id);
        IdsAppend(found, snapshot);
        grown, found := grown + [snapshot.id], found + [snapshot];
      }
    }
    assert snapshots[..|snapshots|] == snapshots;
  }

  lemma IdsAppend(found: seq<Snapshot>, p: Snapshot)
    ensures Ids(found + [p]) == Ids(found) + {p.id}
  {
  }

  lemma ElementsAppend(xs: seq<nat>, x: nat)
    ensures Elements(xs + [x]) == Elements(xs) + {x}
  {
  }

  lemma {:induction false} SweepAppend(owned: set<nat>, frame: Frame, p: Snapshot)
    ensures Sweep(owned, frame + [p]) == Sweep(owned, frame) + Extra(owned + Ids(Sweep(owned, frame)), p)
    decreases |frame|
  {
    if frame == [] {
      assert frame + [p] == [p] && [p][1..] == [];
      assert owned + Ids(Sweep(owned, frame)) == owned;
    } else {
      var first, tail := frame[0], frame[1..];
      assert (frame + [p])[0] == first && (frame + [p])[1..] == tail + [p];
      if first.id !in owned && first.parent in owned {
        var grown := owned + {first.id};
        SweepAppend(grown, tail, p);
        IdsCons(first, Sweep(grown, tail));
        assert grown + Ids(Sweep(grown, tail)) == owned + Ids([first] + Sweep(grown, tail));
        var extra := Extra(grown + Ids(Sweep(grown, tail)), p);
        assert [first] + (Sweep(grown, tail) + extra) == [first] + Sweep(grown, tail) + extra;
      } else {
        SweepAppend(owned, tail, p);
      }
    }
  }

  lemma SweepAt(owned: set<nat>, frame: Frame, i: nat)
    requires i < |frame|
    ensures var found := Sweep(owned, frame[..i]);
            Sweep(owned, frame[..i + 1]) == found + Extra(owned + Ids(found), frame[i])
  {
    assert frame[..i + 1] == frame[..i] + [frame[i]];
    SweepAppend(owned, frame[..i], frame[i]);
  }

  function Extra(owned: set<nat>, p: Snapshot): seq<Snapshot> {
    if p.id !in owned && p.parent in owned then [p] else []
  }

  lemma IdsCons(p: Snapshot, rest: seq<Snapshot>)
    ensures Ids([p] + rest) == {p.id} + Ids(rest)
  {
  }
}
