/** Paths along an edge relation. */
module Reachability {

  ghost predicate IsPath<T(!new)>(edge: (T, T) -> bool, path: seq<T>) {
    path != [] && forall i :: 0 <= i < |path| - 1 ==> edge(path[i], path[i + 1])
  }

  ghost predicate Reaches<T(!new)>(edge: (T, T) -> bool, a: T, b: T) {
    exists path :: IsPath(edge, path) && path[0] == a && path[|path| - 1] == b
  }

  ghost predicate Closed<T(!new)>(edge: (T, T) -> bool, s: set<T>) {
    forall a, b :: a in s && edge(a, b) ==> b in s
  }

  lemma ReachesSelf<T(!new)>(edge: (T, T) -> bool, a: T)
    ensures Reaches(edge, a, a)
  {
    assert IsPath(edge, [a]);
  }

  lemma ReachesNext<T(!new)>(edge: (T, T) -> bool, a: T, b: T, c: T)
    requires Reaches(edge, a, b) && edge(b, c)
    ensures Reaches(edge, a, c)
  {
    var path :| IsPath(edge, path) && path[0] == a && path[|path| - 1] == b;
    var longer := path + [c];
    assert IsPath(edge, longer) && longer[0] == a && longer[|longer| - 1] == c;
  }

  lemma ReachesJoin<T(!new)>(edge: (T, T) -> bool, a: T, b: T, c: T)
    requires Reaches(edge, a, b) && Reaches(edge, b, c)
    ensures Reaches(edge, a, c)
  {
    var first :| IsPath(edge, first) && first[0] == a && first[|first| - 1] == b;
    var second :| IsPath(edge, second) && second[0] == b && second[|second| - 1] == c;
    var joined := first + second[1..];
    assert IsPath(edge, joined) && joined[0] == a && joined[|joined| - 1] == c;
  }

  /** A closed set keeps whatever is reachable from its members. */
  lemma {:induction false} ClosedKeepsPath<T(!new)>(edge: (T, T) -> bool, s: set<T>, path: seq<T>)
    requires Closed(edge, s) && IsPath(edge, path) && path[0] in s
    ensures path[|path| - 1] in s
    decreases |path|
  {
    if |path| > 1 {
      assert IsPath(edge, path[..|path| - 1]);
      ClosedKeepsPath(edge, s, path[..|path| - 1]);
      assert edge(path[|path| - 2], path[|path| - 1]);
    }
  }

  lemma ClosedKeeps<T(!new)>(edge: (T, T) -> bool, s: set<T>, a: T)
    requires Closed(edge, s) && a in s
    ensures forall b :: Reaches(edge, a, b) ==> b in s
  {
    forall b | Reaches(edge, a, b) ensures b in s {
      var path :| IsPath(edge, path) && path[0] == a && path[|path| - 1] == b;
      ClosedKeepsPath(edge, s, path);
    }
  }
}
