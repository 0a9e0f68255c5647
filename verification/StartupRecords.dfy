/** The startup history: the ten most recently written records, one per startup. */
module StartupRecords {
  datatype Record = Record(id: string, content: string)

  const MAX_RECORDS := 10

  function Others(records: seq<Record>, id: string): seq<Record> {
    if records == [] then []
    else if records[0].id == id then Others(records[1..], id)
    else [records[0]] + Others(records[1..], id)
  }

  function Newest(records: seq<Record>): seq<Record> {
    if |records| <= MAX_RECORDS then records else records[..MAX_RECORDS]
  }

  method Merge(records: seq<Record>, record: Record) returns (merged: seq<Record>)
    ensures merged == Newest([record] + Others(records, record.id))
  {
    var kept := [];
    for i := 0 to |records|
      invariant Others(records, record.id) == kept + Others(records[i..], record.id)
    {
      assert records[i..][0] == records[i] && records[i..][1..] == records[i + 1..];
      if records[i].id != record.id {
        kept := kept + [records[i]];
      }
    }
    assert records[|records|..] == [];
    merged := [record] + kept;
    if |merged| > MAX_RECORDS {
      merged := merged[..MAX_RECORDS];
    }
  }

  /** The history after persisting `written` in this order, starting from nothing. */
  function History(written: seq<Record>): seq<Record> {
    if written == [] then []
    else
      var last := written[|written| - 1];
      Newest([last] + Others(History(written[..|written| - 1]), last.id))
  }

  // ----- the unbounded list -----------------------------------------------------------

  function Reversed(records: seq<Record>): (reversed: seq<Record>)
    ensures |reversed| == |records|
  {
    if records == [] then [] else [records[|records| - 1]] + Reversed(records[..|records| - 1])
  }

  /** The first record of each id that is not in `seen`. */
  function FirstOfEach(records: seq<Record>, seen: set<string>): seq<Record> {
    if records == [] then []
    else if records[0].id in seen then FirstOfEach(records[1..], seen)
    else [records[0]] + FirstOfEach(records[1..], seen + {records[0].id})
  }

  /** Every id ever written, most recent write first, each with its latest record. */
  function LatestPerId(written: seq<Record>): seq<Record> {
    FirstOfEach(Reversed(written), {})
  }

  ghost predicate DistinctIds(records: seq<Record>) {
    forall i, j :: 0 <= i < j < |records| ==> records[i].id != records[j].id
  }

  lemma {:induction false} FirstOfEachFacts(records: seq<Record>, seen: set<string>)
    ensures DistinctIds(FirstOfEach(records, seen))
    ensures forall r :: r in FirstOfEach(records, seen) ==> r.id !in seen && r in records
    decreases |records|
  {
    if records != [] {
      FirstOfEachFacts(records[1..], if records[0].id in seen then seen else seen + {records[0].id});
    }
  }

  lemma {:induction false} FirstOfEachSeen(records: seq<Record>, seen: set<string>, id: string)
    ensures FirstOfEach(records, seen + {id}) == Others(FirstOfEach(records, seen), id)
    decreases |records|
  {
    if records != [] {
      var first := records[0].id;
      if first == id {
        if id !in seen {
          FirstOfEachFacts(records[1..], seen + {id});
          OthersAbsent(FirstOfEach(records[1..], seen + {id}), id);
        } else {
          FirstOfEachSeen(records[1..], seen, id);
        }
      } else if first in seen {
        FirstOfEachSeen(records[1..], seen, id);
      } else {
        FirstOfEachSeen(records[1..], seen + {first}, id);
        assert seen + {id} + {first} == seen + {first} + {id};
      }
    }
  }

  lemma {:induction false} OthersAbsent(records: seq<Record>, id: string)
    requires forall r :: r in records ==> r.id != id
    ensures Others(records, id) == records
    decreases |records|
  {
    if records != [] {
      assert records[0] in records && forall r :: r in records[1..] ==> r in records;
      OthersAbsent(records[1..], id);
    }
  }

  /** Cutting a list of distinct ids before removing one leaves enough: the first n records of
      what remains need at most the first n + 1 of the original. */
  lemma {:induction false} CutThenRemove(records: seq<Record>, id: string, n: nat)
    requires DistinctIds(records) && n < |records|
    ensures var a := Others(records[..n + 1], id);
            var b := Others(records, id);
            |a| >= n && |b| >= n && a[..n] == b[..n]
    decreases |records|
  {
    assert records[..n + 1][0] == records[0] && records[..n + 1][1..] == records[1..][..n];
    if records[0].id == id {
      forall r | r in records[1..] ensures r.id != id {
        var i :| 0 <= i < |records| - 1 && records[1..][i] == r;
        assert records[i + 1] == r;
      }
      OthersAbsent(records[1..], id);
      OthersAbsent(records[1..][..n], id);
    } else if n > 0 {
      CutThenRemove(records[1..], id, n - 1);
    }
  }

  /** Truncation never shows: the stored history is the first ten entries of the unbounded
      list, after any sequence of writes. */
  lemma {:induction false} HistoryIsNewestOfAll(written: seq<Record>)
    ensures History(written) == Newest(LatestPerId(written))
    decreases |written|
  {
    if written != [] {
      var last := written[|written| - 1];
      var before := written[..|written| - 1];
      HistoryIsNewestOfAll(before);
      var all := LatestPerId(before);
      FirstOfEachFacts(Reversed(before), {});
      var list := Reversed(written);
      assert list[0] == last && list[1..] == Reversed(before);
      FirstOfEachSeen(Reversed(before), {}, last.id);
      assert LatestPerId(written) == [last] + Others(all, last.id);
      if |all| > MAX_RECORDS {
        CutThenRemove(all, last.id, MAX_RECORDS - 1);
        var a, b := Others(Newest(all), last.id), Others(all, last.id);
        assert a[..MAX_RECORDS - 1] == b[..MAX_RECORDS - 1];
        FirstTen(last, a);
        FirstTen(last, b);
      }
    }
  }

  lemma FirstTen(first: Record, rest: seq<Record>)
    requires |rest| >= MAX_RECORDS - 1
    ensures Newest([first] + rest) == [first] + rest[..MAX_RECORDS - 1]
  {
  }

  // ----- the history, entry by entry --------------------------------------------------

  ghost function IdsOf(records: seq<Record>): set<string> {
    set r | r in records :: r.id
  }

  lemma IdsOfCons(records: seq<Record>)
    requires records != []
    ensures IdsOf(records) == {records[0].id} + IdsOf(records[1..])
  {
    assert records == [records[0]] + records[1..];
  }

  // Counting ids apart from those seen, one record further.
  lemma CountCons(records: seq<Record>, seen: set<string>)
    requires records != []
    ensures |IdsOf(records) - seen| ==
              if records[0].id in seen then |IdsOf(records[1..]) - seen|
              else 1 + |IdsOf(records[1..]) - (seen + {records[0].id})|
  {
    var first, rest := records[0].id, IdsOf(records[1..]);
    IdsOfCons(records);
    if first in seen {
      assert IdsOf(records) - seen == rest - seen;
    } else {
      assert IdsOf(records) - seen == {first} + (rest - (seen + {first}));
    }
  }

  ghost function CountBefore(records: seq<Record>, seen: set<string>, k: nat): nat
    requires k <= |records|
  {
    |IdsOf(records[..k]) - seen|
  }

  lemma CountBeforeStep(records: seq<Record>, seen: set<string>, k: nat)
    requires 0 < k <= |records|
    ensures CountBefore(records, seen, k) ==
              if records[0].id in seen then CountBefore(records[1..], seen, k - 1)
              else 1 + CountBefore(records[1..], seen + {records[0].id}, k - 1)
  {
    CountCons(records[..k], seen);
    assert records[..k][1..] == records[1..][..k - 1];
  }

  lemma CountBeforeNone(records: seq<Record>, seen: set<string>)
    ensures CountBefore(records, seen, 0) == 0
  {
    assert records[..0] == [] && IdsOf([]) - seen == {};
  }

  // Where the first record of an id lands.
  lemma {:induction false} FirstPlace(records: seq<Record>, seen: set<string>, k: nat)
    requires k < |records| && records[k].id !in seen && records[k].id !in IdsOf(records[..k])
    ensures CountBefore(records, seen, k) < |FirstOfEach(records, seen)|
    ensures FirstOfEach(records, seen)[CountBefore(records, seen, k)] == records[k]
    decreases k
  {
    if k == 0 {
      CountBeforeNone(records, seen);
    } else {
      PlaceInTail(records, seen, k);
      CountBeforeStep(records, seen, k);
      if records[0].id in seen {
        FirstPlace(records[1..], seen, k - 1);
      } else {
        FirstPlace(records[1..], seen + {records[0].id}, k - 1);
      }
    }
  }

  lemma PlaceInTail(records: seq<Record>, seen: set<string>, k: nat)
    requires 0 < k < |records| && records[k].id !in seen && records[k].id !in IdsOf(records[..k])
    ensures records[1..][k - 1] == records[k] && records[k].id != records[0].id
    ensures records[k].id !in IdsOf(records[1..][..k - 1])
  {
    IdsOfCons(records[..k]);
    assert records[..k][1..] == records[1..][..k - 1] && records[..k][0] == records[0];
  }

  lemma {:induction false} FirstCount(records: seq<Record>, seen: set<string>)
    ensures |FirstOfEach(records, seen)| == |IdsOf(records) - seen|
    decreases |records|
  {
    if records == [] {
      assert IdsOf(records) - seen == {};
    } else {
      var first := records[0].id;
      CountCons(records, seen);
      FirstCount(records[1..], if first in seen then seen else seen + {first});
    }
  }

  lemma {:induction false} ReversedAt(records: seq<Record>)
    ensures |Reversed(records)| == |records|
    ensures forall i :: 0 <= i < |records| ==> Reversed(records)[i] == records[|records| - 1 - i]
    decreases |records|
  {
    if records != [] {
      ReversedAt(records[..|records| - 1]);
    }
  }

  lemma LaterIds(records: seq<Record>, k: nat)
    requires k < |records|
    ensures IdsOf(Reversed(records)[..|records| - 1 - k]) == IdsOf(records[k + 1..])
  {
    ReversedAt(records);
    var back, later := Reversed(records)[..|records| - 1 - k], records[k + 1..];
    assert forall i :: 0 <= i < |back| ==> back[i] == later[|later| - 1 - i];
    assert forall i :: 0 <= i < |later| ==> later[i] == back[|back| - 1 - i];
    SameIds(back, later);
  }

  lemma SameIds(a: seq<Record>, b: seq<Record>)
    requires |a| == |b|
    requires forall i :: 0 <= i < |a| ==> a[i] == b[|b| - 1 - i]
    requires forall i :: 0 <= i < |b| ==> b[i] == a[|a| - 1 - i]
    ensures IdsOf(a) == IdsOf(b)
  {
    forall r | r in a ensures r in b {
      var i :| 0 <= i < |a| && a[i] == r;
      assert b[|b| - 1 - i] == r;
    }
    forall r | r in b ensures r in a {
      var i :| 0 <= i < |b| && b[i] == r;
      assert a[|a| - 1 - i] == r;
    }
  }

  lemma AllIds(records: seq<Record>)
    ensures IdsOf(Reversed(records)) == IdsOf(records)
  {
    ReversedAt(records);
    assert forall i :: 0 <= i < |records| ==> records[i] == Reversed(records)[|records| - 1 - i];
    SameIds(Reversed(records), records);
  }

  /** The history, entry by entry: it has the ten most recent startups, or all of them if there are fewer,
      and the last record written for a startup stands right after those of the startups written later. */
  lemma HistoryExact(written: seq<Record>)
    ensures |History(written)| == if |IdsOf(written)| < 10 then |IdsOf(written)| else 10
    ensures forall k :: 0 <= k < |written| && written[k].id !in IdsOf(written[k + 1..]) ==>
              var place := |IdsOf(written[k + 1..])|;
              place < 10 ==> place < |History(written)| && History(written)[place] == written[k]
  {
    HistoryIsNewestOfAll(written);
    FirstCount(Reversed(written), {});
    AllIds(written);
    assert IdsOf(Reversed(written)) - {} == IdsOf(Reversed(written));
    forall k | 0 <= k < |written| && written[k].id !in IdsOf(written[k + 1..])
      ensures var place := |IdsOf(written[k + 1..])|;
              place < 10 ==> place < |History(written)| && History(written)[place] == written[k]
    {
      LatestPlace(written, k);
    }
  }

  lemma LatestPlace(written: seq<Record>, k: nat)
    requires k < |written| && written[k].id !in IdsOf(written[k + 1..])
    ensures var place := |IdsOf(written[k + 1..])|;
            place < |LatestPerId(written)| && LatestPerId(written)[place] == written[k]
  {
    ReversedAt(written);
    LaterIds(written, k);
    var m := |written| - 1 - k;
    FirstPlace(Reversed(written), {}, m);
    assert IdsOf(Reversed(written)[..m]) - {} == IdsOf(written[k + 1..]);
  }
}
