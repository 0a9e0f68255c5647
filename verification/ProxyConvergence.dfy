/** Whatever the system settings are, commas included, a chain of processes settles: from the
    second recomputation on, the proxy environment no longer changes. */
module ProxyConvergence {
  import opened Wrappers
  import opened ProxyEnvironment

  // ----- splitting a joined list ------------------------------------------------------

  function SplitAll(parts: seq<string>): seq<string> {
    if parts == [] then [] else Split(parts[0]) + SplitAll(parts[1..])
  }

  lemma {:induction false} SplitAtComma(a: string, tail: string, piece: string)
    ensures SplitFrom(a + "," + tail, piece) == SplitFrom(a, piece) + Split(tail)
    decreases |a|
  {
    var s := a + "," + tail;
    if a == "" {
      assert s[0] == ',' && s[1..] == tail;
    } else {
      assert s[0] == a[0] && s[1..] == a[1..] + "," + tail;
      if a[0] == ',' {
        SplitAtComma(a[1..], tail, "");
      } else {
        SplitAtComma(a[1..], tail, piece + [a[0]]);
      }
    }
  }

  /** Splitting a joined list splits each part. */
  lemma {:induction false} SplitJoinAll(parts: seq<string>)
    requires parts != []
    ensures Split(Join(parts)) == SplitAll(parts)
    decreases |parts|
  {
    if |parts| == 1 {
      assert SplitAll(parts[1..]) == [];
    } else {
      SplitAtComma(parts[0], Join(parts[1..]), "");
      SplitJoinAll(parts[1..]);
    }
  }

  lemma {:induction false} SplitAllConcat(a: seq<string>, b: seq<string>)
    ensures SplitAll(a + b) == SplitAll(a) + SplitAll(b)
    decreases |a|
  {
    if a == [] {
      assert a + b == b;
    } else {
      assert (a + b)[1..] == a[1..] + b;
      SplitAllConcat(a[1..], b);
    }
  }

  lemma {:induction false} SplitAllPlain(parts: seq<string>)
    requires forall part :: part in parts ==> Plain(part)
    ensures SplitAll(parts) == parts
    decreases |parts|
  {
    if parts != [] {
      assert parts[0] in parts && forall part :: part in parts[1..] ==> part in parts;
      SplitPiece(parts[0], "", "");
      assert "" + parts[0] == parts[0];
      SplitAllPlain(parts[1..]);
      assert [parts[0]] + parts[1..] == parts;
    }
  }

  lemma {:induction false} SplitAllNoCommas(parts: seq<string>)
    ensures forall piece :: piece in SplitAll(parts) ==> ',' !in piece
    decreases |parts|
  {
    if parts != [] {
      SplitHasNoCommas(parts[0], "");
      SplitAllNoCommas(parts[1..]);
    }
  }

  // ----- lower case commutes with splitting and trimming ------------------------------

  function LowerAll(values: seq<string>): seq<string> {
    seq(|values|, i requires 0 <= i < |values| => LowerCase(values[i]))
  }

  lemma LowerChar(c: char)
    ensures IsSpace(Lower(c)) <==> IsSpace(c)
    ensures Lower(c) == ',' <==> c == ','
  {
  }

  lemma {:induction false} LowerTrimStart(s: string)
    ensures TrimStart(LowerCase(s)) == LowerCase(TrimStart(s))
  {
    if s != "" {
      LowerChar(s[0]);
      assert LowerCase(s)[1..] == LowerCase(s[1..]);
      LowerTrimStart(s[1..]);
    }
  }

  lemma {:induction false} LowerTrimEnd(s: string)
    ensures TrimEnd(LowerCase(s)) == LowerCase(TrimEnd(s))
  {
    if s != "" {
      LowerChar(s[|s| - 1]);
      assert LowerCase(s)[..|s| - 1] == LowerCase(s[..|s| - 1]);
      LowerTrimEnd(s[..|s| - 1]);
    }
  }

  lemma {:induction false} LowerSplit(s: string, piece: string)
    ensures SplitFrom(LowerCase(s), LowerCase(piece)) == LowerAll(SplitFrom(s, piece))
    decreases |s|
  {
    if s != "" {
      LowerChar(s[0]);
      assert LowerCase(s)[1..] == LowerCase(s[1..]);
      if s[0] == ',' {
        LowerSplit(s[1..], "");
        assert LowerCase("") == "";
        assert LowerAll([piece] + SplitFrom(s[1..], "")) == [LowerCase(piece)] + LowerAll(SplitFrom(s[1..], ""));
      } else {
        LowerSplit(s[1..], piece + [s[0]]);
        assert LowerCase(piece + [s[0]]) == LowerCase(piece) + [Lower(s[0])];
      }
    }
  }

  lemma {:induction false} LowerTidy(values: seq<string>)
    ensures Tidy(LowerAll(values)) == LowerAll(Tidy(values))
    decreases |values|
  {
    if values != [] {
      LowerTrimStart(values[0]);
      LowerTrimEnd(TrimStart(values[0]));
      assert LowerAll(values)[1..] == LowerAll(values[1..]);
      LowerTidy(values[1..]);
    }
  }

  lemma LowerKeys(values: seq<string>)
    ensures Keys(values) == set value | value in LowerAll(values)
  {
    forall value | value in values ensures LowerCase(value) in LowerAll(values) {
      var i :| 0 <= i < |values| && values[i] == value;
      assert LowerAll(values)[i] == LowerCase(value);
    }
  }

  /** Two spellings that differ only in ASCII case have the same pieces up to case. */
  lemma SameKeySamePieces(a: string, b: string)
    requires LowerCase(a) == LowerCase(b)
    ensures Keys(Tidy(Split(a))) == Keys(Tidy(Split(b)))
  {
    assert LowerCase("") == "";
    LowerSplit(a, "");
    LowerSplit(b, "");
    LowerTidy(Split(a));
    LowerTidy(Split(b));
    LowerKeys(Tidy(Split(a)));
    LowerKeys(Tidy(Split(b)));
  }

  // ----- deduplicating in two parts ---------------------------------------------------

  lemma {:induction false} UniqueConcat(a: seq<string>, b: seq<string>, seen: set<string>)
    ensures Unique(a + b, seen) == Unique(a, seen) + Unique(b, seen + Keys(a))
    decreases |a|
  {
    if a == [] {
      assert a + b == b && seen + Keys(a) == seen;
    } else {
      var key := LowerCase(a[0]);
      assert (a + b)[1..] == a[1..] + b;
      assert Keys(a) == {key} + Keys(a[1..]);
      if key in seen {
        UniqueConcat(a[1..], b, seen);
        assert seen + Keys(a) == seen + Keys(a[1..]);
      } else {
        UniqueConcat(a[1..], b, seen + {key});
        assert seen + Keys(a) == seen + {key} + Keys(a[1..]);
      }
    }
  }

  lemma {:induction false} PiecesAmong(parts: seq<string>, part: string)
    requires part in parts
    ensures Keys(Tidy(Split(part))) <= Keys(Tidy(SplitAll(parts)))
    decreases |parts|
  {
    TidyConcat(Split(parts[0]), SplitAll(parts[1..]));
    var first, rest := Tidy(Split(parts[0])), Tidy(SplitAll(parts[1..]));
    assert Keys(first + rest) == Keys(first) + Keys(rest);
    if part != parts[0] {
      assert part in parts[1..];
      PiecesAmong(parts[1..], part);
    }
  }

  lemma {:induction false} PiecesCovered(parts: seq<string>, covered: set<string>)
    requires forall part :: part in parts ==> Keys(Tidy(Split(part))) <= covered
    ensures Keys(Tidy(SplitAll(parts))) <= covered
    decreases |parts|
  {
    if parts != [] {
      assert parts[0] in parts && forall part :: part in parts[1..] ==> part in parts;
      TidyConcat(Split(parts[0]), SplitAll(parts[1..]));
      var first, rest := Tidy(Split(parts[0])), Tidy(SplitAll(parts[1..]));
      assert Keys(first + rest) == Keys(first) + Keys(rest);
      PiecesCovered(parts[1..], covered);
    }
  }

  // ----- the list settles -------------------------------------------------------------

  // The list one process computes when both spellings hold `list` joined, with the tidied
  // system exceptions and local hosts `own`.
  function NextList(list: seq<string>, own: seq<string>): seq<string> {
    Unique(Tidy(SplitAll(list)) + Tidy(SplitAll(list)) + own, {})
  }

  lemma UniqueTwice(pieces: seq<string>, own: seq<string>)
    ensures Unique(pieces + pieces + own, {}) == Unique(pieces, {}) + Unique(own, Keys(pieces))
  {
    var all := pieces + pieces;
    assert Keys(all) == Keys(pieces);
    UniqueConcat(all, own, {});
    UniqueConcat(pieces, pieces, {});
    assert {} + Keys(pieces) == Keys(pieces);
    UniqueSkips(pieces, Keys(pieces));
  }

  /** A list that already covers `own` up to case is mapped to a fixed point. */
  lemma ListSettles(list: seq<string>, own: seq<string>)
    requires Keys(own) <= Keys(list)
    ensures var next := NextList(list, own); NextList(next, own) == next
  {
    var pieces := Tidy(SplitAll(list));
    var plain, extra := Unique(pieces, {}), Unique(own, Keys(pieces));
    UniqueTwice(pieces, own);
    SplitAllNoCommas(list);
    TidyPlain(SplitAll(list));
    UniqueFacts(pieces, {});
    UniqueFacts(own, Keys(pieces));
    assert Keys(plain) == Keys(pieces);
    ExtraCovered(list, own, extra);
    PiecesAgain(plain, extra);
    UniqueTwice(Tidy(SplitAll(plain + extra)), own);
  }

  // The pieces of a plain distinct list and what follows it, when that adds no new key.
  lemma PiecesAgain(plain: seq<string>, extra: seq<string>)
    requires (forall value :: value in plain ==> Plain(value)) && DistinctKeys(plain)
    requires Keys(Tidy(SplitAll(extra))) <= Keys(plain)
    ensures var again := Tidy(SplitAll(plain + extra));
            Keys(again) == Keys(plain) && Unique(again, {}) == plain
  {
    var rest := Tidy(SplitAll(extra));
    SplitAllConcat(plain, extra);
    SplitAllPlain(plain);
    TidyConcat(plain, SplitAll(extra));
    TidyIdentity(plain);
    assert Keys(plain + rest) == Keys(plain) + Keys(rest);
    UniquePrefix(plain, rest, {});
  }

  // What the system adds again falls into pieces the list already has.
  lemma ExtraCovered(list: seq<string>, own: seq<string>, extra: seq<string>)
    requires Keys(own) <= Keys(list) && forall e :: e in extra ==> e in own
    ensures Keys(Tidy(SplitAll(extra))) <= Keys(Tidy(SplitAll(list)))
  {
    forall e | e in extra ensures Keys(Tidy(Split(e))) <= Keys(Tidy(SplitAll(list))) {
      assert LowerCase(e) in Keys(own);
      var r :| r in list && LowerCase(r) == LowerCase(e);
      SameKeySamePieces(e, r);
      PiecesAmong(list, r);
    }
    PiecesCovered(extra, Keys(Tidy(SplitAll(list))));
  }

  // Both spellings in `names` hold this list.
  predicate HoldsList(names: map<Variable, string>, list: seq<string>) {
    && NoProxy(true) in names && NoProxy(false) in names
    && names[NoProxy(true)] == Join(list) && names[NoProxy(false)] == Join(list)
  }

  lemma ExceptionsNext(names: map<Variable, string>, list: seq<string>, system: Option<Settings>)
    requires list != [] && HoldsList(names, list)
    ensures Exceptions(names, system) == NextList(list, Tidy(SystemExceptions(system) + LOCAL_HOSTS))
  {
    var b := SystemExceptions(system) + LOCAL_HOSTS;
    var pieces := SplitAll(list);
    SplitJoinAll(list);
    assert Gathered(names, system) == pieces + (pieces + b);
    TidyConcat(pieces, pieces + b);
    TidyConcat(pieces, b);
    assert Tidy(pieces) + (Tidy(pieces) + Tidy(b)) == Tidy(pieces) + Tidy(pieces) + Tidy(b);
  }

  lemma ExceptionsCoverOwn(names: map<Variable, string>, system: Option<Settings>)
    ensures Exceptions(names, system) != []
    ensures Keys(Tidy(SystemExceptions(system) + LOCAL_HOSTS)) <= Keys(Exceptions(names, system))
  {
    var a := Pieces(names, NoProxy(true)) + Pieces(names, NoProxy(false));
    var b := SystemExceptions(system) + LOCAL_HOSTS;
    assert Gathered(names, system) == a + b;
    TidyConcat(a, b);
    UniqueFacts(Tidy(a) + Tidy(b), {});
    assert Keys(Tidy(a) + Tidy(b)) == Keys(Tidy(a)) + Keys(Tidy(b));
    LocalHostsExempt(names, system);
    assert LOCAL_HOSTS[0] in LOCAL_HOSTS && LowerCase(LOCAL_HOSTS[0]) in Keys(LOCAL_HOSTS);
  }

  lemma OutputHoldsList(names: map<Variable, string>, system: Option<Settings>)
    requires NoProxyPair(names, system) != []
    ensures HoldsList(Output(names, system), Exceptions(names, system))
  {
    var pair := NoProxyPair(names, system);
    OutputLookup(names, system, NoProxy(true));
    OutputLookup(names, system, NoProxy(false));
    PairMap(pair[0], pair[1]);
  }

  lemma NoProxySettles(names: map<Variable, string>, first: map<Variable, string>, second: map<Variable, string>,
                       system: Option<Settings>)
    requires ReadBack(names, first, system) && ReadBack(first, second, system)
    requires ProxyPairs(first, system) == ProxyPairs(names, system)
        && ProxyPairs(second, system) == ProxyPairs(first, system)
    ensures NoProxyPair(second, system) == NoProxyPair(first, system)
  {
    OutputLookup(names, system, NoProxy(true));
    OutputLookup(names, system, NoProxy(false));
    OutputLookup(first, system, NoProxy(true));
    OutputLookup(first, system, NoProxy(false));
    if NoProxyPair(first, system) != [] {
      OutputHoldsList(names, system);
      OutputHoldsList(first, system);
      ExceptionsCoverOwn(names, system);
      ExceptionsCoverOwn(first, system);
      ExceptionsNext(first, Exceptions(names, system), system);
      ExceptionsNext(second, Exceptions(first, system), system);
      ListSettles(Exceptions(names, system), Tidy(SystemExceptions(system) + LOCAL_HOSTS));
    }
  }

  /** For every inherited environment and every system setting, the second recomputation is a
      fixed point: all later processes in a chain agree with it. */
  lemma ChainSettles(inherited: Environment, system: Option<Settings>)
    ensures var once := ProxyEnvironmentFrom(inherited, system);
            var twice := ProxyEnvironmentFrom(once, system);
            ProxyEnvironmentFrom(twice, system) == twice
  {
    var names := AsMap(inherited);
    var first := AsMap(ProxyEnvironmentFrom(inherited, system));
    var second := Output(first, system);
    PairsAgain(names, first, system);
    PairsAgain(first, second, system);
    NoProxySettles(names, first, second, system);
    NodeSwitchAgain(first, second, system);
  }

  lemma PairsAgain(names: map<Variable, string>, again: map<Variable, string>, system: Option<Settings>)
    requires ReadBack(names, again, system)
    ensures ProxyPairs(again, system) == ProxyPairs(names, system)
  {
    ProxyPairAgain(names, again, Http, system);
    ProxyPairAgain(names, again, Https, system);
    ProxyPairAgain(names, again, All, system);
  }

  // ----- when one recomputation is enough ---------------------------------------------

  lemma {:induction false} JoinSplit(s: string, piece: string)
    ensures SplitFrom(s, piece) != [] && Join(SplitFrom(s, piece)) == piece + s
    decreases |s|
  {
    if s != "" {
      if s[0] == ',' {
        JoinSplit(s[1..], "");
        var rest := SplitFrom(s[1..], "");
        assert ([piece] + rest)[1..] == rest;
        assert piece + "," + ("" + s[1..]) == piece + s;
      } else {
        JoinSplit(s[1..], piece + [s[0]]);
        assert piece + [s[0]] + s[1..] == piece + s;
      }
    }
  }

  // Two lists print alike exactly when they have the same pieces between commas.
  lemma SameJoin(a: seq<string>, b: seq<string>)
    requires a != [] && b != []
    ensures Join(a) == Join(b) <==> SplitAll(a) == SplitAll(b)
  {
    SplitJoinAll(a);
    SplitJoinAll(b);
    JoinSplit(Join(a), "");
    JoinSplit(Join(b), "");
    assert "" + Join(a) == Join(a) && "" + Join(b) == Join(b);
  }

  /** The pieces of the list are already distinct and tidy, and after them come only the pieces of
      own values the list does not show as one piece. */
  predicate Settled(list: seq<string>, own: seq<string>) {
    var pieces := SplitAll(list);
    pieces == Unique(Tidy(pieces), {}) + SplitAll(Unique(own, Keys(Tidy(pieces))))
  }

  lemma SettledIff(list: seq<string>, own: seq<string>)
    requires list != [] && NextList(list, own) != []
    ensures Join(NextList(list, own)) == Join(list) <==> Settled(list, own)
  {
    var pieces := Tidy(SplitAll(list));
    UniqueTwice(pieces, own);
    SplitAllNoCommas(list);
    TidyPlain(SplitAll(list));
    UniqueFacts(pieces, {});
    SplitAllConcat(Unique(pieces, {}), Unique(own, Keys(pieces)));
    SplitAllPlain(Unique(pieces, {}));
    SameJoin(NextList(list, own), list);
  }

  lemma NoProxyStableIff(names: map<Variable, string>, first: map<Variable, string>, system: Option<Settings>)
    requires ReadBack(names, first, system) && ProxyPairs(first, system) == ProxyPairs(names, system)
    ensures NoProxyPair(first, system) == NoProxyPair(names, system) <==>
              NoProxyPair(names, system) == []
              || Settled(Exceptions(names, system), Tidy(SystemExceptions(system) + LOCAL_HOSTS))
  {
    OutputLookup(names, system, NoProxy(true));
    OutputLookup(names, system, NoProxy(false));
    if NoProxyPair(names, system) != [] {
      OutputHoldsList(names, system);
      ExceptionsCoverOwn(names, system);
      ExceptionsCoverOwn(first, system);
      ExceptionsNext(first, Exceptions(names, system), system);
      SettledIff(Exceptions(names, system), Tidy(SystemExceptions(system) + LOCAL_HOSTS));
    }
  }

  /** Exactly when the first output is already a fixed point, for every inherited environment and
      every system setting: when it lists no exceptions, or its list is settled. */
  lemma FirstOutputStableIff(inherited: Environment, system: Option<Settings>)
    ensures var once := ProxyEnvironmentFrom(inherited, system);
            var names := AsMap(inherited);
            ProxyEnvironmentFrom(once, system) == once <==>
              NoProxyPair(names, system) == []
              || Settled(Exceptions(names, system), Tidy(SystemExceptions(system) + LOCAL_HOSTS))
  {
    var names := AsMap(inherited);
    var first := AsMap(ProxyEnvironmentFrom(inherited, system));
    PairsAgain(names, first, system);
    NoProxyStableIff(names, first, system);
    NodeSwitchAgain(names, first, system);
    SamePrefix(ProxyPairs(names, system), NoProxyPair(names, system), NoProxyPair(first, system),
               NodeSwitch(names, system));
  }

  lemma SamePrefix(a: Environment, b: Environment, c: Environment, d: Environment)
    ensures a + b + d == a + c + d <==> b == c
  {
    if a + b + d == a + c + d {
      assert |b| == |c|;
      forall i | 0 <= i < |b| ensures b[i] == c[i] {
        assert (a + b + d)[|a| + i] == b[i] && (a + c + d)[|a| + i] == c[i];
      }
    }
  }

  // ----- commas that do no harm -------------------------------------------------------

  /** From position `m` on, every gathered value is new only if it has a comma, and the pieces of such
      a value are gathered before `m`, where no value has a comma. */
  ghost predicate CommasLast(gathered: seq<string>, m: nat)
    requires m <= |gathered|
  {
    && (forall value :: value in gathered[..m] ==> ',' !in value)
    && (forall value :: value in gathered[m..] ==>
          if ',' in value then Keys(Tidy(Split(value))) <= Keys(gathered[..m])
          else LowerCase(value) in Keys(gathered[..m]))
  }

  /** A condition on the inherited variables and the settings, before anything is computed: the
      values with commas come last and say nothing new. It holds when there are none. */
  ghost predicate HarmlessCommas(names: map<Variable, string>, system: Option<Settings>) {
    exists m :: 0 <= m <= |Tidy(Gathered(names, system))| && CommasLast(Tidy(Gathered(names, system)), m)
  }

  // Raising the keys already seen by those of a first part of the result leaves the rest.
  lemma {:induction false} UniqueRest(values: seq<string>, seen: set<string>, first: seq<string>, rest: seq<string>)
    requires Unique(values, seen) == first + rest
    ensures Unique(values, seen + Keys(first)) == rest
    decreases |values|
  {
    if first == [] {
      assert seen + Keys(first) == seen && first + rest == rest;
    } else {
      var key := LowerCase(values[0]);
      if key in seen {
        UniqueRest(values[1..], seen, first, rest);
      } else {
        assert (first + rest)[0] == first[0] && (first + rest)[1..] == first[1..] + rest;
        assert Unique(values, seen) == [values[0]] + Unique(values[1..], seen + {key});
        assert Unique(values, seen)[0] == values[0] && Unique(values, seen)[1..] == Unique(values[1..], seen + {key});
        assert Keys(first) == {key} + Keys(first[1..]);
        UniqueRest(values[1..], seen + {key}, first[1..], rest);
        assert seen + {key} + Keys(first[1..]) == seen + Keys(first);
      }
    }
  }

  // The comma values that are kept are the ones the settings add again.
  lemma AddedAgain(a: seq<string>, own: seq<string>, plain: seq<string>, extra: seq<string>)
    requires Unique(a + own, {}) == plain + extra
    requires forall value :: value in a + plain ==> ',' !in value
    requires forall value :: value in extra ==> ',' in value
    ensures Unique(own, Keys(plain)) == extra
  {
    UniqueConcat(a, own, {});
    assert {} + Keys(a) == Keys(a);
    var kept, added := Unique(a, {}), Unique(own, Keys(a));
    UniqueFacts(a, {});
    KeptFirst(kept, added, plain, extra);
    var middle := plain[|kept|..];
    assert plain == kept + middle;
    assert added == middle + extra;
    UniqueRest(own, Keys(a), middle, extra);
    assert Keys(plain) == Keys(kept) + Keys(middle);
  }

  lemma KeptFirst(kept: seq<string>, added: seq<string>, plain: seq<string>, extra: seq<string>)
    requires kept + added == plain + extra
    requires (forall value :: value in kept ==> ',' !in value) && (forall value :: value in extra ==> ',' in value)
    ensures |kept| <= |plain| && plain[..|kept|] == kept && added == plain[|kept|..] + extra
  {
    if kept != [] {
      var last := |kept| - 1;
      var value := (plain + extra)[last];
      assert value == (kept + added)[last] == kept[last] && kept[last] in kept;
      assert last < |plain| || value in extra;
      assert last < |plain|;
    }
    assert forall i :: 0 <= i < |kept| ==> kept[i] == (kept + added)[i] == (plain + extra)[i] == plain[i];
    assert (kept + added)[|kept|..] == added;
    assert (plain + extra)[|kept|..] == plain[|kept|..] + extra;
  }

  // The list printed for such values, and what it splits into.
  lemma HarmlessList(gathered: seq<string>, m: nat) returns (plain: seq<string>, extra: seq<string>)
    requires m <= |gathered| && CommasLast(gathered, m)
    requires forall value :: value in gathered ==> value != "" && Trim(value) == value
    ensures Unique(gathered, {}) == plain + extra
    ensures (forall value :: value in plain ==> Plain(value)) && DistinctKeys(plain)
    ensures forall value :: value in extra ==> ',' in value
    ensures Keys(Tidy(SplitAll(extra))) <= Keys(plain)
  {
    var head, tail := gathered[..m], gathered[m..];
    assert gathered == head + tail;
    UniqueConcat(head, tail, {});
    assert {} + Keys(head) == Keys(head);
    plain, extra := Unique(head, {}), Unique(tail, Keys(head));
    UniqueFacts(head, {});
    UniqueFacts(tail, Keys(head));
    forall value | value in plain ensures Plain(value) {
      assert value in head && value in gathered;
    }
    forall value | value in extra ensures ',' in value && Keys(Tidy(Split(value))) <= Keys(plain) {
      assert value in tail && LowerCase(value) !in Keys(head);
    }
    PiecesCovered(extra, Keys(plain));
  }

  lemma HarmlessSettled(a: seq<string>, own: seq<string>, plain: seq<string>, extra: seq<string>)
    requires Unique(a + own, {}) == plain + extra && forall value :: value in a ==> ',' !in value
    requires (forall value :: value in plain ==> Plain(value)) && DistinctKeys(plain)
    requires forall value :: value in extra ==> ',' in value
    requires Keys(Tidy(SplitAll(extra))) <= Keys(plain)
    ensures Settled(plain + extra, own)
  {
    SplitAllConcat(plain, extra);
    SplitAllPlain(plain);
    PiecesAgain(plain, extra);
    AddedAgain(a, own, plain, extra);
  }

  /** Harmless commas keep the first output a fixed point; settings without commas are a special
      case. */
  lemma HarmlessCommasStable(inherited: Environment, system: Option<Settings>)
    requires HarmlessCommas(AsMap(inherited), system)
    ensures var once := ProxyEnvironmentFrom(inherited, system);
            ProxyEnvironmentFrom(once, system) == once
  {
    var names := AsMap(inherited);
    var gathered := Tidy(Gathered(names, system));
    var m :| 0 <= m <= |gathered| && CommasLast(gathered, m);
    TidyTrimmed(Gathered(names, system));
    var plain, extra := HarmlessList(gathered, m);
    var a := Pieces(names, NoProxy(true)) + Pieces(names, NoProxy(false));
    var own := SystemExceptions(system) + LOCAL_HOSTS;
    assert Gathered(names, system) == a + own;
    TidyConcat(a, own);
    PiecesHaveNoCommas(names, NoProxy(true));
    PiecesHaveNoCommas(names, NoProxy(false));
    TidyPlain(a);
    HarmlessSettled(Tidy(a), Tidy(own), plain, extra);
    FirstOutputStableIff(inherited, system);
  }

  lemma {:induction false} TidyTrimmed(values: seq<string>)
    ensures forall value :: value in Tidy(values) ==> value != "" && Trim(value) == value
  {
    if values != [] {
      TidyTrimmed(values[1..]);
      TrimStable(values[0]);
    }
  }

  lemma CommaFreeIsHarmless(names: map<Variable, string>, system: Option<Settings>)
    requires CommaFree(system)
    ensures HarmlessCommas(names, system)
  {
    var gathered := Tidy(Gathered(names, system));
    PiecesHaveNoCommas(names, NoProxy(true));
    PiecesHaveNoCommas(names, NoProxy(false));
    LocalHostsPlain();
    TidyPlain(Gathered(names, system));
    assert gathered[..|gathered|] == gathered;
    assert CommasLast(gathered, |gathered|);
  }
}
