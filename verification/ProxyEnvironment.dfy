/** The proxy variables handed to a child process, and why chained processes agree on them. */
module ProxyEnvironment {
  import opened Wrappers

  datatype Kind = Http | Https | All

  // Environment variable names: the upper- and lower-case spelling of each proxy variable.
  datatype Variable =
    | Proxy(kind: Kind, upper: bool)
    | NoProxy(upper: bool)
    | NodeUseEnvProxy
    | Other(name: string)

  type Environment = seq<(Variable, string)>

  datatype Settings = Settings(proxies: map<Kind, string>, exceptions: seq<string>)

  // ----- text -------------------------------------------------------------------------

  // The White_Space code points.
  predicate IsSpace(c: char) {
    var n := c as int;
    || 9 <= n <= 13 || n == 0x20 || n == 0x85 || n == 0xA0 || n == 0x1680
    || 0x2000 <= n <= 0x200A || n == 0x2028 || n == 0x2029 || n == 0x202F || n == 0x205F || n == 0x3000
  }

  function TrimStart(s: string): string {
    if s != "" && IsSpace(s[0]) then TrimStart(s[1..]) else s
  }

  function TrimEnd(s: string): string {
    if s != "" && IsSpace(s[|s| - 1]) then TrimEnd(s[..|s| - 1]) else s
  }

  function Trim(s: string): string {
    TrimEnd(TrimStart(s))
  }

  function Lower(c: char): char {
    if 'A' <= c <= 'Z' then (c as int + 32) as char else c
  }

  function LowerCase(s: string): string {
    seq(|s|, i requires 0 <= i < |s| => Lower(s[i]))
  }

  /** Pieces between commas; the text before the first comma is collected in `piece`. */
  function SplitFrom(s: string, piece: string): seq<string>
    decreases |s|
  {
    if s == "" then [piece]
    else if s[0] == ',' then [piece] + SplitFrom(s[1..], "")
    else SplitFrom(s[1..], piece + [s[0]])
  }

  function Split(s: string): seq<string> {
    SplitFrom(s, "")
  }

  function Join(parts: seq<string>): string {
    if parts == [] then ""
    else if |parts| == 1 then parts[0]
    else parts[0] + "," + Join(parts[1..])
  }

  // ----- exceptions -------------------------------------------------------------------

  const LOCAL_HOSTS := ["localhost", "127.0.0.1", "::1"]

  function Tidy(values: seq<string>): seq<string> {
    if values == [] then []
    else
      var value := Trim(values[0]);
      (if value == "" then [] else [value]) + Tidy(values[1..])
  }

  /** Keeps the first of the values that differ only in ASCII case. */
  function Unique(values: seq<string>, seen: set<string>): seq<string>
    decreases |values|
  {
    if values == [] then []
    else
      var key := LowerCase(values[0]);
      if key in seen then Unique(values[1..], seen)
      else [values[0]] + Unique(values[1..], seen + {key})
  }

  function Pieces(inherited: map<Variable, string>, name: Variable): seq<string> {
    if name in inherited then Split(inherited[name]) else []
  }

  function SystemExceptions(system: Option<Settings>): seq<string> {
    if system.Some? then system.value.exceptions else []
  }

  function Gathered(inherited: map<Variable, string>, system: Option<Settings>): seq<string> {
    Pieces(inherited, NoProxy(true)) + Pieces(inherited, NoProxy(false)) + SystemExceptions(system) + LOCAL_HOSTS
  }

  function Exceptions(inherited: map<Variable, string>, system: Option<Settings>): seq<string> {
    Unique(Tidy(Gathered(inherited, system)), {})
  }

  // ----- the environment --------------------------------------------------------------

  /** The last value given to a name wins. */
  function AsMap(environment: Environment): map<Variable, string> {
    if environment == [] then map[]
    else
      var last := environment[|environment| - 1];
      AsMap(environment[..|environment| - 1])[last.0 := last.1]
  }

  function ProxyPair(inherited: map<Variable, string>, kind: Kind, system: Option<Settings>): Environment {
    var upper, lower := Proxy(kind, true), Proxy(kind, false);
    if upper in inherited && lower in inherited then [(upper, inherited[upper]), (lower, inherited[lower])]
    else if upper in inherited then [(upper, inherited[upper]), (lower, inherited[upper])]
    else if lower in inherited then [(upper, inherited[lower]), (lower, inherited[lower])]
    else if system.Some? && kind in system.value.proxies then
      [(upper, system.value.proxies[kind]), (lower, system.value.proxies[kind])]
    else []
  }

  function ProxyPairs(inherited: map<Variable, string>, system: Option<Settings>): Environment {
    ProxyPair(inherited, Http, system) + ProxyPair(inherited, Https, system) + ProxyPair(inherited, All, system)
  }

  // Only the upper-case spelling decides whether a proxy is active.
  predicate Active(environment: Environment) {
    exists pair :: pair in environment && pair.0.Proxy? && pair.0.upper && pair.1 != ""
  }

  function NoProxyPair(inherited: map<Variable, string>, system: Option<Settings>): Environment {
    if Active(ProxyPairs(inherited, system)) || NoProxy(true) in inherited || NoProxy(false) in inherited then
      var value := Join(Exceptions(inherited, system));
      [(NoProxy(true), value), (NoProxy(false), value)]
    else []
  }

  function NodeSwitch(inherited: map<Variable, string>, system: Option<Settings>): Environment {
    if NodeUseEnvProxy in inherited then [(NodeUseEnvProxy, inherited[NodeUseEnvProxy])]
    else if Active(ProxyPairs(inherited, system)) then [(NodeUseEnvProxy, "1")]
    else []
  }

  function ProxyEnvironmentFrom(inherited: Environment, system: Option<Settings>): Environment {
    var names := AsMap(inherited);
    ProxyPairs(names, system) + NoProxyPair(names, system) + NodeSwitch(names, system)
  }

  /** Upper case comes first; a spelling keeps its own inherited value, then takes the other
      spelling's, and only without either the system's. */
  method AppendProxyPair(environment: Environment, inherited: map<Variable, string>, kind: Kind,
                         system: Option<Settings>)
    returns (extended: Environment)
    ensures extended == environment + ProxyPair(inherited, kind, system)
    ensures environment <= extended
    ensures var added := extended[|environment|..];
            var upper, lower := Proxy(kind, true), Proxy(kind, false);
            if upper !in inherited && lower !in inherited && (system.None? || kind !in system.value.proxies) then
              added == []
            else
              && |added| == 2 && added[0].0 == upper && added[1].0 == lower
              && (forall pair :: pair in added && pair.0 in inherited ==> pair.1 == inherited[pair.0])
              && ((upper in inherited <==> lower in inherited) || added[0].1 == added[1].1)
              && (upper !in inherited && lower !in inherited ==>
                    forall pair :: pair in added ==> pair.1 == system.value.proxies[kind])
  {
    var upper, lower := Proxy(kind, true), Proxy(kind, false);
    extended := environment;
    if upper in inherited && lower in inherited {
      extended := extended + [(upper, inherited[upper])];
      extended := extended + [(lower, inherited[lower])];
    } else if upper in inherited || lower in inherited {
      var value := if upper in inherited then inherited[upper] else inherited[lower];
      extended := extended + [(upper, value)];
      extended := extended + [(lower, value)];
    } else if system.Some? && kind in system.value.proxies {
      extended := extended + [(upper, system.value.proxies[kind])];
      extended := extended + [(lower, system.value.proxies[kind])];
    }
  }

  method Deduplicate(values: seq<string>) returns (kept: seq<string>)
    ensures kept == Unique(values, {})
  {
    kept := [];
    var seen: set<string> := {};
    for i := 0 to |values|
      invariant Unique(values, {}) == kept + Unique(values[i..], seen)
    {
      assert values[i..][0] == values[i] && values[i..][1..] == values[i + 1..];
      if LowerCase(values[i]) !in seen {
        kept := kept + [values[i]];
        seen := seen + {LowerCase(values[i])};
      }
    }
    assert values[|values|..] == [];
  }

  method ComputeProxyEnvironment(inherited: Environment, system: Option<Settings>) returns (environment: Environment)
    ensures environment == ProxyEnvironmentFrom(inherited, system)
  {
    var names := AsMap(inherited);
    environment := AppendProxyPairs(names, system);
    var active := Active(environment);
    var exceptions := Deduplicate(Tidy(Gathered(names, system)));
    environment := AppendNoProxy(environment, names, active, exceptions, system);
    environment := AppendNodeSwitch(environment, names, active, system);
  }

  method AppendNodeSwitch(environment: Environment, names: map<Variable, string>, active: bool,
                          ghost system: Option<Settings>)
    returns (extended: Environment)
    requires active == Active(ProxyPairs(names, system))
    ensures extended == environment + NodeSwitch(names, system)
  {
    extended := environment;
    if NodeUseEnvProxy in names {
      extended := extended + [(NodeUseEnvProxy, names[NodeUseEnvProxy])];
    } else if active {
      extended := extended + [(NodeUseEnvProxy, "1")];
    }
  }

  method AppendProxyPairs(names: map<Variable, string>, system: Option<Settings>) returns (environment: Environment)
    ensures environment == ProxyPairs(names, system)
  {
    environment := AppendProxyPair([], names, Http, system);
    environment := AppendProxyPair(environment, names, Https, system);
    environment := AppendProxyPair(environment, names, All, system);
  }

  method AppendNoProxy(environment: Environment, names: map<Variable, string>, active: bool,
                       exceptions: seq<string>, ghost system: Option<Settings>) returns (extended: Environment)
    requires active == Active(ProxyPairs(names, system)) && exceptions == Exceptions(names, system)
    ensures extended == environment + NoProxyPair(names, system)
  {
    extended := environment;
    if active || NoProxy(true) in names || NoProxy(false) in names {
      var value := Join(exceptions);
      extended := extended + [(NoProxy(true), value)];
      extended := extended + [(NoProxy(false), value)];
    }
  }

  // ----- the exception list is stable -------------------------------------------------

  predicate Plain(value: string) {
    value != "" && Trim(value) == value && ',' !in value
  }

  lemma {:induction false} TrimEndStable(s: string)
    ensures TrimEnd(TrimEnd(s)) == TrimEnd(s)
    ensures TrimEnd(s) <= s
  {
    if s != "" && IsSpace(s[|s| - 1]) {
      TrimEndStable(s[..|s| - 1]);
    }
  }

  lemma {:induction false} TrimStartFacts(s: string)
    ensures TrimStart(s) == "" || !IsSpace(TrimStart(s)[0])
    ensures forall c :: c in TrimStart(s) ==> c in s
  {
    if s != "" && IsSpace(s[0]) {
      TrimStartFacts(s[1..]);
    }
  }

  lemma TrimStable(s: string)
    ensures Trim(Trim(s)) == Trim(s)
    ensures forall c :: c in Trim(s) ==> c in s
  {
    var start := TrimStart(s);
    TrimStartFacts(s);
    TrimEndStable(start);
    assert forall c :: c in Trim(s) ==> c in start;
    if Trim(s) != "" {
      assert Trim(s)[0] == start[0];
    }
  }

  lemma {:induction false} SplitHasNoCommas(s: string, piece: string)
    requires ',' !in piece
    ensures forall part :: part in SplitFrom(s, piece) ==> ',' !in part
    decreases |s|
  {
    if s != "" {
      if s[0] == ',' {
        SplitHasNoCommas(s[1..], "");
      } else {
        SplitHasNoCommas(s[1..], piece + [s[0]]);
      }
    }
  }

  lemma {:induction false} SplitPiece(part: string, piece: string, tail: string)
    requires ',' !in part
    ensures SplitFrom(part + "," + tail, piece) == [piece + part] + Split(tail)
    ensures SplitFrom(part, piece) == [piece + part]
    decreases |part|
  {
    var s := part + "," + tail;
    if part == "" {
      assert s[0] == ',' && s[1..] == tail && piece + part == piece;
    } else {
      assert s[0] == part[0] && s[1..] == part[1..] + "," + tail;
      assert part[0] in part && forall c :: c in part[1..] ==> c in part;
      SplitPiece(part[1..], piece + [part[0]], tail);
      assert piece + [part[0]] + part[1..] == piece + part;
    }
  }

  /** Joining comma-free parts and splitting again is the identity. */
  lemma {:induction false} SplitJoin(parts: seq<string>)
    requires parts != [] && forall part :: part in parts ==> ',' !in part
    ensures Split(Join(parts)) == parts
    decreases |parts|
  {
    var first, rest := parts[0], parts[1..];
    assert first in parts && "" + first == first;
    if rest == [] {
      SplitPiece(first, "", "");
      assert parts == [first];
    } else {
      assert forall part :: part in rest ==> part in parts;
      SplitPiece(first, "", Join(rest));
      SplitJoin(rest);
      assert Join(parts) == first + "," + Join(rest) && [first] + rest == parts;
    }
  }

  lemma {:induction false} TidyPlain(values: seq<string>)
    requires forall value :: value in values ==> ',' !in value
    ensures forall value :: value in Tidy(values) ==> Plain(value)
  {
    if values != [] {
      assert forall value :: value in values[1..] ==> value in values;
      TidyPlain(values[1..]);
      assert values[0] in values;
      TrimStable(values[0]);
    }
  }

  lemma {:induction false} TidyConcat(a: seq<string>, b: seq<string>)
    ensures Tidy(a + b) == Tidy(a) + Tidy(b)
    decreases |a|
  {
    if a == [] {
      assert a + b == b;
    } else {
      assert (a + b)[1..] == a[1..] + b;
      TidyConcat(a[1..], b);
    }
  }

  lemma {:induction false} TidyIdentity(values: seq<string>)
    requires forall value :: value in values ==> Plain(value)
    ensures Tidy(values) == values
  {
    if values != [] {
      assert values[0] in values && forall value :: value in values[1..] ==> value in values;
      TidyIdentity(values[1..]);
      assert [values[0]] + values[1..] == values;
    }
  }

  function Keys(values: seq<string>): set<string> {
    set value | value in values :: LowerCase(value)
  }

  ghost predicate DistinctKeys(values: seq<string>) {
    forall i, j :: 0 <= i < j < |values| ==> LowerCase(values[i]) != LowerCase(values[j])
  }

  /** Deduplication keeps one value per key, in order, and loses no key. */
  lemma {:induction false} UniqueFacts(values: seq<string>, seen: set<string>)
    ensures var kept := Unique(values, seen);
            && (forall value :: value in kept ==> value in values && LowerCase(value) !in seen)
            && DistinctKeys(kept)
            && Keys(kept) + seen == Keys(values) + seen
    decreases |values|
  {
    if values != [] {
      var key := LowerCase(values[0]);
      assert Keys(values) == {key} + Keys(values[1..]);
      if key in seen {
        UniqueFacts(values[1..], seen);
      } else {
        UniqueFacts(values[1..], seen + {key});
        var rest := Unique(values[1..], seen + {key});
        assert Keys([values[0]] + rest) == {key} + Keys(rest);
      }
    }
  }

  lemma {:induction false} UniqueSkips(values: seq<string>, seen: set<string>)
    requires Keys(values) <= seen
    ensures Unique(values, seen) == []
    decreases |values|
  {
    if values != [] {
      assert Keys(values) == {LowerCase(values[0])} + Keys(values[1..]);
      UniqueSkips(values[1..], seen);
    }
  }

  lemma {:induction false} UniquePrefix(values: seq<string>, rest: seq<string>, seen: set<string>)
    requires DistinctKeys(values) && (forall value :: value in values ==> LowerCase(value) !in seen)
    requires Keys(rest) <= seen + Keys(values)
    ensures Unique(values + rest, seen) == values
    decreases |values|
  {
    if values == [] {
      assert values + rest == rest;
      UniqueSkips(rest, seen);
    } else {
      var key := LowerCase(values[0]);
      assert values[0] in values && Keys(values) == {key} + Keys(values[1..]);
      assert (values + rest)[1..] == values[1..] + rest;
      UniquePrefix(values[1..], rest, seen + {key});
      assert [values[0]] + values[1..] == values;
    }
  }

  predicate CommaFree(system: Option<Settings>) {
    forall value :: value in SystemExceptions(system) ==> ',' !in value
  }

  lemma PiecesHaveNoCommas(inherited: map<Variable, string>, name: Variable)
    ensures forall part :: part in Pieces(inherited, name) ==> ',' !in part
  {
    if name in inherited {
      SplitHasNoCommas(inherited[name], "");
    }
  }

  lemma LocalHostsPlain()
    ensures forall host :: host in LOCAL_HOSTS ==> Plain(host)
  {
    assert Plain("localhost") && Plain("127.0.0.1") && Plain("::1");
  }

  lemma ExceptionsPlain(inherited: map<Variable, string>, system: Option<Settings>)
    requires CommaFree(system)
    ensures var list := Exceptions(inherited, system);
            && (forall value :: value in list ==> Plain(value)) && DistinctKeys(list) && list != []
            && Keys(Tidy(SystemExceptions(system) + LOCAL_HOSTS)) <= Keys(list)
  {
    var a := Pieces(inherited, NoProxy(true)) + Pieces(inherited, NoProxy(false));
    var b := SystemExceptions(system) + LOCAL_HOSTS;
    PiecesHaveNoCommas(inherited, NoProxy(true));
    PiecesHaveNoCommas(inherited, NoProxy(false));
    LocalHostsPlain();
    assert Gathered(inherited, system) == a + b;
    TidyConcat(a, b);
    TidyPlain(a + b);
    UniqueFacts(Tidy(a + b), {});
    TidyConcat(SystemExceptions(system), LOCAL_HOSTS);
    TidyIdentity(LOCAL_HOSTS);
    assert LOCAL_HOSTS[0] in Tidy(b);
    assert LowerCase(LOCAL_HOSTS[0]) in Keys(Tidy(b));
  }

  /** Feeding the joined list back through both spellings changes nothing. */
  lemma ExceptionsStable(inherited: map<Variable, string>, again: map<Variable, string>, system: Option<Settings>)
    requires CommaFree(system)
    requires var value := Join(Exceptions(inherited, system));
             && NoProxy(true) in again && again[NoProxy(true)] == value
             && NoProxy(false) in again && again[NoProxy(false)] == value
    ensures Exceptions(again, system) == Exceptions(inherited, system)
  {
    var list := Exceptions(inherited, system);
    var b := SystemExceptions(system) + LOCAL_HOSTS;
    ExceptionsPlain(inherited, system);
    SplitJoin(list);
    TidyConcat(SystemExceptions(system), LOCAL_HOSTS);
    assert Pieces(again, NoProxy(true)) == list && Pieces(again, NoProxy(false)) == list;
    GatheredAgain(list, SystemExceptions(system));
    UniqueAgain(list, b);
  }

  lemma GatheredAgain(list: seq<string>, exceptions: seq<string>)
    ensures list + list + exceptions + LOCAL_HOSTS == list + (list + (exceptions + LOCAL_HOSTS))
  {
  }

  lemma UniqueAgain(list: seq<string>, b: seq<string>)
    requires (forall value :: value in list ==> Plain(value)) && DistinctKeys(list)
    requires Keys(Tidy(b)) <= Keys(list)
    ensures Unique(Tidy(list + (list + b)), {}) == list
  {
    TidyConcat(list, list + b);
    TidyConcat(list, b);
    TidyIdentity(list);
    var rest := list + Tidy(b);
    forall key | key in Keys(rest) ensures key in Keys(list) {
      var value :| value in rest && LowerCase(value) == key;
      assert value in list || value in Tidy(b);
    }
    UniquePrefix(list, rest, {});
  }

  // ----- reading the output back as an environment ------------------------------------

  lemma {:induction false} AsMapConcat(a: Environment, b: Environment)
    ensures AsMap(a + b) == AsMap(a) + AsMap(b)
    decreases |b|
  {
    if b == [] {
      assert a + b == a;
    } else {
      assert (a + b)[..|a + b| - 1] == a + b[..|b| - 1];
      AsMapConcat(a, b[..|b| - 1]);
    }
  }

  lemma PairMap(x: (Variable, string), y: (Variable, string))
    requires x.0 != y.0
    ensures AsMap([x, y]) == map[x.0 := x.1, y.0 := y.1]
  {
    assert [x, y][..1] == [x];
    assert AsMap([x]) == map[x.0 := x.1] by { assert [x][..0] == []; }
  }

  lemma ProxyPairMap(inherited: map<Variable, string>, kind: Kind, system: Option<Settings>)
    ensures var pair := ProxyPair(inherited, kind, system);
            var names := AsMap(pair);
            if pair == [] then names == map[]
            else names == map[Proxy(kind, true) := pair[0].1, Proxy(kind, false) := pair[1].1]
                 && pair == [(Proxy(kind, true), pair[0].1), (Proxy(kind, false), pair[1].1)]
  {
    var pair := ProxyPair(inherited, kind, system);
    if pair != [] {
      assert pair == [pair[0], pair[1]];
      PairMap(pair[0], pair[1]);
    }
  }

  function Lookup(names: map<Variable, string>, v: Variable): Option<string> {
    if v in names then Some(names[v]) else None
  }

  function Output(names: map<Variable, string>, system: Option<Settings>): map<Variable, string> {
    AsMap(ProxyPairs(names, system) + NoProxyPair(names, system) + NodeSwitch(names, system))
  }

  // What the output says about a name, given what it was computed from.
  lemma OutputLookup(names: map<Variable, string>, system: Option<Settings>, v: Variable)
    ensures Lookup(Output(names, system), v) ==
            if v.Proxy? then
              Lookup(AsMap(if v.kind.Http? then ProxyPair(names, Http, system)
                           else if v.kind.Https? then ProxyPair(names, Https, system)
                           else ProxyPair(names, All, system)), v)
            else if v.NoProxy? then Lookup(AsMap(NoProxyPair(names, system)), v)
            else if v.NodeUseEnvProxy? then Lookup(AsMap(NodeSwitch(names, system)), v)
            else None
  {
    PartKeys(names, Http, system);
    PartKeys(names, Https, system);
    PartKeys(names, All, system);
    TailMaps(names, system);
    OutputOf(ProxyPair(names, Http, system), ProxyPair(names, Https, system), ProxyPair(names, All, system),
             NoProxyPair(names, system), NodeSwitch(names, system), v);
  }

  lemma OutputOf(h: Environment, s: Environment, a: Environment, n: Environment, d: Environment, v: Variable)
    requires (forall x :: x in AsMap(h) ==> x.Proxy? && x.kind == Http)
    requires (forall x :: x in AsMap(s) ==> x.Proxy? && x.kind == Https)
    requires (forall x :: x in AsMap(a) ==> x.Proxy? && x.kind == All)
    requires (forall x :: x in AsMap(n) ==> x.NoProxy?) && (forall x :: x in AsMap(d) ==> x.NodeUseEnvProxy?)
    ensures Lookup(AsMap(h + s + a + n + d), v) ==
            if v.Proxy? then Lookup(AsMap(if v.kind.Http? then h else if v.kind.Https? then s else a), v)
            else if v.NoProxy? then Lookup(AsMap(n), v)
            else if v.NodeUseEnvProxy? then Lookup(AsMap(d), v)
            else None
  {
    AsMapSum(h, s, a, n, d);
    Pick(AsMap(h), AsMap(s), AsMap(a), AsMap(n), AsMap(d), v);
  }

  lemma AsMapSum(h: Environment, s: Environment, a: Environment, n: Environment, d: Environment)
    ensures AsMap(h + s + a + n + d) == AsMap(h) + AsMap(s) + AsMap(a) + AsMap(n) + AsMap(d)
  {
    AsMapConcat(h + s + a + n, d);
    AsMapConcat(h + s + a, n);
    AsMapConcat(h + s, a);
    AsMapConcat(h, s);
  }

  lemma Pick(h: map<Variable, string>, s: map<Variable, string>, a: map<Variable, string>,
             n: map<Variable, string>, d: map<Variable, string>, v: Variable)
    requires (forall x :: x in h ==> x.Proxy? && x.kind.Http?) && (forall x :: x in s ==> x.Proxy? && x.kind.Https?)
    requires (forall x :: x in a ==> x.Proxy? && x.kind.All?)
    requires (forall x :: x in n ==> x.NoProxy?) && (forall x :: x in d ==> x.NodeUseEnvProxy?)
    ensures Lookup(h + s + a + n + d, v) ==
            if v.Proxy? then Lookup(if v.kind.Http? then h else if v.kind.Https? then s else a, v)
            else if v.NoProxy? then Lookup(n, v)
            else if v.NodeUseEnvProxy? then Lookup(d, v)
            else None
  {
  }

  lemma PartKeys(names: map<Variable, string>, kind: Kind, system: Option<Settings>)
    ensures forall x :: x in AsMap(ProxyPair(names, kind, system)) ==> x.Proxy? && x.kind == kind
  {
    ProxyPairMap(names, kind, system);
  }

  lemma TailMaps(names: map<Variable, string>, system: Option<Settings>)
    ensures forall v :: v in AsMap(NoProxyPair(names, system)) ==> v.NoProxy?
    ensures forall v :: v in AsMap(NodeSwitch(names, system)) ==> v.NodeUseEnvProxy?
  {
    var n, d := NoProxyPair(names, system), NodeSwitch(names, system);
    if n != [] {
      PairMap(n[0], n[1]);
    }
    if d != [] {
      assert d[..0] == [];
    }
  }

  // `again` is the output of a run over `names`, read back.
  predicate ReadBack(names: map<Variable, string>, again: map<Variable, string>, system: Option<Settings>) {
    again == Output(names, system)
  }

  lemma ProxyPairAgain(names: map<Variable, string>, again: map<Variable, string>, kind: Kind, system: Option<Settings>)
    requires ReadBack(names, again, system)
    ensures ProxyPair(again, kind, system) == ProxyPair(names, kind, system)
  {
    OutputLookup(names, system, Proxy(kind, true));
    OutputLookup(names, system, Proxy(kind, false));
    ProxyPairMap(names, kind, system);
  }

  lemma NoProxyAgain(names: map<Variable, string>, again: map<Variable, string>, system: Option<Settings>)
    requires ReadBack(names, again, system)
    requires CommaFree(system) && ProxyPairs(again, system) == ProxyPairs(names, system)
    ensures NoProxyPair(again, system) == NoProxyPair(names, system)
  {
    var pair := NoProxyPair(names, system);
    OutputLookup(names, system, NoProxy(true));
    OutputLookup(names, system, NoProxy(false));
    if pair != [] {
      PairMap(pair[0], pair[1]);
      ExceptionsStable(names, again, system);
    }
  }

  lemma NodeSwitchAgain(names: map<Variable, string>, again: map<Variable, string>, system: Option<Settings>)
    requires ReadBack(names, again, system) && ProxyPairs(again, system) == ProxyPairs(names, system)
    ensures NodeSwitch(again, system) == NodeSwitch(names, system)
  {
    OutputLookup(names, system, NodeUseEnvProxy);
    var node := NodeSwitch(names, system);
    if node != [] {
      assert node[..0] == [];
    }
  }

  /** `proxy_environment_from` is idempotent: a child that recomputes its proxy environment from
      the one it was given, under the same system settings, gets exactly the same list. */
  lemma ProxyEnvironmentIdempotent(inherited: Environment, system: Option<Settings>)
    requires CommaFree(system)
    ensures var once := ProxyEnvironmentFrom(inherited, system);
            ProxyEnvironmentFrom(once, system) == once
  {
    var names := AsMap(inherited);
    var again := AsMap(ProxyEnvironmentFrom(inherited, system));
    ProxyPairAgain(names, again, Http, system);
    ProxyPairAgain(names, again, Https, system);
    ProxyPairAgain(names, again, All, system);
    NoProxyAgain(names, again, system);
    NodeSwitchAgain(names, again, system);
  }

  /** Explicit variables always win, empty ones included: each spelling keeps its inherited
      value, and only a kind inherited in neither spelling can come from the system. */
  lemma ExplicitValuesWin(inherited: Environment, system: Option<Settings>, kind: Kind)
    ensures var names := AsMap(inherited);
            var out := AsMap(ProxyEnvironmentFrom(inherited, system));
            var upper, lower := Proxy(kind, true), Proxy(kind, false);
            && (upper in names ==> Lookup(out, upper) == Some(names[upper]))
            && (lower in names ==> Lookup(out, lower) == Some(names[lower]))
            && (upper in names && lower !in names ==> Lookup(out, lower) == Some(names[upper]))
            && (lower in names && upper !in names ==> Lookup(out, upper) == Some(names[lower]))
            && (upper !in names && lower !in names ==>
                  var fallback :=
                    if system.Some? && kind in system.value.proxies then Some(system.value.proxies[kind]) else None;
                  Lookup(out, upper) == fallback && Lookup(out, lower) == fallback)
  {
    var names := AsMap(inherited);
    OutputLookup(names, system, Proxy(kind, true));
    OutputLookup(names, system, Proxy(kind, false));
    ProxyPairMap(names, kind, system);
  }

  /** Whenever the output lists exceptions, the local hosts are among them, whatever their case. */
  lemma LocalHostsExempt(inherited: map<Variable, string>, system: Option<Settings>)
    ensures Keys(LOCAL_HOSTS) <= Keys(Exceptions(inherited, system))
  {
    var a := Pieces(inherited, NoProxy(true)) + Pieces(inherited, NoProxy(false)) + SystemExceptions(system);
    TidyConcat(a, LOCAL_HOSTS);
    LocalHostsPlain();
    TidyIdentity(LOCAL_HOSTS);
    UniqueFacts(Tidy(a + LOCAL_HOSTS), {});
    forall key | key in Keys(LOCAL_HOSTS) ensures key in Keys(Tidy(a + LOCAL_HOSTS)) {
      var host :| host in LOCAL_HOSTS && LowerCase(host) == key;
      assert host in Tidy(a + LOCAL_HOSTS);
    }
  }

  /** Without the premise it fails: a lone comma among the system exceptions is read back as
      two empty pieces, so the second process lists it after the local hosts. */
  lemma CommaBreaksIdempotence()
    ensures var system := Some(Settings(map[], [","]));
            var once := ProxyEnvironmentFrom([(NoProxy(true), "")], system);
            ProxyEnvironmentFrom(once, system) != once
  {
    var system := Some(Settings(map[], [","]));
    var inherited: Environment := [(NoProxy(true), "")];
    assert inherited[..0] == [];
    var names := AsMap(inherited);
    assert names == map[NoProxy(true) := ""];
    var value := Join([","] + LOCAL_HOSTS);
    CommaOnce(names, system);
    var once := [(NoProxy(true), value), (NoProxy(false), value)];
    assert ProxyEnvironmentFrom(inherited, system) == once;
    PairMap(once[0], once[1]);
    CommaTwice(AsMap(once), system, value);
    assert once[0].1 == value;
  }

  lemma CommaOnce(names: map<Variable, string>, system: Option<Settings>)
    requires names == map[NoProxy(true) := ""] && system == Some(Settings(map[], [","]))
    ensures var value := Join([","] + LOCAL_HOSTS);
            ProxyPairs(names, system) + NoProxyPair(names, system) + NodeSwitch(names, system) ==
            [(NoProxy(true), value), (NoProxy(false), value)]
  {
    assert ProxyPairs(names, system) == [];
    assert Gathered(names, system) == [""] + ([","] + LOCAL_HOSTS);
    CommaList();
  }

  lemma CommaTwice(again: map<Variable, string>, system: Option<Settings>, value: string)
    requires again == map[NoProxy(true) := value, NoProxy(false) := value]
    requires system == Some(Settings(map[], [","])) && value == Join([","] + LOCAL_HOSTS)
    ensures var twice := ProxyPairs(again, system) + NoProxyPair(again, system) + NodeSwitch(again, system);
            twice != [] && twice[0].1 != value
  {
    assert ProxyPairs(again, system) == [];
    SecondList(again, system, value);
    JoinStarts([","] + LOCAL_HOSTS);
    JoinStarts(Exceptions(again, system));
  }

  lemma JoinStarts(parts: seq<string>)
    requires parts != [] && parts[0] != ""
    ensures Join(parts) != "" && Join(parts)[0] == parts[0][0]
  {
  }

  lemma CommaList()
    ensures Unique(Tidy([""] + ([","] + LOCAL_HOSTS)), {}) == [","] + LOCAL_HOSTS
  {
    CommaTidy();
    FirstCharactersDiffer();
    DistinctStays([","] + LOCAL_HOSTS);
  }

  lemma CommaTidy()
    ensures Tidy([""] + ([","] + LOCAL_HOSTS)) == [","] + LOCAL_HOSTS
  {
    LocalHostsPlain();
    TidyConcat([""], [","] + LOCAL_HOSTS);
    TidyConcat([","], LOCAL_HOSTS);
    TidyIdentity(LOCAL_HOSTS);
    assert Trim("") == "" && Trim(",") == ",";
    assert Tidy([""]) == [] && Tidy([","]) == [","];
  }

  lemma DistinctStays(values: seq<string>)
    requires DistinctKeys(values)
    ensures Unique(values, {}) == values
  {
    assert values + [] == values;
    UniquePrefix(values, [], {});
  }

  lemma FirstCharactersDiffer()
    ensures DistinctKeys([","] + LOCAL_HOSTS)
  {
    var all := [","] + LOCAL_HOSTS;
    assert all[0] == "," && all[1] == "localhost" && all[2] == "127.0.0.1" && all[3] == "::1";
    assert LowerCase(all[0])[0] == ',' && LowerCase(all[1])[0] == 'l';
    assert LowerCase(all[2])[0] == '1' && LowerCase(all[3])[0] == ':';
  }

  lemma SecondList(again: map<Variable, string>, system: Option<Settings>, value: string)
    requires NoProxy(true) in again && again[NoProxy(true)] == value && value == Join([","] + LOCAL_HOSTS)
    ensures var list := Exceptions(again, system); list != [] && list[0] == "localhost"
  {
    SplitCommaList(value);
    var rest := Pieces(again, NoProxy(false)) + SystemExceptions(system) + LOCAL_HOSTS;
    assert Gathered(again, system) == ["", ""] + (LOCAL_HOSTS + rest);
    BlankPieces(LOCAL_HOSTS + rest);
    HostsFirst(rest);
    FirstSurvives(LOCAL_HOSTS + Tidy(rest));
  }

  lemma BlankPieces(values: seq<string>)
    ensures Tidy(["", ""] + values) == Tidy(values)
  {
    assert (["", ""] + values)[1..] == [""] + values && ([""] + values)[1..] == values;
    assert Tidy(["", ""] + values) == Tidy([""] + values);
  }

  lemma HostsFirst(rest: seq<string>)
    ensures Tidy(LOCAL_HOSTS + rest) == LOCAL_HOSTS + Tidy(rest)
  {
    TidyConcat(LOCAL_HOSTS, rest);
    LocalHostsPlain();
    TidyIdentity(LOCAL_HOSTS);
  }

  lemma FirstSurvives(values: seq<string>)
    requires values != []
    ensures Unique(values, {}) != [] && Unique(values, {})[0] == values[0]
  {
  }

  lemma SplitCommaList(value: string)
    requires value == Join([","] + LOCAL_HOSTS)
    ensures Split(value) == ["", ""] + LOCAL_HOSTS
  {
    var tail := Join(LOCAL_HOSTS);
    assert ([","] + LOCAL_HOSTS)[1..] == LOCAL_HOSTS;
    assert value == "" + "," + ("," + tail) && "," + tail == "" + "," + tail;
    SplitPiece("", "", "," + tail);
    SplitPiece("", "", tail);
    LocalHostsPlain();
    SplitJoin(LOCAL_HOSTS);
    assert [""] + ([""] + LOCAL_HOSTS) == ["", ""] + LOCAL_HOSTS;
  }

  // ----- the output, written out ------------------------------------------------------

  /** Some upper-case proxy variable of this environment has a value. */
  ghost predicate ProxyActive(out: map<Variable, string>) {
    exists kind :: Proxy(kind, true) in out && out[Proxy(kind, true)] != ""
  }

  /** The exception list and the switch: the list is there, in both spellings, exactly when a proxy is
      active or one spelling was inherited; the switch keeps its inherited value, or else is "1" exactly
      when a proxy is active. Nothing else is passed on. */
  lemma OutputExact(inherited: Environment, system: Option<Settings>)
    ensures var names := AsMap(inherited);
            var out := AsMap(ProxyEnvironmentFrom(inherited, system));
            var list := if ProxyActive(out) || NoProxy(true) in names || NoProxy(false) in names
                        then Some(Join(Exceptions(names, system))) else None;
            && Lookup(out, NoProxy(true)) == list && Lookup(out, NoProxy(false)) == list
            && Lookup(out, NodeUseEnvProxy) ==
                 (if NodeUseEnvProxy in names then Some(names[NodeUseEnvProxy])
                  else if ProxyActive(out) then Some("1") else None)
            && forall name :: Other(name) !in out
  {
    var names := AsMap(inherited);
    var out := AsMap(ProxyEnvironmentFrom(inherited, system));
    assert out == Output(names, system);
    ActiveExact(names, system);
    OutputLookup(names, system, NoProxy(true));
    OutputLookup(names, system, NoProxy(false));
    OutputLookup(names, system, NodeUseEnvProxy);
    forall name ensures Other(name) !in out {
      OutputLookup(names, system, Other(name));
    }
    var pair, node := NoProxyPair(names, system), NodeSwitch(names, system);
    if pair != [] {
      PairMap(pair[0], pair[1]);
    }
    if node != [] {
      assert node[..0] == [];
    }
  }

  lemma ActiveExact(names: map<Variable, string>, system: Option<Settings>)
    ensures ProxyActive(Output(names, system)) <==> Active(ProxyPairs(names, system))
  {
    forall kind ensures Lookup(Output(names, system), Proxy(kind, true)) == UpperValue(names, kind, system) {
      UpperExact(names, kind, system);
    }
    ActivePairs(names, system);
    if kind :| UpperValue(names, kind, system).Some? && UpperValue(names, kind, system).value != "" {
      assert Proxy(kind, true) in Output(names, system);
    }
  }

  function UpperValue(names: map<Variable, string>, kind: Kind, system: Option<Settings>): Option<string> {
    var pair := ProxyPair(names, kind, system);
    if pair == [] then None else Some(pair[0].1)
  }

  lemma UpperExact(names: map<Variable, string>, kind: Kind, system: Option<Settings>)
    ensures Lookup(Output(names, system), Proxy(kind, true)) == UpperValue(names, kind, system)
  {
    OutputLookup(names, system, Proxy(kind, true));
    ProxyPairMap(names, kind, system);
  }

  lemma ActivePairs(names: map<Variable, string>, system: Option<Settings>)
    ensures Active(ProxyPairs(names, system)) <==>
              exists kind :: UpperValue(names, kind, system).Some? && UpperValue(names, kind, system).value != ""
  {
    var h, s, a := ProxyPair(names, Http, system), ProxyPair(names, Https, system), ProxyPair(names, All, system);
    assert ProxyPairs(names, system) == h + s + a;
    forall kind ensures Active(ProxyPair(names, kind, system)) <==>
                          UpperValue(names, kind, system).Some? && UpperValue(names, kind, system).value != ""
    {
      ActivePair(names, kind, system);
    }
    ActiveConcat(h, s);
    ActiveConcat(h + s, a);
    assert Active(h) || Active(s) || Active(a) <==> exists kind :: Active(ProxyPair(names, kind, system)) by {
      if kind :| Active(ProxyPair(names, kind, system)) {
        assert kind == Http || kind == Https || kind == All;
      }
    }
  }

  lemma ActivePair(names: map<Variable, string>, kind: Kind, system: Option<Settings>)
    ensures Active(ProxyPair(names, kind, system)) <==>
              UpperValue(names, kind, system).Some? && UpperValue(names, kind, system).value != ""
  {
    var pair := ProxyPair(names, kind, system);
    if pair != [] {
      assert pair == [pair[0], pair[1]] && pair[0] in pair;
      assert pair[0].0 == Proxy(kind, true) && pair[1].0 == Proxy(kind, false);
    }
  }

  lemma ActiveConcat(a: Environment, b: Environment)
    ensures Active(a + b) <==> Active(a) || Active(b)
  {
    if pair :| pair in a + b && pair.0.Proxy? && pair.0.upper && pair.1 != "" {
      assert pair in a || pair in b;
    }
    if pair :| pair in a && pair.0.Proxy? && pair.0.upper && pair.1 != "" {
      assert pair in a + b;
    }
    if pair :| pair in b && pair.0.Proxy? && pair.0.upper && pair.1 != "" {
      assert pair in a + b;
    }
  }

  // The place of a variable in the output.
  function Rank(v: Variable): nat {
    match v
    case Proxy(Http, upper) => if upper then 0 else 1
    case Proxy(Https, upper) => if upper then 2 else 3
    case Proxy(All, upper) => if upper then 4 else 5
    case NoProxy(upper) => if upper then 6 else 7
    case NodeUseEnvProxy => 8
    case Other(_) => 9
  }

  ghost predicate InOrder(environment: Environment) {
    forall i, j :: 0 <= i < j < |environment| ==> Rank(environment[i].0) < Rank(environment[j].0)
  }

  // In order, with ranks between two bounds.
  ghost predicate Between(environment: Environment, low: nat, high: nat) {
    InOrder(environment) && forall i :: 0 <= i < |environment| ==> low <= Rank(environment[i].0) < high
  }

  lemma BetweenConcat(a: Environment, b: Environment, low: nat, middle: nat, high: nat)
    requires Between(a, low, middle) && Between(b, middle, high) && low <= middle <= high
    ensures Between(a + b, low, high)
  {
  }

  lemma PairBetween(names: map<Variable, string>, kind: Kind, system: Option<Settings>)
    ensures var low := Rank(Proxy(kind, true)); Between(ProxyPair(names, kind, system), low, low + 2)
  {
    var pair := ProxyPair(names, kind, system);
    if pair != [] {
      assert pair == [pair[0], pair[1]];
      assert pair[0].0 == Proxy(kind, true) && pair[1].0 == Proxy(kind, false);
    }
  }

  lemma NoProxyBetween(names: map<Variable, string>, system: Option<Settings>)
    ensures Between(NoProxyPair(names, system), 6, 8)
  {
    var pair := NoProxyPair(names, system);
    if pair != [] {
      assert pair == [pair[0], pair[1]] && pair[0].0 == NoProxy(true) && pair[1].0 == NoProxy(false);
    }
  }

  lemma NodeBetween(names: map<Variable, string>, system: Option<Settings>)
    ensures Between(NodeSwitch(names, system), 8, 9)
  {
    var node := NodeSwitch(names, system);
    if node != [] {
      assert node == [node[0]] && node[0].0 == NodeUseEnvProxy;
    }
  }

  /** The variables come in one order, upper case before lower, and each at most once. */
  lemma OutputInOrder(inherited: Environment, system: Option<Settings>)
    ensures InOrder(ProxyEnvironmentFrom(inherited, system))
  {
    var names := AsMap(inherited);
    var h, s, a := ProxyPair(names, Http, system), ProxyPair(names, Https, system), ProxyPair(names, All, system);
    PairBetween(names, Http, system);
    PairBetween(names, Https, system);
    PairBetween(names, All, system);
    NoProxyBetween(names, system);
    NodeBetween(names, system);
    PartsBetween(h, s, a, NoProxyPair(names, system), NodeSwitch(names, system));
  }

  lemma PartsBetween(h: Environment, s: Environment, a: Environment, n: Environment, d: Environment)
    requires Between(h, 0, 2) && Between(s, 2, 4) && Between(a, 4, 6) && Between(n, 6, 8) && Between(d, 8, 9)
    ensures InOrder(h + s + a + n + d)
  {
    BetweenConcat(h, s, 0, 2, 4);
    BetweenConcat(h + s, a, 0, 4, 6);
    BetweenConcat(h + s + a, n, 0, 6, 8);
    BetweenConcat(h + s + a + n, d, 0, 8, 9);
  }

  // ----- the exception list, written out ----------------------------------------------

  /** What goes into the list, in order: the upper-case variable, the lower-case one, the settings, and
      the three local hosts; a missing variable or missing settings add nothing. */
  lemma GatheredExact(names: map<Variable, string>, system: Option<Settings>)
    ensures Gathered(names, system) ==
            (if NoProxy(true) in names then Split(names[NoProxy(true)]) else [])
            + (if NoProxy(false) in names then Split(names[NoProxy(false)]) else [])
            + (if system.Some? then system.value.exceptions else [])
            + ["localhost", "127.0.0.1", "::1"]
  {
  }

  /** One more gathered value adds its trimmed text to the list unless that is empty or an earlier value
      has it up to ASCII case; so every value kept is the first of its class, in gathering order. */
  lemma KeptInOrder(values: seq<string>, last: string)
    ensures Unique(Tidy(values + [last]), {}) ==
            Unique(Tidy(values), {}) +
            if Trim(last) == "" || LowerCase(Trim(last)) in Keys(Tidy(values)) then [] else [Trim(last)]
  {
    TidyConcat(values, [last]);
    assert [last][1..] == [];
    if Trim(last) == "" {
      assert Tidy(values) + [] == Tidy(values);
    } else {
      UniqueAppend(Tidy(values), Trim(last), {});
      assert Tidy([last]) == [Trim(last)];
      assert Keys(Tidy(values)) + {} == Keys(Tidy(values));
    }
  }

  lemma {:induction false} UniqueAppend(values: seq<string>, last: string, seen: set<string>)
    ensures Unique(values + [last], seen) ==
            Unique(values, seen) + if LowerCase(last) in Keys(values) + seen then [] else [last]
    decreases |values|
  {
    if values == [] {
      assert values + [last] == [last] && [last][1..] == [];
    } else {
      var key := LowerCase(values[0]);
      assert (values + [last])[0] == values[0] && (values + [last])[1..] == values[1..] + [last];
      assert Keys(values) == {key} + Keys(values[1..]);
      UniqueAppend(values[1..], last, if key in seen then seen else seen + {key});
    }
  }

  /** Trimming takes white space off both ends and nothing else. */
  lemma TrimExact(s: string)
    ensures exists a, b :: 0 <= a <= b <= |s| && Trim(s) == s[a..b]
              && (forall i :: 0 <= i < |s| && (i < a || i >= b) ==> IsSpace(s[i]))
    ensures Trim(s) != "" ==> !IsSpace(Trim(s)[0]) && !IsSpace(Trim(s)[|Trim(s)| - 1])
  {
    var a := StartCut(s);
    var b := EndCut(TrimStart(s));
    TrimStartFacts(s);
    CutTwice(s, a, b);
    if Trim(s) != "" {
      assert Trim(s)[0] == TrimStart(s)[0];
    }
  }

  lemma CutTwice(s: string, a: nat, b: nat)
    requires a <= |s| && b <= |s| - a
    requires (forall i :: 0 <= i < a ==> IsSpace(s[i])) && (forall i :: b <= i < |s[a..]| ==> IsSpace(s[a..][i]))
    ensures s[a..][..b] == s[a..a + b]
    ensures forall i :: 0 <= i < |s| && (i < a || i >= a + b) ==> IsSpace(s[i])
  {
    forall i | a + b <= i < |s| ensures IsSpace(s[i]) {
      assert s[i] == s[a..][i - a];
    }
  }

  lemma {:induction false} StartCut(s: string) returns (a: nat)
    ensures a <= |s| && TrimStart(s) == s[a..] && forall i :: 0 <= i < a ==> IsSpace(s[i])
  {
    a := 0;
    if s != "" && IsSpace(s[0]) {
      var rest := StartCut(s[1..]);
      a := rest + 1;
      assert s[1..][rest..] == s[a..];
      assert forall i :: 1 <= i < a ==> s[i] == s[1..][i - 1];
    }
  }

  lemma {:induction false} EndCut(s: string) returns (b: nat)
    ensures b <= |s| && TrimEnd(s) == s[..b] && forall i :: b <= i < |s| ==> IsSpace(s[i])
    ensures TrimEnd(s) != "" ==> !IsSpace(TrimEnd(s)[|TrimEnd(s)| - 1])
  {
    b := |s|;
    if s != "" && IsSpace(s[|s| - 1]) {
      b := EndCut(s[..|s| - 1]);
    }
  }

  /** White space is what Unicode calls so. */
  lemma SpaceExact(c: char)
    ensures IsSpace(c) <==>
              c as int in {9, 10, 11, 12, 13, 0x20, 0x85, 0xA0, 0x1680, 0x2000, 0x2001, 0x2002, 0x2003, 0x2004, 0x2005,
                           0x2006, 0x2007, 0x2008, 0x2009, 0x200A, 0x2028, 0x2029, 0x202F, 0x205F, 0x3000}
  {
  }

  // An ASCII letter and its other case.
  predicate OtherCase(a: char, b: char) {
    || ('A' <= a <= 'Z' && b as int == a as int + 32)
    || ('A' <= b <= 'Z' && a as int == b as int + 32)
  }

  /** Two values count as the same exactly when they differ in nothing but the case of ASCII letters. */
  lemma SameKeyExact(a: string, b: string)
    ensures LowerCase(a) == LowerCase(b) <==>
              |a| == |b| && forall i :: 0 <= i < |a| ==> a[i] == b[i] || OtherCase(a[i], b[i])
  {
    if LowerCase(a) == LowerCase(b) {
      assert |LowerCase(a)| == |a| && |LowerCase(b)| == |b|;
      forall i | 0 <= i < |a| ensures a[i] == b[i] || OtherCase(a[i], b[i]) {
        assert LowerCase(a)[i] == Lower(a[i]) && LowerCase(b)[i] == Lower(b[i]);
      }
    }
  }
}
