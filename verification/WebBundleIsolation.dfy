/** Isolation of the web product bundle: everything the emitted index page can load is checked. */
module WebBundleIsolation {
  import opened Wrappers
  import opened Reachability
  import BundleInputIsolation

  datatype Output =
    | Chunk(fileName: string, preliminary: Option<string>, facade: Option<string>, modules: seq<string>,
            imports: seq<string>, dynamicImports: seq<string>, loadedBefore: seq<string>, referenced: seq<string>,
            css: seq<string>, assets: seq<string>)
    | Asset(fileName: string, names: seq<string>, originals: seq<string>)

  // Entries in their enumeration order; a later entry for the same key replaces an earlier one.
  type Entries<T> = seq<(string, T)>

  datatype ModuleInfo = ModuleInfo(imported: seq<string>, dynamicallyImported: seq<string>, external: bool,
                                   included: bool)

  datatype Reference = Reference(host: string, file: string, isPublic: bool)

  // String functions and the input check, which are not part of this model.
  datatype Host = Host(
    accepts: string -> bool,              // assertInput returns
    physical: string -> Option<string>,
    basename: string -> string,
    resolve: string -> string,            // against the web root
    resolvePublic: string -> string,      // against the public directory
    isStylesheet: string -> bool,
    startsWorker: string -> bool)

  datatype Records = Records(
    cssInputs: map<string, set<string>>,
    chunks: Entries<Output>,
    references: seq<Reference>,
    workerInputs: map<string, set<string>>)

  datatype Context = Context(records: Records, bundle: Entries<Output>, modules: map<string, ModuleInfo>, host: Host)

  const INDEX := "index.html"

  // ----- lookups ----------------------------------------------------------------------

  function AsMap<T>(entries: Entries<T>): map<string, T> {
    if entries == [] then map[]
    else
      var last := entries[|entries| - 1];
      AsMap(entries[..|entries| - 1])[last.0 := last.1]
  }

  function ChunkAliases(chunks: Entries<Output>): map<string, string> {
    if chunks == [] then map[]
    else
      var (file, chunk) := chunks[|chunks| - 1];
      var rest := ChunkAliases(chunks[..|chunks| - 1]);
      rest[if chunk.Chunk? && chunk.preliminary.Some? then chunk.preliminary.value else file := file]
  }

  function NameAliases(aliases: map<string, string>, names: seq<string>, file: string): map<string, string> {
    if names == [] then aliases
    else NameAliases(aliases, names[..|names| - 1], file)[names[|names| - 1] := file]
  }

  function AssetAliases(aliases: map<string, string>, bundle: Entries<Output>): map<string, string> {
    if bundle == [] then aliases
    else
      var item := bundle[|bundle| - 1].1;
      var rest := AssetAliases(aliases, bundle[..|bundle| - 1]);
      if item.Asset? then NameAliases(rest, item.names, item.fileName) else rest
  }

  function Aliases(c: Context): map<string, string> {
    AssetAliases(ChunkAliases(c.records.chunks), c.bundle)
  }

  function Resolved(outputs: map<string, Output>, aliases: map<string, string>, host: Host, name: string): string {
    if name in outputs then name
    else if name in aliases then aliases[name]
    else if host.basename(name) in aliases then aliases[host.basename(name)]
    else name
  }

  function OutputName(c: Context, name: string): string {
    Resolved(AsMap(c.bundle), Aliases(c), c.host, name)
  }

  predicate ImportsCss(entry: (string, Output), css: string) {
    entry.1.Chunk? && css in entry.1.css
  }

  predicate IsCssOutput(c: Context, file: string) {
    exists entry :: entry in c.records.chunks && ImportsCss(entry, file)
  }

  /** The modules of every captured chunk that imports this stylesheet. */
  function CssOwners(c: Context, file: string): set<string> {
    set entry, id | entry in c.records.chunks && ImportsCss(entry, file) && id in entry.1.modules :: id
  }

  function Hosted(c: Context, references: seq<Reference>, file: string): seq<Reference> {
    if references == [] then []
    else
      var rest := Hosted(c, references[..|references| - 1], file);
      var last := references[|references| - 1];
      if OutputName(c, last.host) == file then rest + [last] else rest
  }

  // ----- the graph the page can load --------------------------------------------------

  function ChunkEdges(item: Output): seq<string> {
    if item.Chunk? then
      item.imports + item.dynamicImports + item.loadedBefore + item.referenced + item.css + item.assets
    else []
  }

  function AssetFiles(references: seq<Reference>): seq<string> {
    if references == [] then []
    else if references[0].isPublic then AssetFiles(references[1..])
    else [references[0].file] + AssetFiles(references[1..])
  }

  /** The names an output makes the page load: a worker output contributes no chunk edges,
      hosted asset references always count. */
  function LoadedNames(c: Context, file: string): seq<string> {
    (if file in AsMap(c.bundle) && file !in c.records.workerInputs then ChunkEdges(AsMap(c.bundle)[file]) else [])
    + AssetFiles(Hosted(c, c.records.references, file))
  }

  ghost function Loads(c: Context): (string, string) -> bool {
    (file, next) => exists name :: name in LoadedNames(c, file) && OutputName(c, name) == next
  }

  function SeedModules(c: Context, file: string): set<string> {
    if file !in AsMap(c.bundle) || file in c.records.workerInputs then {}
    else
      var item := AsMap(c.bundle)[file];
      if item.Chunk? then set id | id in item.modules
      else if IsCssOutput(c, file) then CssOwners(c, file)
      else {}
  }

  function Children(info: ModuleInfo): seq<string> {
    info.imported + info.dynamicallyImported
  }

  predicate FollowedChild(c: Context, id: string, child: string) {
    && id in c.modules && child in Children(c.modules[id]) && child in c.modules
    && (c.modules[child].included || c.modules[child].external)
  }

  ghost function Imports(c: Context): (string, string) -> bool {
    (id, child) => FollowedChild(c, id, child)
  }

  ghost predicate ReachableOutput(c: Context, file: string) {
    Reaches(Loads(c), INDEX, file)
  }

  ghost predicate ReachableModule(c: Context, id: string) {
    exists file, seed :: ReachableOutput(c, file) && seed in SeedModules(c, file) && Reaches(Imports(c), seed, id)
  }

  // ----- what must hold of it ---------------------------------------------------------

  predicate AllAccepted(c: Context, files: set<string>) {
    forall file :: file in files ==> c.host.accepts(file)
  }

  predicate WorkerPasses(c: Context, key: string) {
    key in c.records.workerInputs && AllAccepted(c, c.records.workerInputs[key])
  }

  function WorkerKey(c: Context, id: string): string {
    var physical := c.host.physical(id);
    if physical.Some? then physical.value else id
  }

  predicate ModulePasses(c: Context, id: string) {
    && c.host.accepts(id) && id in c.modules && !c.modules[id].external
    && (c.host.isStylesheet(id) ==> id in c.records.cssInputs)
    && (c.host.startsWorker(id) ==> WorkerPasses(c, WorkerKey(c, id)))
    && (id in c.records.cssInputs ==> AllAccepted(c, c.records.cssInputs[id]))
    && (forall child :: child in Children(c.modules[id]) ==> child in c.modules)
  }

  predicate PlainAssetPasses(c: Context, originals: seq<string>) {
    originals != [] && forall original :: original in originals ==> c.host.accepts(c.host.resolve(original))
  }

  predicate OutputPasses(c: Context, file: string) {
    && file in AsMap(c.bundle)
    && (file in c.records.workerInputs ==> AllAccepted(c, c.records.workerInputs[file]))
    && (var item := AsMap(c.bundle)[file];
        file !in c.records.workerInputs && item.Asset? && !IsCssOutput(c, file) ==> PlainAssetPasses(c, item.originals))
    && (forall reference :: reference in Hosted(c, c.records.references, file) && reference.isPublic ==>
          c.host.accepts(c.host.resolvePublic(reference.file)))
  }

  predicate IndexPresent(c: Context) {
    && INDEX in AsMap(c.bundle) && AsMap(c.bundle)[INDEX].Asset?
    && exists original :: original in AsMap(c.bundle)[INDEX].originals
        && c.host.resolve(original) == c.host.resolve(INDEX)
  }

  datatype Failure = MissingIndex | BadOutput(file: string) | BadModule(id: string) | NoModules

  ghost predicate Justified(c: Context, failure: Failure) {
    match failure
    case MissingIndex => !IndexPresent(c)
    case BadOutput(file) => ReachableOutput(c, file) && !OutputPasses(c, file)
    case BadModule(id) => ReachableModule(c, id) && !ModulePasses(c, id)
    case NoModules => forall id :: !ReachableModule(c, id)
  }

  /** The page is isolated: its index is recorded, everything it can load passes, and it loads
      at least one module. */
  ghost predicate Isolated(c: Context) {
    && IndexPresent(c)
    && (forall file :: ReachableOutput(c, file) ==> OutputPasses(c, file))
    && (forall id :: ReachableModule(c, id) ==> ModulePasses(c, id))
    && (exists id :: ReachableModule(c, id))
  }

  // ----- modules ----------------------------------------------------------------------

  // Visited modules that passed, with all their followed children visited too.
  ghost predicate Finished(c: Context, ids: set<string>, visited: set<string>) {
    forall id :: id in ids ==> ModulePasses(c, id) && forall child :: FollowedChild(c, id, child) ==> child in visited
  }

  /** The recursive module check. */
  method CheckModule(c: Context, id: string, visited0: set<string>) returns (visited: set<string>, bad: Option<string>)
    ensures visited0 <= visited
    ensures forall m :: m in visited - visited0 ==> Reaches(Imports(c), id, m)
    ensures bad.None? ==> id in visited && Finished(c, visited - visited0, visited)
    ensures bad.Some? ==> Reaches(Imports(c), id, bad.value) && !ModulePasses(c, bad.value)
    decreases c.modules.Keys - visited0
  {
    visited, bad := visited0, None;
    if id in visited {
      return;
    }
    visited := visited + {id};
    ReachesSelf(Imports(c), id);
    if !c.host.accepts(id) || id !in c.modules || c.modules[id].external {
      return visited, Some(id);
    }
    if c.host.isStylesheet(id) && id !in c.records.cssInputs {
      return visited, Some(id);
    }
    if c.host.startsWorker(id) && !WorkerPasses(c, WorkerKey(c, id)) {
      return visited, Some(id);
    }
    if id in c.records.cssInputs && !AllAccepted(c, c.records.cssInputs[id]) {
      return visited, Some(id);
    }
    var children := Children(c.modules[id]);
    for i := 0 to |children|
      invariant bad.None? && visited0 + {id} <= visited
      invariant forall m :: m in visited - visited0 ==> Reaches(Imports(c), id, m)
      invariant Finished(c, visited - visited0 - {id}, visited)
      invariant forall j :: 0 <= j < i ==> children[j] in c.modules
      invariant forall j :: 0 <= j < i && FollowedChild(c, id, children[j]) ==> children[j] in visited
    {
      var child := children[i];
      if child !in c.modules {
        return visited, Some(id);
      }
      if c.modules[child].included || c.modules[child].external {
        assert Imports(c)(id, child);
        ghost var before := visited;
        assert id in c.modules.Keys - visited0 && id !in c.modules.Keys - visited;
        visited, bad := CheckModule(c, child, visited);
        ReachesNext(Imports(c), id, id, child);
        forall m | Reaches(Imports(c), child, m) ensures Reaches(Imports(c), id, m) {
          ReachesJoin(Imports(c), id, child, m);
        }
        if bad.Some? {
          return;
        }
        assert visited - visited0 - {id} == (before - visited0 - {id}) + (visited - before);
      }
    }
  }

  // ----- one output -------------------------------------------------------------------

  // The modules visited so far: reachable, passed, and closed under imports.
  ghost predicate ModulesChecked(c: Context, visited: set<string>) {
    Finished(c, visited, visited) && forall id :: id in visited ==> ReachableModule(c, id)
  }

  /** Checks the seed modules of one reachable output. */
  method CheckSeeds(c: Context, file: string, seeds: seq<string>, visited0: set<string>)
    returns (visited: set<string>, bad: Option<string>)
    requires ReachableOutput(c, file) && (set id | id in seeds) <= SeedModules(c, file)
    requires ModulesChecked(c, visited0)
    ensures visited0 <= visited
    ensures bad.None? ==> ModulesChecked(c, visited) && forall id :: id in seeds ==> id in visited
    ensures bad.Some? ==> ReachableModule(c, bad.value) && !ModulePasses(c, bad.value)
  {
    visited, bad := visited0, None;
    for i := 0 to |seeds|
      invariant bad.None? && visited0 <= visited && ModulesChecked(c, visited)
      invariant forall j :: 0 <= j < i ==> seeds[j] in visited
    {
      ghost var before := visited;
      assert seeds[i] in (set id | id in seeds);
      visited, bad := CheckModule(c, seeds[i], visited);
      forall m | Reaches(Imports(c), seeds[i], m) ensures ReachableModule(c, m) {
      }
      if bad.Some? {
        return;
      }
      assert visited == before + (visited - before);
    }
  }

  // ----- tables -----------------------------------------------------------------------

  method BuildAliases(c: Context) returns (aliases: map<string, string>)
    ensures aliases == Aliases(c)
  {
    aliases := map[];
    var chunks := c.records.chunks;
    for i := 0 to |chunks|
      invariant aliases == ChunkAliases(chunks[..i])
    {
      assert chunks[..i + 1][..i] == chunks[..i];
      var (file, chunk) := chunks[i];
      aliases := aliases[if chunk.Chunk? && chunk.preliminary.Some? then chunk.preliminary.value else file := file];
    }
    assert chunks[..|chunks|] == chunks;
    for i := 0 to |c.bundle|
      invariant aliases == AssetAliases(ChunkAliases(chunks), c.bundle[..i])
    {
      assert c.bundle[..i + 1][..i] == c.bundle[..i];
      var item := c.bundle[i].1;
      if item.Asset? {
        aliases := AddNames(aliases, item.names, item.fileName);
      }
    }
    assert c.bundle[..|c.bundle|] == c.bundle;
  }

  method AddNames(aliases: map<string, string>, names: seq<string>, file: string) returns (added: map<string, string>)
    ensures added == NameAliases(aliases, names, file)
  {
    added := aliases;
    for i := 0 to |names|
      invariant added == NameAliases(aliases, names[..i], file)
    {
      assert names[..i + 1][..i] == names[..i];
      added := added[names[i] := file];
    }
    assert names[..|names|] == names;
  }

  predicate OwnedIn(owners: map<string, seq<string>>, css: string, id: string) {
    css in owners && id in owners[css]
  }

  predicate OwnerAmong(chunks: Entries<Output>, css: string, id: string) {
    exists entry :: entry in chunks && ImportsCss(entry, css) && id in entry.1.modules
  }

  predicate CssAmong(chunks: Entries<Output>, css: string) {
    exists entry :: entry in chunks && ImportsCss(entry, css)
  }

  // The owner table is right for these captured chunks.
  ghost predicate OwnersOf(chunks: Entries<Output>, owners: map<string, seq<string>>) {
    && (forall css :: css in owners <==> CssAmong(chunks, css))
    && (forall css, id :: OwnedIn(owners, css, id) <==> OwnerAmong(chunks, css, id))
  }

  method BuildCssOwners(chunks: Entries<Output>) returns (owners: map<string, seq<string>>)
    ensures OwnersOf(chunks, owners)
  {
    owners := map[];
    for i := 0 to |chunks|
      invariant OwnersOf(chunks[..i], owners)
    {
      ghost var before := owners;
      if chunks[i].1.Chunk? {
        owners := AddOwners(owners, chunks[i].1.css, chunks[i].1.modules);
      }
      OwnersGrow(chunks[..i], chunks[i], before, owners);
      assert chunks[..i + 1] == chunks[..i] + [chunks[i]];
    }
    assert chunks[..|chunks|] == chunks;
  }

  ghost predicate OwnersAdded(before: map<string, seq<string>>, css: seq<string>, ids: seq<string>,
                              after: map<string, seq<string>>) {
    && (forall file :: file in after <==> file in before || file in css)
    && (forall file, id :: OwnedIn(after, file, id) <==> OwnedIn(before, file, id) || (file in css && id in ids))
  }

  method AddOwners(owners0: map<string, seq<string>>, css: seq<string>,
                   ids: seq<string>) returns (owners: map<string, seq<string>>)
    ensures OwnersAdded(owners0, css, ids, owners)
  {
    owners := owners0;
    for i := 0 to |css|
      invariant OwnersAdded(owners0, css[..i], ids, owners)
    {
      var known := if css[i] in owners then owners[css[i]] else [];
      var merged := AddAll(known, ids);
      assert css[..i + 1] == css[..i] + [css[i]];
      owners := owners[css[i] := merged];
    }
    assert css[..|css|] == css;
  }

  /** Adds to an insertion-ordered set. */
  method AddAll(known: seq<string>, ids: seq<string>) returns (merged: seq<string>)
    ensures forall id :: id in merged <==> id in known || id in ids
  {
    merged := known;
    for i := 0 to |ids|
      invariant forall id :: id in merged <==> id in known || id in ids[..i]
    {
      assert ids[..i + 1] == ids[..i] + [ids[i]];
      if ids[i] !in merged {
        merged := merged + [ids[i]];
      }
    }
    assert ids[..|ids|] == ids;
  }

  lemma OwnersGrow(chunks: Entries<Output>, entry: (string, Output), before: map<string, seq<string>>,
                   after: map<string, seq<string>>)
    requires OwnersOf(chunks, before)
    requires if entry.1.Chunk? then OwnersAdded(before, entry.1.css, entry.1.modules, after) else after == before
    ensures OwnersOf(chunks + [entry], after)
  {
    var all := chunks + [entry];
    forall css ensures CssAmong(all, css) <==> CssAmong(chunks, css) || ImportsCss(entry, css) {
      if CssAmong(chunks, css) {
        var e :| e in chunks && ImportsCss(e, css);
        assert e in all;
      }
      if ImportsCss(entry, css) {
        assert entry in all;
      }
    }
    forall css, id
      ensures OwnerAmong(all, css, id) <==>
                OwnerAmong(chunks, css, id) || (ImportsCss(entry, css) && id in entry.1.modules)
    {
      if OwnerAmong(chunks, css, id) {
        var e :| e in chunks && ImportsCss(e, css) && id in e.1.modules;
        assert e in all;
      }
      if ImportsCss(entry, css) && id in entry.1.modules {
        assert entry in all;
      }
    }
  }

  method GroupReferences(c: Context, aliases: map<string, string>) returns (groups: map<string, seq<Reference>>)
    requires aliases == Aliases(c)
    ensures forall file :: (if file in groups then groups[file] else []) == Hosted(c, c.records.references, file)
  {
    groups := map[];
    var references := c.records.references;
    for i := 0 to |references|
      invariant forall file :: (if file in groups then groups[file] else []) == Hosted(c, references[..i], file)
    {
      var host := Resolved(AsMap(c.bundle), aliases, c.host, references[i].host);
      assert references[..i + 1][..i] == references[..i];
      groups := groups[host := (if host in groups then groups[host] else []) + [references[i]]];
    }
    assert references[..|references|] == references;
  }

  // ----- verification -----------------------------------------------------------------

  /** Checks one output the page can load and collects the names it loads in turn. */
  method CheckOutput(c: Context, file: string, owners: map<string, seq<string>>, hosted: seq<Reference>,
                     visited0: set<string>)
    returns (visited: set<string>, loaded: seq<string>, failure: Option<Failure>)
    requires ReachableOutput(c, file) && ModulesChecked(c, visited0)
    requires OwnersOf(c.records.chunks, owners) && hosted == Hosted(c, c.records.references, file)
    ensures visited0 <= visited
    ensures failure.None? ==>
      && ModulesChecked(c, visited) && OutputPasses(c, file) && SeedModules(c, file) <= visited
      && loaded == LoadedNames(c, file)
    ensures failure.Some? ==> Justified(c, failure.value)
  {
    visited, loaded, failure := visited0, [], None;
    var outputs := AsMap(c.bundle);
    if file !in outputs {
      return visited, loaded, Some(BadOutput(file));
    }
    var item := outputs[file];
    if file in c.records.workerInputs {
      if !AllAccepted(c, c.records.workerInputs[file]) {
        return visited, loaded, Some(BadOutput(file));
      }
    } else if item.Chunk? {
      var bad;
      visited, bad := CheckSeeds(c, file, item.modules, visited);
      if bad.Some? {
        return visited, loaded, Some(BadModule(bad.value));
      }
      loaded := ChunkEdges(item);
    } else if file in owners {
      var bad;
      OwnersAreSeeds(c, file, owners);
      visited, bad := CheckSeeds(c, file, owners[file], visited);
      if bad.Some? {
        return visited, loaded, Some(BadModule(bad.value));
      }
    } else if !PlainAssetPasses(c, item.originals) {
      return visited, loaded, Some(BadOutput(file));
    }
    var files, allowed := CheckHosted(c, hosted);
    if !allowed {
      return visited, loaded, Some(BadOutput(file));
    }
    loaded := loaded + files;
  }

  method CheckHosted(c: Context, hosted: seq<Reference>) returns (files: seq<string>, allowed: bool)
    ensures allowed <==> forall r :: r in hosted && r.isPublic ==> c.host.accepts(c.host.resolvePublic(r.file))
    ensures allowed ==> files == AssetFiles(hosted)
  {
    files := [];
    for i := 0 to |hosted|
      invariant AssetFiles(hosted) == files + AssetFiles(hosted[i..])
      invariant forall j :: 0 <= j < i && hosted[j].isPublic ==> c.host.accepts(c.host.resolvePublic(hosted[j].file))
    {
      assert hosted[i..][0] == hosted[i] && hosted[i..][1..] == hosted[i + 1..];
      if !hosted[i].isPublic {
        files := files + [hosted[i].file];
      } else if !c.host.accepts(c.host.resolvePublic(hosted[i].file)) {
        assert hosted[i] in hosted;
        return files, false;
      }
    }
    allowed := true;
  }

  lemma OwnersAreSeeds(c: Context, file: string, owners: map<string, seq<string>>)
    requires OwnersOf(c.records.chunks, owners) && file in owners
    requires file in AsMap(c.bundle) && AsMap(c.bundle)[file].Asset? && file !in c.records.workerInputs
    ensures (set id | id in owners[file]) == SeedModules(c, file)
  {
    assert CssAmong(c.records.chunks, file) && IsCssOutput(c, file);
    forall id ensures id in owners[file] <==> id in CssOwners(c, file) {
      assert OwnedIn(owners, file, id) <==> OwnerAmong(c.records.chunks, file, id);
    }
  }

  // The outputs visited so far: reachable, passed, their modules visited and their names queued.
  ghost predicate OutputsChecked(c: Context, outputs: set<string>, queue: seq<string>, modules: set<string>) {
    forall file :: file in outputs ==>
      && ReachableOutput(c, file) && OutputPasses(c, file) && SeedModules(c, file) <= modules
      && (forall name :: name in LoadedNames(c, file) ==> name in queue)
  }

  /** A finished queue has seen everything the page can load. */
  lemma QueueComplete(c: Context, queue: seq<string>, outputs: set<string>, modules: set<string>)
    requires IndexPresent(c) && Following(c, queue, |queue|, outputs, modules)
    ensures forall file :: ReachableOutput(c, file) ==> file in outputs
    ensures forall id :: ReachableModule(c, id) <==> id in modules
    ensures Isolated(c) <==> modules != {}
  {
    assert OutputName(c, queue[0]) == INDEX;
    forall file, next | file in outputs && Loads(c)(file, next) ensures next in outputs {
      var name :| name in LoadedNames(c, file) && OutputName(c, name) == next;
      assert name in queue;
      var j :| 0 <= j < |queue| && queue[j] == name;
    }
    ClosedKeeps(Loads(c), outputs, INDEX);
    ModulesComplete(c, outputs, modules);
  }

  lemma ModulesComplete(c: Context, outputs: set<string>, modules: set<string>)
    requires ModulesChecked(c, modules) && (forall file :: ReachableOutput(c, file) ==> file in outputs)
    requires forall file :: file in outputs ==> SeedModules(c, file) <= modules
    ensures forall id :: ReachableModule(c, id) <==> id in modules
    ensures forall id :: id in modules ==> ModulePasses(c, id)
  {
    assert Closed(Imports(c), modules);
    forall id | ReachableModule(c, id) ensures id in modules {
      var file, seed :| ReachableOutput(c, file) && seed in SeedModules(c, file) && Reaches(Imports(c), seed, id);
      ClosedKeeps(Imports(c), modules, seed);
    }
  }

  /** The whole verification: succeeds exactly when the page is isolated, and a failure names
      something the page can really load that does not pass. */
  method VerifyContext(c: Context) returns (failure: Option<Failure>)
    ensures failure.None? <==> Isolated(c)
    ensures failure.Some? ==> Justified(c, failure.value)
  {
    if !IndexPresent(c) {
      return Some(MissingIndex);
    }
    var aliases := BuildAliases(c);
    var owners := BuildCssOwners(c.records.chunks);
    var groups := GroupReferences(c, aliases);
    failure := FollowQueue(c, aliases, owners, groups);
  }

  // The loop state: everything queued is reachable, the first `i` names are visited, and what
  // is visited has been checked.
  ghost predicate Following(c: Context, queue: seq<string>, i: nat, outputs: set<string>, modules: set<string>) {
    && i <= |queue| && queue != [] && queue[0] == INDEX
    && NamesLead(c, queue) && PrefixVisited(c, queue, i, outputs)
    && outputs <= AsMap(c.bundle).Keys
    && OutputsChecked(c, outputs, queue, modules) && ModulesChecked(c, modules)
  }

  method FollowQueue(c: Context, aliases: map<string, string>, owners: map<string, seq<string>>, groups: map<string,
                     seq<Reference>>)
    returns (failure: Option<Failure>)
    requires IndexPresent(c) && aliases == Aliases(c) && OwnersOf(c.records.chunks, owners)
    requires forall file :: (if file in groups then groups[file] else []) == Hosted(c, c.records.references, file)
    ensures failure.None? <==> Isolated(c)
    ensures failure.Some? ==> Justified(c, failure.value)
  {
    var visitedOutputs, visitedModules: set<string>, queue := {}, {}, [INDEX];
    FollowStart(c);
    var i := 0;
    while i < |queue|
      invariant Following(c, queue, i, visitedOutputs, visitedModules)
      decreases AsMap(c.bundle).Keys - visitedOutputs, |queue| - i
    {
      var file := Resolved(AsMap(c.bundle), aliases, c.host, queue[i]);
      assert queue[i] in queue && file == OutputName(c, queue[i]);
      if file in visitedOutputs {
        i := i + 1;
        continue;
      }
      var loaded, bad;
      ghost var before := visitedModules;
      visitedModules, loaded, bad :=
        CheckOutput(c, file, owners, if file in groups then groups[file] else [], visitedModules);
      if bad.Some? {
        FailureExcludes(c, bad.value);
        return bad;
      }
      FollowNext(c, queue, i, visitedOutputs, before, file, loaded, visitedModules);
      visitedOutputs, queue, i := visitedOutputs + {file}, queue + loaded, i + 1;
    }
    QueueComplete(c, queue, visitedOutputs, visitedModules);
    if visitedModules == {} {
      return Some(NoModules);
    }
    var id :| id in visitedModules;
    return None;
  }

  lemma FollowStart(c: Context)
    requires IndexPresent(c)
    ensures Following(c, [INDEX], 0, {}, {})
  {
    ReachesSelf(Loads(c), INDEX);
  }

  lemma FollowNext(c: Context, queue: seq<string>, i: nat, outputs: set<string>, before: set<string>,
                   file: string, loaded: seq<string>, modules: set<string>)
    requires Following(c, queue, i, outputs, before) && i < |queue| && file == OutputName(c, queue[i])
    requires ReachableOutput(c, file) && OutputPasses(c, file) && SeedModules(c, file) <= modules
    requires before <= modules && ModulesChecked(c, modules) && loaded == LoadedNames(c, file)
    ensures Following(c, queue + loaded, i + 1, outputs + {file}, modules)
  {
    NamesGrow(c, queue, file);
    PrefixGrows(c, queue, loaded, i, outputs, file);
    OutputsGrow(c, outputs, queue, before, file, queue + loaded, modules);
  }

  ghost predicate NamesLead(c: Context, queue: seq<string>) {
    forall name :: name in queue ==> ReachableOutput(c, OutputName(c, name))
  }

  ghost predicate PrefixVisited(c: Context, queue: seq<string>, i: nat, outputs: set<string>)
    requires i <= |queue|
  {
    forall j :: 0 <= j < i ==> OutputName(c, queue[j]) in outputs
  }

  lemma NamesGrow(c: Context, queue: seq<string>, file: string)
    requires NamesLead(c, queue) && ReachableOutput(c, file)
    ensures NamesLead(c, queue + LoadedNames(c, file))
  {
    NamesReachable(c, file);
  }

  lemma PrefixGrows(c: Context, queue: seq<string>, loaded: seq<string>, i: nat, outputs: set<string>, file: string)
    requires i < |queue| && PrefixVisited(c, queue, i, outputs) && file == OutputName(c, queue[i])
    ensures PrefixVisited(c, queue + loaded, i + 1, outputs + {file})
  {
    var longer := queue + loaded;
    forall j | 0 <= j < i + 1 ensures OutputName(c, longer[j]) in outputs + {file} {
      assert longer[j] == queue[j];
    }
  }

  lemma OutputsGrow(c: Context, outputs: set<string>, queue: seq<string>, before: set<string>,
                    file: string, longer: seq<string>, modules: set<string>)
    requires OutputsChecked(c, outputs, queue, before) && before <= modules
    requires forall name :: name in queue || name in LoadedNames(c, file) ==> name in longer
    requires ReachableOutput(c, file) && OutputPasses(c, file) && SeedModules(c, file) <= modules
    ensures OutputsChecked(c, outputs + {file}, longer, modules)
  {
  }

  lemma NamesReachable(c: Context, file: string)
    requires ReachableOutput(c, file)
    ensures forall name :: name in LoadedNames(c, file) ==> ReachableOutput(c, OutputName(c, name))
  {
    forall name | name in LoadedNames(c, file) ensures ReachableOutput(c, OutputName(c, name)) {
      assert Loads(c)(file, OutputName(c, name));
      ReachesNext(Loads(c), INDEX, file, OutputName(c, name));
    }
  }

  lemma FailureExcludes(c: Context, failure: Failure)
    requires Justified(c, failure)
    ensures !Isolated(c)
  {
  }

  // ----- the recording object ---------------------------------------------------------

  function SetEntry<T>(entries: Entries<T>, key: string, value: T): Entries<T> {
    if entries == [] then [(key, value)]
    else if entries[0].0 == key then [(key, value)] + entries[1..]
    else [entries[0]] + SetEntry(entries[1..], key, value)
  }

  function Captured(chunks: Entries<Output>, bundle: Entries<Output>): Entries<Output> {
    if bundle == [] then chunks
    else
      var rest := Captured(chunks, bundle[..|bundle| - 1]);
      var item := bundle[|bundle| - 1].1;
      if item.Chunk? then SetEntry(rest, item.fileName, item) else rest
  }

  function WorkerInputs(bundle: Entries<Output>, watched: seq<string>): set<string> {
    (set file | file in watched) + (set entry, id | entry in bundle && entry.1.Chunk? && id in entry.1.modules :: id)
  }

  function WorkerKeys(host: Host, bundle: Entries<Output>): set<string> {
    (set entry | entry in bundle :: entry.0) +
    (set entry | entry in bundle && entry.1.Chunk? && entry.1.facade.Some? :: EntryKey(host, entry.1))
  }

  /** Adds the inputs to each of these keys, keeping what was recorded before. */
  function Gain(recorded: map<string, set<string>>, keys: set<string>, inputs: set<string>): map<string, set<string>> {
    map key | key in recorded.Keys + keys ::
      (if key in recorded then recorded[key] else {}) + (if key in keys then inputs else {})
  }

  lemma GainStep(recorded: map<string, set<string>>, keys: set<string>, inputs: set<string>, key: string)
    ensures var gained := Gain(recorded, keys, inputs);
            Gain(recorded, keys + {key}, inputs) == gained[key := (if key in gained then gained[key] else {}) + inputs]
  {
    var gained := Gain(recorded, keys, inputs);
    var a := Gain(recorded, keys + {key}, inputs);
    var b := gained[key := (if key in gained then gained[key] else {}) + inputs];
    assert a.Keys == b.Keys;
    forall k | k in a ensures a[k] == b[k] {
    }
  }

  lemma GainNothing(recorded: map<string, set<string>>, inputs: set<string>)
    ensures Gain(recorded, {}, inputs) == recorded
  {
    var a := Gain(recorded, {}, inputs);
    assert a.Keys == recorded.Keys;
    forall k | k in a ensures a[k] == recorded[k] {
    }
  }

  method ScanWorker(host: Host, bundle: Entries<Output>, watched: seq<string>) returns (inputs: set<string>,
                    keys: seq<string>)
    ensures inputs == WorkerInputs(bundle, watched)
    ensures (set key | key in keys) == WorkerKeys(host, bundle)
  {
    inputs, keys := (set file | file in watched), [];
    assert inputs == WorkerInputs(bundle[..0], watched);
    for i := 0 to |bundle|
      invariant inputs == WorkerInputs(bundle[..i], watched)
      invariant (set key | key in keys) == WorkerKeys(host, bundle[..i])
    {
      var (file, item) := bundle[i];
      assert bundle[..i + 1] == bundle[..i] + [bundle[i]];
      WorkerGrows(host, bundle[..i], bundle[i], watched);
      keys := keys + [file];
      if item.Chunk? {
        inputs := inputs + (set id | id in item.modules);
        if item.facade.Some? {
          keys := keys + [EntryKey(host, item)];
        }
      }
    }
    assert bundle[..|bundle|] == bundle;
  }

  lemma WorkerGrows(host: Host, bundle: Entries<Output>, entry: (string, Output), watched: seq<string>)
    ensures WorkerInputs(bundle + [entry], watched) ==
            WorkerInputs(bundle, watched) + (if entry.1.Chunk? then set id | id in entry.1.modules else {})
    ensures WorkerKeys(host, bundle + [entry]) ==
            WorkerKeys(host, bundle) + {entry.0} +
            (if entry.1.Chunk? && entry.1.facade.Some? then {EntryKey(host, entry.1)} else {})
  {
    assert forall e :: e in bundle + [entry] <==> e in bundle || e == entry;
  }

  class WebProductBundleIsolation {
    var cssInputs: map<string, set<string>>
    var chunks: Entries<Output>
    var references: seq<Reference>
    var workerInputs: map<string, set<string>>
    const inputs: BundleInputIsolation.PackageNames
    const host: Host

    constructor (host: Host)
      ensures View() == Records(map[], [], [], map[])
      ensures this.host == host && fresh(inputs) && inputs.packages == map[]
    {
      this.host := host;
      inputs := new BundleInputIsolation.PackageNames();
      cssInputs, chunks, references, workerInputs := map[], [], [], map[];
    }

    function View(): Records
      reads this
    {
      Records(cssInputs, chunks, references, workerInputs)
    }

    /** Discards the output graphs and the package memo, which then fits any file system;
        transform observations survive, as transforms are cached. */
    method Reset()
      modifies this, inputs
      ensures View() == Records(old(cssInputs), [], [], map[])
      ensures inputs.packages == map[] && forall files :: inputs.Valid(files)
    {
      chunks, references, workerInputs := [], [], map[];
      inputs.Reset();
    }

    method CssTransform(id: string)
      modifies this
      ensures View() == old(View()).(cssInputs := old(cssInputs)[id := {}])
    {
      cssInputs := cssInputs[id := {}];
    }

    method CssDependency(id: string, file: string)
      modifies this
      ensures cssInputs.Keys == old(cssInputs).Keys + {id}
      ensures cssInputs[id] == (if id in old(cssInputs) then old(cssInputs)[id] else {}) + {file}
      ensures forall other :: other in old(cssInputs) && other != id ==> cssInputs[other] == old(cssInputs)[other]
      ensures View() == old(View()).(cssInputs := cssInputs)
    {
      var inputs := if id in cssInputs then cssInputs[id] else {};
      cssInputs := cssInputs[id := inputs + {file}];
    }

    method AssetReference(file: string, host: string, isPublic: bool)
      modifies this
      ensures View() == old(View()).(references := old(references) + [Reference(host, file, isPublic)])
    {
      references := references + [Reference(host, file, isPublic)];
    }

    method CaptureChunks(bundle: Entries<Output>)
      modifies this
      ensures View() == old(View()).(chunks := Captured(old(chunks), bundle))
    {
      for i := 0 to |bundle|
        invariant View() == old(View()).(chunks := Captured(old(chunks), bundle[..i]))
      {
        assert bundle[..i + 1][..i] == bundle[..i];
        var item := bundle[i].1;
        if item.Chunk? {
          chunks := SetEntry(chunks, item.fileName, item);
        }
      }
      assert bundle[..|bundle|] == bundle;
    }

    /** Every file of the worker bundle and every entry module gains the bundle's whole input
        set: its watched files and the modules of all its chunks. */
    method WorkerBundle(bundle: Entries<Output>, watched: seq<string>)
      modifies this
      ensures View() == old(View()).(workerInputs :=
                          Gain(old(workerInputs), WorkerKeys(host, bundle), WorkerInputs(bundle, watched)))
    {
      var inputs, keys := ScanWorker(host, bundle, watched);
      ghost var done: set<string> := {};
      GainNothing(workerInputs, inputs);
      for i := 0 to |keys|
        invariant done == (set key | key in keys[..i])
        invariant View() == old(View()).(workerInputs := Gain(old(workerInputs), done, inputs))
      {
        assert keys[..i + 1] == keys[..i] + [keys[i]];
        GainStep(old(workerInputs), done, inputs, keys[i]);
        var known := if keys[i] in workerInputs then workerInputs[keys[i]] else {};
        workerInputs := workerInputs[keys[i] := known + inputs];
        done := done + {keys[i]};
      }
      assert keys[..|keys|] == keys;
    }

    method Verify(bundle: Entries<Output>, modules: map<string, ModuleInfo>) returns (failure: Option<Failure>)
      ensures failure.None? <==> Isolated(Context(View(), bundle, modules, host))
      ensures failure.Some? ==> Justified(Context(View(), bundle, modules, host), failure.value)
    {
      failure := VerifyContext(Context(View(), bundle, modules, host));
    }
  }

  function EntryKey(host: Host, item: Output): string
    requires item.Chunk? && item.facade.Some?
  {
    var physical := host.physical(item.facade.value);
    if physical.Some? then physical.value else item.facade.value
  }
}
