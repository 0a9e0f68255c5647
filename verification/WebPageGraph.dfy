/** The page that a verified bundle can load, spelled out in terms of what was recorded: which names
    lead where, what reaches what, and what a successful verification says of all of it. */
module WebPageGraph {
  import opened Wrappers
  import opened Reachability
  import opened WebBundleIsolation

  // ----- names ------------------------------------------------------------------------

  ghost predicate LastOf<T>(entries: Entries<T>, key: string, i: int) {
    0 <= i < |entries| && entries[i].0 == key && forall j :: i < j < |entries| ==> entries[j].0 != key
  }

  /** The last entry of a key is the one the bundle has for it. */
  lemma {:induction false} LastEntryWins<T>(entries: Entries<T>, key: string)
    ensures key in AsMap(entries) <==> exists i :: 0 <= i < |entries| && entries[i].0 == key
    ensures forall i :: LastOf(entries, key, i) ==> key in AsMap(entries) && AsMap(entries)[key] == entries[i].1
    decreases |entries|
  {
    if entries != [] {
      var n := |entries| - 1;
      var before := entries[..n];
      LastEntryWins(before, key);
      assert forall i :: 0 <= i < n ==> before[i] == entries[i];
      if key in AsMap(entries) && entries[n].0 != key {
        var i :| 0 <= i < n && before[i].0 == key;
        assert entries[i].0 == key;
      }
      forall i | LastOf(entries, key, i) ensures key in AsMap(entries) && AsMap(entries)[key] == entries[i].1 {
        if i < n {
          assert entries[n].0 != key && LastOf(before, key, i);
        }
      }
    }
  }

  // This asset carries the name.
  predicate NamesAsset(item: Output, name: string) {
    item.Asset? && name in item.names
  }

  // The name a captured chunk was known by before its file name was final.
  predicate NamesChunk(entry: (string, Output), name: string) {
    name == if entry.1.Chunk? && entry.1.preliminary.Some? then entry.1.preliminary.value else entry.0
  }

  lemma {:induction false} NamesGiven(aliases: map<string, string>, names: seq<string>, file: string, name: string)
    ensures var given := NameAliases(aliases, names, file);
            && (name in names ==> name in given && given[name] == file)
            && (name !in names ==> Alias(given, name) == Alias(aliases, name))
    decreases |names|
  {
    if names != [] {
      var before := names[..|names| - 1];
      NamesGiven(aliases, before, file, name);
      assert names == before + [names[|names| - 1]];
    }
  }

  function Alias(aliases: map<string, string>, name: string): Option<string> {
    if name in aliases then Some(aliases[name]) else None
  }

  ghost predicate LastAsset(bundle: Entries<Output>, name: string, i: int) {
    && 0 <= i < |bundle| && NamesAsset(bundle[i].1, name)
    && forall j :: i < j < |bundle| ==> !NamesAsset(bundle[j].1, name)
  }

  ghost predicate NoAsset(bundle: Entries<Output>, name: string) {
    forall i :: 0 <= i < |bundle| ==> !NamesAsset(bundle[i].1, name)
  }

  lemma {:induction false} AssetsGiven(aliases: map<string, string>, bundle: Entries<Output>, name: string)
    ensures forall i :: LastAsset(bundle, name, i) ==>
              Alias(AssetAliases(aliases, bundle), name) == Some(bundle[i].1.fileName)
    ensures NoAsset(bundle, name) ==> Alias(AssetAliases(aliases, bundle), name) == Alias(aliases, name)
    decreases |bundle|
  {
    if bundle != [] {
      var n := |bundle| - 1;
      var before := bundle[..n];
      AssetsGiven(aliases, before, name);
      AssetGiven(AssetAliases(aliases, before), bundle[n].1, name);
      if NoAsset(bundle, name) {
        assert !NamesAsset(bundle[n].1, name) && NoAsset(before, name);
      }
      forall i | LastAsset(bundle, name, i)
        ensures Alias(AssetAliases(aliases, bundle), name) == Some(bundle[i].1.fileName)
      {
        if i < n {
          assert !NamesAsset(bundle[n].1, name) && LastAsset(before, name, i);
        }
      }
    }
  }

  lemma AssetGiven(aliases: map<string, string>, item: Output, name: string)
    ensures var given := if item.Asset? then NameAliases(aliases, item.names, item.fileName) else aliases;
            Alias(given, name) == if NamesAsset(item, name) then Some(item.fileName) else Alias(aliases, name)
  {
    if item.Asset? {
      NamesGiven(aliases, item.names, item.fileName, name);
    }
  }

  ghost predicate LastChunk(chunks: Entries<Output>, name: string, i: int) {
    0 <= i < |chunks| && NamesChunk(chunks[i], name) && forall j :: i < j < |chunks| ==> !NamesChunk(chunks[j], name)
  }

  ghost predicate NoChunk(chunks: Entries<Output>, name: string) {
    forall i :: 0 <= i < |chunks| ==> !NamesChunk(chunks[i], name)
  }

  lemma {:induction false} ChunksGiven(chunks: Entries<Output>, name: string)
    ensures forall i :: LastChunk(chunks, name, i) ==> Alias(ChunkAliases(chunks), name) == Some(chunks[i].0)
    ensures NoChunk(chunks, name) ==> Alias(ChunkAliases(chunks), name) == None
    decreases |chunks|
  {
    if chunks != [] {
      var n := |chunks| - 1;
      var before := chunks[..n];
      ChunksGiven(before, name);
      assert Alias(ChunkAliases(chunks), name) ==
             if NamesChunk(chunks[n], name) then Some(chunks[n].0) else Alias(ChunkAliases(before), name);
      if NoChunk(chunks, name) {
        assert !NamesChunk(chunks[n], name) && NoChunk(before, name);
      }
      forall i | LastChunk(chunks, name, i) ensures Alias(ChunkAliases(chunks), name) == Some(chunks[i].0) {
        if i < n {
          assert !NamesChunk(chunks[n], name) && LastChunk(before, name, i);
        }
      }
    }
  }

  /** What a name stands for besides an output of that very name: the last asset of the bundle that
      carries it, else the last captured chunk once known by it, else nothing. */
  lemma AliasExact(c: Context, name: string)
    ensures forall i :: LastAsset(c.bundle, name, i) ==> Alias(Aliases(c), name) == Some(c.bundle[i].1.fileName)
    ensures NoAsset(c.bundle, name) ==>
              && (forall i :: LastChunk(c.records.chunks, name, i) ==>
                    Alias(Aliases(c), name) == Some(c.records.chunks[i].0))
              && (NoChunk(c.records.chunks, name) ==> Alias(Aliases(c), name) == None)
  {
    AssetsGiven(ChunkAliases(c.records.chunks), c.bundle, name);
    ChunksGiven(c.records.chunks, name);
  }

  /** The output a name leads to: the one of that name, else its alias, else the alias of its last path
      component, else itself. */
  lemma OutputNameExact(c: Context, name: string)
    ensures name in AsMap(c.bundle) ==> OutputName(c, name) == name
    ensures name !in AsMap(c.bundle) && Alias(Aliases(c), name).Some? ==>
              Alias(Aliases(c), name) == Some(OutputName(c, name))
    ensures name !in AsMap(c.bundle) && Alias(Aliases(c), name).None? ==>
              OutputName(c, name) ==
              var short := Alias(Aliases(c), c.host.basename(name));
              if short.Some? then short.value else name
  {
  }

  // ----- edges ------------------------------------------------------------------------

  /** This output of the bundle is a chunk of the page itself, not one of a worker. */
  predicate PageChunk(c: Context, file: string) {
    file in AsMap(c.bundle) && AsMap(c.bundle)[file].Chunk? && file !in c.records.workerInputs
  }

  /** The output makes the page load this name: a page chunk through any of its six lists, any output
      through an asset reference it hosts. */
  ghost predicate Mentions(c: Context, file: string, name: string) {
    || (PageChunk(c, file)
        && var item := AsMap(c.bundle)[file];
           || name in item.imports || name in item.dynamicImports || name in item.loadedBefore
           || name in item.referenced || name in item.css || name in item.assets)
    || (exists reference :: reference in c.records.references && !reference.isPublic
                            && reference.file == name && OutputName(c, reference.host) == file)
  }

  lemma {:induction false} HostedExact(c: Context, references: seq<Reference>, file: string, r: Reference)
    ensures r in Hosted(c, references, file) <==> r in references && OutputName(c, r.host) == file
    decreases |references|
  {
    if references != [] {
      var before := references[..|references| - 1];
      HostedExact(c, before, file, r);
      assert references == before + [references[|references| - 1]];
    }
  }

  lemma {:induction false} AssetFilesExact(references: seq<Reference>, name: string)
    ensures name in AssetFiles(references) <==> exists r :: r in references && !r.isPublic && r.file == name
    decreases |references|
  {
    if references != [] {
      AssetFilesExact(references[1..], name);
      assert references == [references[0]] + references[1..];
    }
  }

  lemma LoadedNamesExact(c: Context, file: string, name: string)
    ensures name in LoadedNames(c, file) <==> Mentions(c, file, name)
  {
    var hosted := Hosted(c, c.records.references, file);
    AssetFilesExact(hosted, name);
    forall r ensures r in hosted <==> r in c.records.references && OutputName(c, r.host) == file {
      HostedExact(c, c.records.references, file, r);
    }
    assert name in LoadedNames(c, file) <==>
             (PageChunk(c, file) && name in ChunkEdges(AsMap(c.bundle)[file])) || name in AssetFiles(hosted);
  }

  /** A module is followed to each child it imports, statically or dynamically, that is part of the
      bundle or external. */
  predicate Follows(c: Context, id: string, child: string) {
    && id in c.modules && child in c.modules
    && (child in c.modules[id].imported || child in c.modules[id].dynamicallyImported)
    && (c.modules[child].included || c.modules[child].external)
  }

  /** An output brings this module in: a page chunk its own modules, a stylesheet the modules of every
      captured chunk that imports it. */
  ghost predicate BringsIn(c: Context, file: string, id: string) {
    && file in AsMap(c.bundle) && file !in c.records.workerInputs
    && var item := AsMap(c.bundle)[file];
       if item.Chunk? then id in item.modules
       else exists entry :: entry in c.records.chunks && entry.1.Chunk? && file in entry.1.css && id in entry.1.modules
  }

  // ----- what reaches what ------------------------------------------------------------

  /** These outputs include the index and everything their own members mention. */
  ghost predicate HoldsOutputs(c: Context, files: set<string>) {
    INDEX in files && forall file, name :: file in files && Mentions(c, file, name) ==> OutputName(c, name) in files
  }

  /** The outputs the page reaches: the index, whatever a reached output mentions, and nothing else. */
  lemma OutputsExact(c: Context)
    ensures ReachableOutput(c, INDEX)
    ensures forall file, name :: ReachableOutput(c, file) && Mentions(c, file, name) ==>
              ReachableOutput(c, OutputName(c, name))
    ensures forall files, file :: HoldsOutputs(c, files) && ReachableOutput(c, file) ==> file in files
  {
    ReachesSelf(Loads(c), INDEX);
    forall file, name | ReachableOutput(c, file) && Mentions(c, file, name)
      ensures ReachableOutput(c, OutputName(c, name))
    {
      LoadedNamesExact(c, file, name);
      assert Loads(c)(file, OutputName(c, name));
      ReachesNext(Loads(c), INDEX, file, OutputName(c, name));
    }
    forall files, file | HoldsOutputs(c, files) && ReachableOutput(c, file) ensures file in files {
      forall a, b | a in files && Loads(c)(a, b) ensures b in files {
        var name :| name in LoadedNames(c, a) && OutputName(c, name) == b;
        LoadedNamesExact(c, a, name);
      }
      ClosedKeeps(Loads(c), files, INDEX);
    }
  }

  /** These modules include what reached outputs bring in, and whatever their own members follow. */
  ghost predicate HoldsModules(c: Context, ids: set<string>) {
    && (forall file, id :: ReachableOutput(c, file) && BringsIn(c, file, id) ==> id in ids)
    && (forall id, child :: id in ids && Follows(c, id, child) ==> child in ids)
  }

  lemma SeedsExact(c: Context, file: string, id: string)
    ensures id in SeedModules(c, file) <==> BringsIn(c, file, id)
  {
    if file in AsMap(c.bundle) && file !in c.records.workerInputs && AsMap(c.bundle)[file].Asset? {
      if BringsIn(c, file, id) {
        var entry :| entry in c.records.chunks && entry.1.Chunk? && file in entry.1.css && id in entry.1.modules;
        assert ImportsCss(entry, file);
      }
    }
  }

  /** The modules the page reaches: those that reached outputs bring in, whatever a reached module
      follows, and nothing else. */
  lemma ModulesExact(c: Context)
    ensures forall file, id :: ReachableOutput(c, file) && BringsIn(c, file, id) ==> ReachableModule(c, id)
    ensures forall id, child :: ReachableModule(c, id) && Follows(c, id, child) ==> ReachableModule(c, child)
    ensures forall ids, id :: HoldsModules(c, ids) && ReachableModule(c, id) ==> id in ids
  {
    forall file, id | ReachableOutput(c, file) && BringsIn(c, file, id) ensures ReachableModule(c, id) {
      SeedsExact(c, file, id);
      ReachesSelf(Imports(c), id);
    }
    forall id, child | ReachableModule(c, id) && Follows(c, id, child) ensures ReachableModule(c, child) {
      var file, seed :| ReachableOutput(c, file) && seed in SeedModules(c, file) && Reaches(Imports(c), seed, id);
      assert Imports(c)(id, child);
      ReachesNext(Imports(c), seed, id, child);
    }
    forall ids, id | HoldsModules(c, ids) && ReachableModule(c, id) ensures id in ids {
      var file, seed :| ReachableOutput(c, file) && seed in SeedModules(c, file) && Reaches(Imports(c), seed, id);
      SeedsExact(c, file, seed);
      assert Closed(Imports(c), ids) by {
        forall a, b | a in ids && Imports(c)(a, b) ensures b in ids {
          assert Follows(c, a, b);
        }
      }
      ClosedKeeps(Imports(c), ids, seed);
    }
  }

  // ----- what a successful verification says ------------------------------------------

  /** An output in order: it was emitted; a worker file has all its inputs accepted; an asset that is no
      stylesheet of a captured chunk names its originals, all accepted; public files it references are
      accepted. */
  ghost predicate OutputInOrder(c: Context, file: string) {
    && file in AsMap(c.bundle)
    && (file in c.records.workerInputs ==>
          forall input :: input in c.records.workerInputs[file] ==> c.host.accepts(input))
    && (file !in c.records.workerInputs && AsMap(c.bundle)[file].Asset?
        && (forall entry :: entry in c.records.chunks && entry.1.Chunk? ==> file !in entry.1.css) ==>
          && AsMap(c.bundle)[file].originals != []
          && forall original :: original in AsMap(c.bundle)[file].originals ==>
               c.host.accepts(c.host.resolve(original)))
    && (forall reference :: reference in c.records.references && reference.isPublic
                            && OutputName(c, reference.host) == file ==>
          c.host.accepts(c.host.resolvePublic(reference.file)))
  }

  /** A module in order: it is accepted, recorded and not external; a stylesheet has recorded transform
      inputs; the worker it starts has recorded inputs, all accepted; its own transform inputs are
      accepted; all it imports is recorded. */
  ghost predicate ModuleInOrder(c: Context, id: string) {
    && c.host.accepts(id) && id in c.modules && !c.modules[id].external
    && (c.host.isStylesheet(id) ==> id in c.records.cssInputs)
    && (c.host.startsWorker(id) ==>
          var key := if c.host.physical(id).Some? then c.host.physical(id).value else id;
          && key in c.records.workerInputs
          && forall input :: input in c.records.workerInputs[key] ==> c.host.accepts(input))
    && (id in c.records.cssInputs ==> forall input :: input in c.records.cssInputs[id] ==> c.host.accepts(input))
    && (forall child :: child in c.modules[id].imported || child in c.modules[id].dynamicallyImported ==>
          child in c.modules)
  }

  /** The index page was emitted from its own HTML file. */
  ghost predicate IndexEmitted(c: Context) {
    exists originals, names, file ::
      && INDEX in AsMap(c.bundle) && AsMap(c.bundle)[INDEX] == Asset(file, names, originals)
      && exists original :: original in originals && c.host.resolve(original) == c.host.resolve(INDEX)
  }

  lemma OutputPassesExact(c: Context, file: string)
    ensures OutputPasses(c, file) <==> OutputInOrder(c, file)
  {
    forall r ensures r in Hosted(c, c.records.references, file) <==>
              r in c.records.references && OutputName(c, r.host) == file
    {
      HostedExact(c, c.records.references, file, r);
    }
    assert IsCssOutput(c, file) <==> exists entry :: entry in c.records.chunks && entry.1.Chunk? && file in entry.1.css
    by {
      if entry :| entry in c.records.chunks && entry.1.Chunk? && file in entry.1.css {
        assert ImportsCss(entry, file);
      }
    }
  }

  lemma ModulePassesExact(c: Context, id: string)
    ensures ModulePasses(c, id) <==> ModuleInOrder(c, id)
  {
  }

  /** Verification succeeds exactly when the index was emitted, every output the page reaches and every
      module it reaches is in order, and it reaches a module. */
  lemma IsolatedExact(c: Context)
    ensures Isolated(c) <==>
              && IndexEmitted(c)
              && (forall file :: ReachableOutput(c, file) ==> OutputInOrder(c, file))
              && (forall id :: ReachableModule(c, id) ==> ModuleInOrder(c, id))
              && (exists id :: ReachableModule(c, id))
  {
    forall file ensures OutputPasses(c, file) <==> OutputInOrder(c, file) {
      OutputPassesExact(c, file);
    }
    forall id ensures ModulePasses(c, id) <==> ModuleInOrder(c, id) {
      ModulePassesExact(c, id);
    }
    if IndexPresent(c) {
      var item := AsMap(c.bundle)[INDEX];
      assert item == Asset(item.fileName, item.names, item.originals);
    }
  }

  /** The same of the object: a run of `verify` accepts exactly such pages. */
  method VerifyPage(checker: WebProductBundleIsolation, bundle: Entries<Output>, modules: map<string, ModuleInfo>)
    returns (accepted: bool)
    ensures var c := Context(checker.View(), bundle, modules, checker.host);
            accepted <==>
              && IndexEmitted(c)
              && (forall file :: ReachableOutput(c, file) ==> OutputInOrder(c, file))
              && (forall id :: ReachableModule(c, id) ==> ModuleInOrder(c, id))
              && (exists id :: ReachableModule(c, id))
  {
    var failure := checker.Verify(bundle, modules);
    IsolatedExact(Context(checker.View(), bundle, modules, checker.host));
    return failure.None?;
  }

  // ----- the recorded tables ----------------------------------------------------------

  ghost predicate DistinctFiles(entries: Entries<Output>) {
    forall i, j :: 0 <= i < j < |entries| ==> entries[i].0 != entries[j].0
  }

  lemma {:induction false} SetEntryExact(entries: Entries<Output>, key: string, value: Output)
    requires DistinctFiles(entries)
    ensures DistinctFiles(SetEntry(entries, key, value))
    ensures forall e :: e in SetEntry(entries, key, value) <==> e == (key, value) || (e in entries && e.0 != key)
    decreases |entries|
  {
    if entries != [] {
      var rest := entries[1..];
      assert forall i :: 0 <= i < |rest| ==> rest[i] == entries[i + 1];
      assert forall e :: e in rest ==> e.0 != entries[0].0;
      SetEntryExact(rest, key, value);
      assert forall e :: e in entries <==> e == entries[0] || e in rest;
    }
  }

  lemma {:induction false} SetEntryPlaces(entries: Entries<Output>, key: string, value: Output)
    ensures |SetEntry(entries, key, value)| >= |entries|
    ensures forall i :: 0 <= i < |entries| ==> SetEntry(entries, key, value)[i].0 == entries[i].0
    decreases |entries|
  {
    if entries != [] {
      SetEntryPlaces(entries[1..], key, value);
    }
  }

  /** The last chunk of the bundle with this file name. */
  ghost predicate Recaptured(bundle: Entries<Output>, e: (string, Output))
    decreases |bundle|
  {
    bundle != [] &&
    var last := bundle[|bundle| - 1].1;
    if last.Chunk? && last.fileName == e.0 then last == e.1 else Recaptured(bundle[..|bundle| - 1], e)
  }

  ghost predicate Emits(bundle: Entries<Output>, file: string) {
    exists entry :: entry in bundle && entry.1.Chunk? && entry.1.fileName == file
  }

  /** Captured chunks: for every file the last chunk of the bundle with that file name, or else what was
      captured before; earlier files keep their places. */
  lemma {:induction false} CapturedExact(chunks: Entries<Output>, bundle: Entries<Output>)
    requires DistinctFiles(chunks)
    ensures var after := Captured(chunks, bundle);
            && DistinctFiles(after)
            && (forall e :: e in after <==> Recaptured(bundle, e) || (e in chunks && !Emits(bundle, e.0)))
            && |after| >= |chunks| && (forall i :: 0 <= i < |chunks| ==> after[i].0 == chunks[i].0)
    decreases |bundle|
  {
    if bundle != [] {
      var n := |bundle| - 1;
      var before, item := bundle[..n], bundle[n].1;
      assert bundle == before + [bundle[n]];
      CapturedExact(chunks, before);
      forall file ensures Emits(bundle, file) <==> Emits(before, file) || (item.Chunk? && item.fileName == file) {
        EmitsMore(before, bundle[n], file);
      }
      if item.Chunk? {
        SetEntryExact(Captured(chunks, before), item.fileName, item);
        SetEntryPlaces(Captured(chunks, before), item.fileName, item);
      }
    }
  }

  lemma EmitsMore(bundle: Entries<Output>, entry: (string, Output), file: string)
    ensures Emits(bundle + [entry], file) <==>
              Emits(bundle, file) || (entry.1.Chunk? && entry.1.fileName == file)
  {
    if e :| e in bundle && e.1.Chunk? && e.1.fileName == file {
      assert e in bundle + [entry];
    }
    assert entry in bundle + [entry];
  }

  /** A worker bundle: its files and the physical files of its entries gain its watched files and the
      modules of all its chunks; nothing else changes. */
  lemma WorkerInputsExact(host: Host, bundle: Entries<Output>, watched: seq<string>,
                          recorded: map<string, set<string>>, key: string, input: string)
    ensures var after := Gain(recorded, WorkerKeys(host, bundle), WorkerInputs(bundle, watched));
            var gains := exists e :: e in bundle &&
                           (e.0 == key
                            || (e.1.Chunk? && e.1.facade.Some?
                                && key == (if host.physical(e.1.facade.value).Some?
                                           then host.physical(e.1.facade.value).value else e.1.facade.value)));
            var given := input in watched || exists e :: e in bundle && e.1.Chunk? && input in e.1.modules;
            && (key in after <==> key in recorded || gains)
            && (key in after ==>
                  (input in after[key] <==> (key in recorded && input in recorded[key]) || (gains && given)))
  {
  }
}
