/** Ownership transfer: services registered as independent leave the supervised tree. */
module IndependentService {
  import opened Wrappers
  import opened Processes

  datatype Record = Record(pid: nat, start: nat, executable: Path)

  // A directory entry as its metadata and content were read; `shared` stands for any group or
  // other permission bit, `foreign` for another user's file.
  datatype Entry =
    | Unreadable
    | File(regular: bool, length: nat, shared: bool, foreign: bool, record: Option<Record>)

  const MAX_ENTRIES := 256
  const MAX_RECORD_BYTES := 4096

  predicate Usable(entry: Entry) {
    && entry.File? && entry.regular && entry.length <= MAX_RECORD_BYTES
    && !entry.shared && !entry.foreign && entry.record.Some?
  }

  predicate Matches(record: Record, live: Snapshot) {
    && live.id == record.pid && live.start == record.start
    && live.executable == record.executable && live.group == live.id
  }

  function Considered(entries: seq<Entry>): seq<Entry> {
    if |entries| <= MAX_ENTRIES then entries else entries[..MAX_ENTRIES]
  }

  /** The live process `p` is a registered group leader, other than the root. */
  ghost predicate Registered(root: Snapshot, entries: seq<Entry>, p: Snapshot) {
    && p.id != root.id
    && exists e :: e in Considered(entries) && Usable(e) && Matches(e.record.value, p)
  }

  ghost function Leaders(root: Snapshot, owned: seq<Snapshot>, entries: seq<Entry>): set<nat> {
    set p | p in owned && Registered(root, entries, p) :: p.id
  }

  /** PIDs no longer owned: the registered leaders and everything below them in `owned`. */
  ghost function Transferred(root: Snapshot, owned: seq<Snapshot>, entries: seq<Entry>): set<nat> {
    Closure(Leaders(root, owned, entries), owned)
  }

  lemma TransferredIsLeast(root: Snapshot, owned: seq<Snapshot>, entries: seq<Entry>)
    ensures forall p :: p in owned && Registered(root, entries, p) ==> p.id in Transferred(root, owned, entries)
    ensures ChildClosed(Transferred(root, owned, entries), owned)
    ensures forall s :: Leaders(root, owned, entries) <= s && ChildClosed(s, owned)
                        ==> Transferred(root, owned, entries) <= s
    ensures Transferred(root, owned, entries) <= Ids(owned)
  {
    ClosureIsLeast(Leaders(root, owned, entries), owned);
  }

  /** What makes a live process a registered leader, field by field: its own record, exact instance and
      executable, among the first 256 entries, in a private regular file of at most 4096 bytes. */
  lemma RegisteredExact(root: Snapshot, entries: seq<Entry>, p: Snapshot)
    ensures Registered(root, entries, p) <==>
              && p.id != root.id && p.group == p.id
              && exists i, length :: 0 <= i < |entries| && i < 256 && length <= 4096
                   && entries[i] == File(true, length, false, false, Some(Record(p.id, p.start, p.executable)))
  {
    if Registered(root, entries, p) {
      var e :| e in Considered(entries) && Usable(e) && Matches(e.record.value, p);
      var i :| 0 <= i < |Considered(entries)| && Considered(entries)[i] == e;
      assert entries[i] == File(true, e.length, false, false, Some(Record(p.id, p.start, p.executable)));
    }
    if p.id != root.id && p.group == p.id
       && (exists i, length :: 0 <= i < |entries| && i < 256 && length <= 4096
             && entries[i] == File(true, length, false, false, Some(Record(p.id, p.start, p.executable)))) {
      var i: nat, length :| i < |entries| && i < 256 && length <= 4096
        && entries[i] == File(true, length, false, false, Some(Record(p.id, p.start, p.executable)));
      assert Considered(entries)[i] == entries[i] && entries[i] in Considered(entries);
      assert Matches(entries[i].record.value, p);
    }
  }

  /** Nothing is transferred while no live owned process is a registered leader. */
  lemma NoLeaderNothingTransferred(root: Snapshot, owned: seq<Snapshot>, entries: seq<Entry>)
    ensures Transferred(root, owned, entries) == {} <==> forall p :: p in owned ==> !Registered(root, entries, p)
  {
    var leaders := Leaders(root, owned, entries);
    TransferredIsLeast(root, owned, entries);
    if forall p :: p in owned ==> !Registered(root, entries, p) {
      assert leaders == {};
      assert ChildClosed({}, owned);
    }
  }

  /** `directory` is None when there is no home or the directory cannot be listed. */
  method TransferredProcesses(root: Snapshot, owned: seq<Snapshot>, directory: Option<seq<Entry>>)
    returns (excluded: seq<nat>)
    ensures Elements(excluded) ==
            if directory.Some? then Transferred(root, owned, directory.value) else {}
  {
    excluded := [];
    if directory.None? {
      return;
    }
    var files := Considered(directory.value);
    for i := 0 to |files|
      invariant forall id :: id in excluded <==>
        exists j, p :: 0 <= j < i && p in owned && p.id == id && id != root.id
                       && Usable(files[j]) && Matches(files[j].record.value, p)
    {
      var entry := files[i];
      if !Usable(entry) || entry.record.value.pid == root.id {
        continue;
      }
      if exists live :: live in owned && Matches(entry.record.value, live) {
        excluded := excluded + [entry.record.value.pid];
      }
    }
    assert Elements(excluded) == Leaders(root, owned, directory.value);
    ghost var leaders := Elements(excluded);
    while true
      invariant Closure(Elements(excluded), owned) == Closure(leaders, owned)
      decreases Ids(owned) - Elements(excluded)
    {
      var grown, found := SweepOnce(excluded, owned);
      if found == [] {
        return;
      }
      assert found[0].id in Ids(owned) - Elements(excluded) && found[0].id in Ids(found);
      IdsConcat(found, Descend(Elements(grown), owned));
      excluded := grown;
    }
  }
}
