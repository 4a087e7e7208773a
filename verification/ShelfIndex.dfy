// shelf_index.cpp: a shelf listing served from memory, from the disk snapshot or by probing the book,
// and the pruning of the shared memory when files disappear.
module ShelfIndex {
  import opened Bytes
  import opened Snapshot
  import SnapshotCodec
  import SnapshotLaws

  const SLASH: Byte := 0x2f
  const SPACE: Byte := 0x20

  datatype ShelfFile = ShelfFile(path: Bytes, name: Bytes, size: Int64, stamp: FileStamp)

  /** What `geist::probe_book` says of a book, or that it threw. */
  datatype Probe =
    | Summary(title: Bytes, shortTitle: Bytes, documentNumber: Bytes, date: Bytes, time: Bytes)
    | Unreadable

  /** What the world shows while one file is visited: the cancel flag, what other threads did to the shared
      memory since the last visit, the probe if one is made, and the stamp after it. */
  datatype Visit = Visit(cancelled: bool, erased: set<Bytes>, inserted: map<Bytes, ShelfIdentity>,
                         probe: Probe, after: Option<FileStamp>)

  datatype ShelfStats = ShelfStats(memoryHits: nat, diskHits: nat, probes: nat)

  /** The book a path held under a stamp, as one decoder revision reads it. */
  type Library = (Bytes, Bytes, FileStamp) -> Probe

  /** The entry a probe of the file fills in. */
  function EntryFor(name: Bytes, size: Int64, probe: Probe): ShelfEntry {
    match probe
    case Unreadable => ShelfEntry(name, name, [], [], size, false)
    case Summary(title, shortTitle, number, date, time) =>
      var found := if title == [] then shortTitle else title;
      ShelfEntry(name, if found == [] then name else found, number,
                 if date == [] then [] else date + [SPACE] + time, size, true)
  }

  /** What a listing shows of a file: under its own name where it has no title, with date and time after a blank. */
  lemma EntryIsThis(name: Bytes, size: Int64, probe: Probe)
    ensures var e := EntryFor(name, size, probe);
            && e.filename == name && e.size == size
            && (probe.Unreadable? ==> !e.readable && e.title == name && e.documentNumber == [] && e.built == [])
            && (probe.Summary? ==>
                  && e.readable && e.documentNumber == probe.documentNumber
                  && (probe.title != [] ==> e.title == probe.title)
                  && (probe.title == [] && probe.shortTitle != [] ==> e.title == probe.shortTitle)
                  && (probe.title == [] && probe.shortTitle == [] ==> e.title == name)
                  && e.built == if probe.date == [] then [] else probe.date + [' ' as int] + probe.time)
  {
  }

  /** The entry of a file that is probed now: a success under a stamp that has moved on does not count. */
  function DirectEntry(file: ShelfFile, visit: Visit): ShelfEntry {
    var entry := EntryFor(file.name, file.size, visit.probe);
    if visit.after == Some(file.stamp) then entry else entry.(readable := false)
  }

  /** The entry the file's scanned stamp stands for. */
  function TrueEntry(library: Library, producer: Bytes, file: ShelfFile): ShelfEntry {
    EntryFor(file.name, file.size, library(producer, file.path, file.stamp))
  }

  /** The entry is what a probe gives now, or, where the file has changed since the scan, what its scanned stamp stands
      for. */
  predicate IsTrue(library: Library, producer: Bytes, file: ShelfFile, visit: Visit, entry: ShelfEntry) {
    || entry == DirectEntry(file, visit)
    || (visit.after != Some(file.stamp) && entry == TrueEntry(library, producer, file))
  }

  ghost predicate AllRemembered(stored: Option<Bytes>, directory: Bytes, producer: Bytes, files: seq<ShelfFile>) {
    forall i | 0 <= i < |files| :: Remembered(stored, directory, producer, files[i])
  }

  function PathOf(directory: Bytes, name: Bytes): Bytes {
    directory + [SLASH] + name
  }

  predicate Scanned(directory: Bytes, file: ShelfFile) {
    file.path == PathOf(directory, file.name) && SLASH !in file.name && file.size == file.stamp.size
  }

  /** A stamp is not reused: if the file shows the scanned stamp after the probe, that is what was probed. */
  predicate Honest(library: Library, producer: Bytes, file: ShelfFile, visit: Visit) {
    visit.after == Some(file.stamp) ==> visit.probe == library(producer, file.path, file.stamp)
  }

  /** An identity worth keeping for a file of this directory: readable, and true to its stamp. */
  predicate Kept(library: Library, producer: Bytes, directory: Bytes, identity: ShelfIdentity) {
    var name := identity.entry.filename;
    && identity.entry.readable
    && identity.entry == EntryFor(name, identity.stamp.size,
                                  library(producer, PathOf(directory, name), identity.stamp))
  }

  ghost predicate MemorySound(library: Library, producer: Bytes, memory: map<Bytes, ShelfIdentity>) {
    forall directory, name | SLASH !in name && PathOf(directory, name) in memory ::
      var identity := memory[PathOf(directory, name)];
      identity.entry.filename == name && Kept(library, producer, directory, identity)
  }

  ghost predicate AllKept(library: Library, producer: Bytes, directory: Bytes, identities: seq<ShelfIdentity>) {
    forall i | 0 <= i < |identities| :: Kept(library, producer, directory, identities[i])
  }

  /** A stored file that decodes for this shelf and this producer holds only identities worth keeping. */
  ghost predicate DiskSound(library: Library, producer: Bytes, directory: Bytes, bytes: Bytes) {
    var decoded := Decoded(bytes, directory, producer);
    decoded.Some? ==> AllKept(library, producer, directory, decoded.value.identities)
  }

  /** `disk.emplace` for each identity: the first of a name stays. */
  function ByName(identities: seq<ShelfIdentity>): (disk: map<Bytes, ShelfIdentity>)
    ensures forall name | name in disk :: disk[name] in identities && disk[name].entry.filename == name
  {
    if identities == [] then map[] else
    var last := identities[|identities| - 1];
    var disk := ByName(identities[..|identities| - 1]);
    if last.entry.filename in disk then disk else disk[last.entry.filename := last]
  }

  lemma {:induction false} ByNameFinds(identities: seq<ShelfIdentity>, i: nat)
    requires DistinctNames(identities) && i < |identities|
    ensures identities[i].entry.filename in ByName(identities)
    ensures ByName(identities)[identities[i].entry.filename] == identities[i]
    decreases |identities|
  {
    var n := |identities| - 1;
    if i < n {
      ByNameFinds(identities[..n], i);
    }
  }

  lemma {:induction false} ByNameCounts(identities: seq<ShelfIdentity>)
    requires DistinctNames(identities)
    ensures |ByName(identities)| == |identities|
  {
    if identities != [] {
      var front := identities[..|identities| - 1];
      ByNameCounts(front);
    }
  }

  /** How many identities the stored file gives. */
  function StoredCount(stored: Option<Bytes>, directory: Bytes, producer: Bytes): nat {
    if stored.Some? && Decoded(stored.value, directory, producer).Some?
    then |Decoded(stored.value, directory, producer).value.identities| else 0
  }

  /** The identities of the readable entries, in the order of the files. */
  function Readable(files: seq<ShelfFile>, entries: seq<ShelfEntry>): seq<ShelfIdentity>
    requires |entries| <= |files|
  {
    if entries == [] then []
    else
      var n := |entries| - 1;
      Readable(files, entries[..n])
      + if entries[n].readable then [ShelfIdentity(files[n].stamp, entries[n])] else []
  }

  lemma NothingReadable(files: seq<ShelfFile>)
    ensures Readable(files, []) == []
  {
  }

  lemma ReadableGrows(files: seq<ShelfFile>, entries: seq<ShelfEntry>, identity: ShelfIdentity)
    requires |entries| < |files| && identity.stamp == files[|entries|].stamp
    ensures Readable(files, entries + [identity.entry])
            == if identity.entry.readable then Readable(files, entries) + [identity] else Readable(files, entries)
  {
    var longer := entries + [identity.entry];
    assert longer[..|entries|] == entries;
    assert identity == ShelfIdentity(identity.stamp, identity.entry);
  }

  /** What a listing writes to the store: all its readable entries, if it went through to the end under the lock, probed
      a file or holds another number of them than the stored file, and they may be stored. */
  ghost function Rewritten(files: seq<ShelfFile>, entries: seq<ShelfEntry>, probes: nat, last: bool, locked: bool,
                           stored: Option<Bytes>, directory: Bytes, producer: Bytes): Option<Bytes>
    requires |entries| <= |files|
  {
    var snapshot := ShelfSnapshot(directory, producer, Readable(files, entries));
    var changed := probes > 0 || |snapshot.identities| != StoredCount(stored, directory, producer);
    if |entries| == |files| && locked && !last && changed && Encodable(snapshot) then Some(Encoded(snapshot)) else None
  }

  /** The stored file answers for this file: it decodes, and holds the file's name under the file's stamp. */
  predicate Remembered(stored: Option<Bytes>, directory: Bytes, producer: Bytes, file: ShelfFile) {
    && stored.Some? && Decoded(stored.value, directory, producer).Some?
    && HasIdentity(Decoded(stored.value, directory, producer).value.identities, file)
  }

  predicate HasIdentity(identities: seq<ShelfIdentity>, file: ShelfFile) {
    exists i | 0 <= i < |identities| ::
      identities[i].entry.filename == file.name && identities[i].stamp == file.stamp
  }

  lemma RememberedIsFound(stored: Option<Bytes>, directory: Bytes, producer: Bytes, file: ShelfFile)
    requires Remembered(stored, directory, producer, file)
    ensures var disk := ByName(Decoded(stored.value, directory, producer).value.identities);
            file.name in disk && disk[file.name].stamp == file.stamp
  {
    hide Decoded;
    SnapshotLaws.DecodedIsEncoded(stored.value, directory, producer);
    var identities := Decoded(stored.value, directory, producer).value.identities;
    var i :| 0 <= i < |identities| && identities[i].entry.filename == file.name && identities[i].stamp == file.stamp;
    ByNameFinds(identities, i);
  }

  // ----- paths

  lemma SlashInName(d: Bytes, name: Bytes, k: nat)
    requires |d| < k < |PathOf(d, name)| && PathOf(d, name)[k] == SLASH
    ensures SLASH in name
  {
    assert name[k - |d| - 1] == SLASH;
  }

  lemma PathsSplitOneWay(d: Bytes, name: Bytes, d': Bytes, name': Bytes)
    requires SLASH !in name && SLASH !in name' && PathOf(d, name) == PathOf(d', name')
    ensures d == d' && name == name'
  {
    var path := PathOf(d, name);
    if |d| < |d'| { SlashInName(d, name, |d'|); }
    if |d'| < |d| { SlashInName(d', name', |d|); }
    assert d == path[..|d|] && d' == path[..|d'|];
    assert name == path[|d| + 1..] && name' == path[|d'| + 1..];
  }

  lemma MemoryKeepsSound(library: Library, producer: Bytes, memory: map<Bytes, ShelfIdentity>, erased: set<Bytes>,
                         inserted: map<Bytes, ShelfIdentity>)
    requires MemorySound(library, producer, memory) && MemorySound(library, producer, inserted)
    ensures MemorySound(library, producer, (memory - erased) + inserted)
  {
  }

  lemma MemoryTakesKept(library: Library, producer: Bytes, memory: map<Bytes, ShelfIdentity>, directory: Bytes,
                        file: ShelfFile, identity: ShelfIdentity)
    requires MemorySound(library, producer, memory) && Scanned(directory, file)
    requires identity.entry.filename == file.name && Kept(library, producer, directory, identity)
    ensures MemorySound(library, producer, memory[file.path := identity])
  {
    var more := memory[file.path := identity];
    forall d, name | SLASH !in name && PathOf(d, name) in more
      ensures more[PathOf(d, name)].entry.filename == name && Kept(library, producer, d, more[PathOf(d, name)])
    {
      if PathOf(d, name) == file.path {
        PathsSplitOneWay(d, name, directory, file.name);
      }
    }
  }

  lemma HasIdentityGrows(before: seq<ShelfIdentity>, after: seq<ShelfIdentity>, identity: ShelfIdentity, file: ShelfFile)
    requires after == if identity.entry.readable then before + [identity] else before
    ensures forall f: ShelfFile | HasIdentity(before, f) :: HasIdentity(after, f)
    ensures identity.entry.readable && identity.entry.filename == file.name && identity.stamp == file.stamp
            ==> HasIdentity(after, file)
  {
    forall f: ShelfFile | HasIdentity(before, f) ensures HasIdentity(after, f) {
      var i :| 0 <= i < |before| && before[i].entry.filename == f.name && before[i].stamp == f.stamp;
      assert after[i] == before[i];
    }
    if identity.entry.readable { assert after[|before|] == identity; }
  }

  ghost predicate DiskKept(library: Library, producer: Bytes, directory: Bytes, disk: map<Bytes, ShelfIdentity>) {
    forall name | name in disk ::
      disk[name].entry.filename == name && Kept(library, producer, directory, disk[name])
  }

  /** Reads the stored snapshot into a map by name; anything that does not decode is an empty map. */
  method Load(ghost library: Library, producer: Bytes, directory: Bytes, ghost files: seq<ShelfFile>,
              stored: Option<Bytes>)
    returns (disk: map<Bytes, ShelfIdentity>)
    requires stored.Some? ==> DiskSound(library, producer, directory, stored.value)
    ensures DiskKept(library, producer, directory, disk)
    ensures forall i | 0 <= i < |files| && Remembered(stored, directory, producer, files[i]) ::
              files[i].name in disk && disk[files[i].name].stamp == files[i].stamp
    ensures |disk| == StoredCount(stored, directory, producer)
  {
    hide Decoded, Kept;
    disk := map[];
    if stored.Some? {
      var nothing := ShelfSnapshot(directory, producer, []);
      var ok, loaded := SnapshotCodec.DecodeSnapshot(stored.value, directory, producer, nothing);
      if ok {
        disk := ByName(loaded.identities);
        SnapshotLaws.DecodedIsEncoded(stored.value, directory, producer);
        assert DistinctNames(loaded.identities);
        ByNameCounts(loaded.identities);
        forall i | 0 <= i < |files| && Remembered(stored, directory, producer, files[i])
          ensures files[i].name in disk && disk[files[i].name].stamp == files[i].stamp
        {
          RememberedIsFound(stored, directory, producer, files[i]);
        }
      }
    }
  }

  /** Encodes the listing; a snapshot that cannot be encoded is skipped. */
  method Save(ghost library: Library, producer: Bytes, directory: Bytes, ghost files: seq<ShelfFile>,
              current: seq<ShelfIdentity>)
    returns (saved: Option<Bytes>)
    requires AllKept(library, producer, directory, current)
    ensures saved.Some? ==> DiskSound(library, producer, directory, saved.value)
    ensures saved.Some? ==> forall f: ShelfFile | HasIdentity(current, f) :: Remembered(saved, directory, producer, f)
    ensures var snapshot := ShelfSnapshot(directory, producer, current);
            saved == if Encodable(snapshot) then Some(Encoded(snapshot)) else None
  {
    hide Decoded, Encodable, Encoded, Kept;
    var snapshot := ShelfSnapshot(directory, producer, current);
    saved := SnapshotCodec.EncodeSnapshot(snapshot);
    if saved.Some? { SnapshotLaws.EncodedIsDecoded(snapshot); }
  }

  class ShelfMemory {
    var metadata: map<Bytes, ShelfIdentity>

    constructor ()
      ensures metadata == map[]
    {
      metadata := map[];
    }

    /** One file of the loop: from memory, from disk, or probed; kept in memory when readable. */
    method VisitFile(ghost library: Library, ghost producer: Bytes, ghost directory: Bytes, file: ShelfFile,
                     visit: Visit, disk: map<Bytes, ShelfIdentity>, stats: ShelfStats)
      returns (identity: ShelfIdentity, counted: ShelfStats)
      requires Scanned(directory, file) && Honest(library, producer, file, visit)
      requires MemorySound(library, producer, metadata)
      requires MemorySound(library, producer, visit.inserted)
      requires DiskKept(library, producer, directory, disk)
      modifies this`metadata
      ensures MemorySound(library, producer, metadata)
      ensures identity.stamp == file.stamp
      ensures IsTrue(library, producer, file, visit, identity.entry)
      ensures identity.entry.readable ==> identity.entry.filename == file.name
                                          && Kept(library, producer, directory, identity)
      ensures identity.entry.readable ==> file.path in metadata && metadata[file.path] == identity
      ensures counted.memoryHits + counted.diskHits + counted.probes
              == stats.memoryHits + stats.diskHits + stats.probes + 1
      ensures counted.probes == stats.probes ==> identity.entry.readable
      ensures stats.probes <= counted.probes
      ensures file.name in disk && disk[file.name].stamp == file.stamp ==> counted.probes == stats.probes
      // memory first, then the stored file, then the book
      ensures var now := (old(metadata) - visit.erased) + visit.inserted;
              && (if file.path in now && now[file.path].stamp == file.stamp then
                    identity == now[file.path] && counted == stats.(memoryHits := stats.memoryHits + 1)
                  else if file.name in disk && disk[file.name].stamp == file.stamp then
                    identity == disk[file.name] && counted == stats.(diskHits := stats.diskHits + 1)
                  else
                    && identity == ShelfIdentity(file.stamp, DirectEntry(file, visit))
                    && counted == stats.(probes := stats.probes + 1))
              && metadata == if identity.entry.readable then now[file.path := identity] else now
    {
      MemoryKeepsSound(library, producer, metadata, visit.erased, visit.inserted);
      metadata := (metadata - visit.erased) + visit.inserted;
      if file.path in metadata && metadata[file.path].stamp == file.stamp {
        identity := metadata[file.path];
        counted := stats.(memoryHits := stats.memoryHits + 1);
      } else if file.name in disk && disk[file.name].stamp == file.stamp {
        identity := disk[file.name];
        counted := stats.(diskHits := stats.diskHits + 1);
      } else {
        counted := stats.(probes := stats.probes + 1);
        identity := ShelfIdentity(file.stamp, EntryFor(file.name, file.size, visit.probe));
        if visit.after != Some(file.stamp) {
          identity := identity.(entry := identity.entry.(readable := false));
        }
      }
      if identity.entry.readable {
        MemoryTakesKept(library, producer, metadata, directory, file, identity);
        metadata := metadata[file.path := identity];
      }
    }

    /** `shelf_entries`. `stored` is what the store's read returned, `last` the cancel flag after the loop. */
    method ShelfEntries(ghost library: Library, producer: Bytes, directory: Bytes, files: seq<ShelfFile>,
                        visits: seq<Visit>, last: bool, stored: Option<Bytes>, locked: bool)
      returns (entries: seq<ShelfEntry>, stats: ShelfStats, saved: Option<Bytes>)
      requires |visits| == |files|
      requires forall i | 0 <= i < |files| ::
                 && Scanned(directory, files[i]) && Honest(library, producer, files[i], visits[i])
                 && MemorySound(library, producer, visits[i].inserted)
      requires MemorySound(library, producer, metadata)
      requires stored.Some? ==> DiskSound(library, producer, directory, stored.value)
      modifies this`metadata
      // the listing is what probing every file would give, or the scanned file's own entry if it changed since
      ensures |entries| <= |files| && ((forall i | 0 <= i < |files| :: !visits[i].cancelled) ==> |entries| == |files|)
      ensures forall i | 0 <= i < |entries| :: IsTrue(library, producer, files[i], visits[i], entries[i])
      // every file is accounted for once
      ensures |entries| == |files| ==> stats.memoryHits + stats.diskHits + stats.probes == |files|
      // a file the stored snapshot remembers is not probed, and a saved snapshot remembers every readable file
      ensures AllRemembered(stored, directory, producer, files) ==> stats.probes == 0
      ensures saved.Some? ==> |entries| == |files| && forall i | 0 <= i < |files| && entries[i].readable ::
                Remembered(saved, directory, producer, files[i])
      // what is kept, in memory and on disk, is readable and true to its stamp
      ensures MemorySound(library, producer, metadata)
      ensures saved.Some? ==> locked && !last && DiskSound(library, producer, directory, saved.value)
      ensures |entries| <= |files|
              && saved == Rewritten(files, entries, stats.probes, last, locked, stored, directory, producer)
    {
      hide MemorySound, Scanned, Honest, IsTrue, Kept, DiskSound, HasIdentity, Remembered, Encodable, Encoded,
        StoredCount, Readable;
      NothingReadable(files);
      var disk := Load(library, producer, directory, files, stored);
      var current: seq<ShelfIdentity> := [];
      stats, entries, saved := ShelfStats(0, 0, 0), [], None;
      for i := 0 to |files|
        invariant |entries| == i && current == Readable(files, entries)
        invariant stats.memoryHits + stats.diskHits + stats.probes == i
        invariant MemorySound(library, producer, metadata) && AllKept(library, producer, directory, current)
        invariant AllRemembered(stored, directory, producer, files) ==> stats.probes == 0
        invariant forall k | 0 <= k < i && entries[k].readable :: HasIdentity(current, files[k])
        invariant forall k | 0 <= k < i :: IsTrue(library, producer, files[k], visits[k], entries[k])
      {
        if visits[i].cancelled { return; }
        ghost var before := current;
        var identity;
        identity, stats := VisitFile(library, producer, directory, files[i], visits[i], disk, stats);
        if identity.entry.readable { current := current + [identity]; }
        ReadableGrows(files, entries, identity);
        entries := entries + [identity.entry];
        HasIdentityGrows(before, current, identity, files[i]);
      }
      var changed := stats.probes > 0 || |current| != |disk|;
      if locked && changed && !last {
        saved := Save(library, producer, directory, files, current);
      }
    }

    /** `forget_missing`. `keys` are the keys of the map in its own order, which is the order it iterates in. */
    method ForgetMissing(directory: Bytes, files: seq<ShelfFile>, keys: seq<Bytes>)
      requires InOrder(keys) && metadata.Keys == set k | k in keys
      modifies this`metadata
      ensures metadata == map k | k in old(metadata) && !Missing(directory, files, k) :: old(metadata)[k]
    {
      hide Less, Present, Missing;
      var prefix := directory + [SLASH];
      var at := LowerBound(keys, prefix);
      ghost var was := metadata;
      ghost var gone: set<Bytes> := {};
      NoneBefore(directory, files, keys);
      while at < |keys|
        invariant at <= |keys|
        invariant at < |keys| ==> !Less(keys[at], prefix)
        invariant metadata == was - gone
        invariant forall i | 0 <= i < at :: keys[i] in gone <==> Missing(directory, files, keys[i])
        invariant forall k | k in gone :: Missing(directory, files, k)
      {
        var key := keys[at];
        MissingIs(directory, files, key);
        if !StartsWith(key, prefix) {
          NoneAfter(directory, files, keys, at);
          break;
        }
        if SLASH !in key[|prefix|..] && !Present(files, key) {
          metadata := metadata - {key};
          gone := gone + {key};
        }
        at := at + 1;
        if at < |keys| { NotLessGoesUp(keys[at - 1], keys[at], prefix); }
      }
      assert forall k | k in was :: k in gone <==> Missing(directory, files, k);
    }
  }

  /** The path is that of a file right in the directory. */
  predicate IsFileOf(directory: Bytes, key: Bytes, name: Bytes) {
    key == directory + ['/' as int] + name && '/' as int !in name
  }

  /** Missing are just the paths of the directory's own files that the scan did not find. */
  lemma MissingExactly(directory: Bytes, files: seq<ShelfFile>, key: Bytes)
    ensures Missing(directory, files, key)
            <==> (exists name: Bytes :: IsFileOf(directory, key, name))
                 && forall i | 0 <= i < |files| :: files[i].path != key
  {
    var prefix := directory + [SLASH];
    if Missing(directory, files, key) {
      assert key == prefix + key[|prefix|..];
      assert IsFileOf(directory, key, key[|prefix|..]);
    }
    if name: Bytes :| IsFileOf(directory, key, name) {
      assert key[..|prefix|] == prefix && key[|prefix|..] == name;
    }
  }

  lemma MissingIs(directory: Bytes, files: seq<ShelfFile>, key: Bytes)
    ensures var prefix := directory + [SLASH];
            Missing(directory, files, key) <==> StartsWith(key, prefix) && SLASH !in key[|prefix|..] && !Present(files, key)
  {
  }

  lemma NoneBefore(directory: Bytes, files: seq<ShelfFile>, keys: seq<Bytes>)
    ensures forall i | 0 <= i < LowerBound(keys, directory + [SLASH]) :: !Missing(directory, files, keys[i])
  {
    var prefix := directory + [SLASH];
    forall i | 0 <= i < LowerBound(keys, prefix) ensures !Missing(directory, files, keys[i]) {
      PrefixIsNotLess(keys[i], prefix);
    }
  }

  /** The first key without the prefix ends the keys that have it. */
  lemma NoneAfter(directory: Bytes, files: seq<ShelfFile>, keys: seq<Bytes>, at: nat)
    requires InOrder(keys) && at < |keys|
    requires !Less(keys[at], directory + [SLASH]) && !StartsWith(keys[at], directory + [SLASH])
    ensures forall i | at <= i < |keys| :: !Missing(directory, files, keys[i])
  {
    forall i | at <= i < |keys| ensures !Missing(directory, files, keys[i]) {
      if i > at { PrefixedKeysAreTogether(directory + [SLASH], keys[at], keys[i]); }
    }
  }

  ghost predicate InOrder(keys: seq<Bytes>) {
    forall i, j | 0 <= i < j < |keys| :: Less(keys[i], keys[j])
  }

  predicate StartsWith(key: Bytes, prefix: Bytes) {
    |prefix| <= |key| && key[..|prefix|] == prefix
  }

  predicate Present(files: seq<ShelfFile>, path: Bytes) {
    exists i | 0 <= i < |files| :: files[i].path == path
  }

  /** A direct child of the directory that the scan did not find. */
  predicate Missing(directory: Bytes, files: seq<ShelfFile>, key: Bytes) {
    var prefix := directory + [SLASH];
    StartsWith(key, prefix) && SLASH !in key[|prefix|..] && !Present(files, key)
  }

  /** The first index whose key is not less than `wanted`. */
  function LowerBound(keys: seq<Bytes>, wanted: Bytes): (at: nat)
    ensures at <= |keys|
    ensures forall i | 0 <= i < at :: Less(keys[i], wanted)
    ensures at < |keys| ==> !Less(keys[at], wanted)
  {
    if keys == [] || !Less(keys[0], wanted) then 0 else 1 + LowerBound(keys[1..], wanted)
  }

  lemma StartsWithUnfolds(key: Bytes, prefix: Bytes)
    requires prefix != []
    ensures StartsWith(key, prefix) <==> key != [] && key[0] == prefix[0] && StartsWith(key[1..], prefix[1..])
  {
    if StartsWith(key, prefix) {
      assert key[0] == key[..|prefix|][0];
      assert key[1..][..|prefix| - 1] == key[..|prefix|][1..];
    }
    if key != [] && key[0] == prefix[0] && StartsWith(key[1..], prefix[1..]) {
      assert key[..|prefix|] == [key[0]] + key[1..][..|prefix| - 1];
      assert prefix == [prefix[0]] + prefix[1..];
    }
  }

  lemma {:induction false} PrefixIsNotLess(key: Bytes, prefix: Bytes)
    ensures StartsWith(key, prefix) ==> !Less(key, prefix)
  {
    if prefix != [] && StartsWith(key, prefix) {
      StartsWithUnfolds(key, prefix);
      PrefixIsNotLess(key[1..], prefix[1..]);
    }
  }

  /** In key order nothing that starts with the prefix follows a key that is past it. */
  lemma {:induction false} PrefixedKeysAreTogether(prefix: Bytes, key: Bytes, later: Bytes)
    requires !Less(key, prefix) && !StartsWith(key, prefix) && Less(key, later)
    ensures !StartsWith(later, prefix)
  {
    if prefix != [] {
      StartsWithUnfolds(later, prefix);
      StartsWithUnfolds(key, prefix);
      if key != [] && key[0] == prefix[0] && later[0] == prefix[0] {
        PrefixedKeysAreTogether(prefix[1..], key[1..], later[1..]);
      }
    }
  }

  lemma NotLessGoesUp(key: Bytes, later: Bytes, prefix: Bytes)
    requires !Less(key, prefix) && Less(key, later)
    ensures !Less(later, prefix)
  {
    if Less(later, prefix) { LessIsTransitive(key, later, prefix); }
  }
}
