/** The hash manager of the download client: an in-memory map from a file's
    relative path to its base64 digest, loaded from and saved to one hash
    file named after the manager's identifier.

    The file system is modelled as a map from file name to the hash list
    stored in that file; a name that is not in the map is a file that does
    not exist. The exceptions thrown by the C# `HashManager` become `HashError` values. */
module HashManager {
  import opened Wrappers

  /** One stored entry: a file's relative path and its base64 digest. */
  datatype HashFile = HashFile(filePath: string, hash: string)

  /** The persisted document: the ordered entries under its "Files" field. */
  datatype HashList = HashList(files: seq<HashFile>)

  /** The files the manager can see, by name. */
  type Disk = map<string, HashList>

  /** A manager: its identifier, its path-to-digest map, and the disk it
      reads and writes. */
  datatype Store = Store(id: string, hashMap: map<string, string>, disk: Disk)

  datatype HashError =
    | MissingKey(path: string)
    | Integrity(path: string, expected: string, actual: string)
    | ManifestMissing(fileName: string)

  /** The hash file name, `HashFile{id}.hsh`. */
  function HashFileName(id: string): (name: string)
    ensures |name| == |id| + 12
    ensures name[..8] == "HashFile"
    ensures name[8..|name| - 4] == id
    ensures name[|name| - 4..] == ".hsh"
  {
    "HashFile" + id + ".hsh"
  }

  /** Two managers share a hash file exactly when they share an identifier. */
  lemma HashFileNameInjective(a: string, b: string)
    ensures HashFileName(a) == HashFileName(b) <==> a == b
  {
    if HashFileName(a) == HashFileName(b) {
      var n := HashFileName(a);
      assert a == n[8..|n| - 4] == b;
    }
  }

  /** A new manager: nothing is known about any path yet. */
  function Init(id: string, disk: Disk): (s: Store)
    ensures s.id == id && s.disk == disk
    ensures forall p :: !Has(s, p)
  {
    Store(id, map[], disk)
  }

  predicate Exists(s: Store)
  {
    HashFileName(s.id) in s.disk
  }

  /** Every file other than `name` is the same in `d` and `d'`. */
  ghost predicate OthersUnchanged(d: Disk, d': Disk, name: string)
  {
    forall n :: n != name ==> (n in d <==> n in d') && (n in d ==> d[n] == d'[n])
  }

  /** Writes an empty hash list when the hash file does not exist. */
  function CreateIfMissing(s: Store): (s': Store)
    ensures s'.id == s.id && s'.hashMap == s.hashMap
    ensures Exists(s')
    ensures Exists(s) ==> s'.disk == s.disk
    ensures !Exists(s) ==> s'.disk[HashFileName(s.id)].files == []
    ensures OthersUnchanged(s.disk, s'.disk, HashFileName(s.id))
  {
    if Exists(s) then s
    else s.(disk := s.disk[HashFileName(s.id) := HashList([])])
  }

  lemma CreateIfMissingIdempotent(s: Store)
    ensures CreateIfMissing(CreateIfMissing(s)) == CreateIfMissing(s)
  { }

  /** The set of paths named by a list of entries. */
  function PathsOf(es: seq<HashFile>): set<string>
  {
    set e | e in es :: e.filePath
  }

  /** The `foreach` of `Load`: each entry in order overwrites its path. */
  function LoadEntries(acc: map<string, string>, es: seq<HashFile>): (m: map<string, string>)
    ensures m.Keys == acc.Keys + PathsOf(es)
    decreases |es|
  {
    if es == [] then acc
    else
      assert PathsOf(es) == {es[0].filePath} + PathsOf(es[1..]) by {
        assert es == [es[0]] + es[1..];
      }
      LoadEntries(acc[es[0].filePath := es[0].hash], es[1..])
  }

  /** Reference reading of a list: the digest of the LAST entry naming `p`,
      found by scanning from the end. */
  function LastHash(es: seq<HashFile>, p: string): (h: Option<string>)
    ensures h.None? <==> p !in PathsOf(es)
    decreases |es|
  {
    if es == [] then None
    else
      assert es == es[..|es| - 1] + [es[|es| - 1]];
      if es[|es| - 1].filePath == p then Some(es[|es| - 1].hash)
      else LastHash(es[..|es| - 1], p)
  }

  function Lookup(m: map<string, string>, p: string): Option<string>
  {
    if p in m then Some(m[p]) else None
  }

  /** Folding one more entry is one more overwrite. */
  lemma {:induction false} LoadEntriesSnoc(acc: map<string, string>, es: seq<HashFile>, e: HashFile)
    ensures LoadEntries(acc, es + [e]) == LoadEntries(acc, es)[e.filePath := e.hash]
    decreases |es|
  {
    if es == [] {
      assert [e][1..] == [];
    } else {
      assert (es + [e])[1..] == es[1..] + [e];
      LoadEntriesSnoc(acc[es[0].filePath := es[0].hash], es[1..], e);
    }
  }

  /** Last write wins: after folding, a path holds the digest of its last
      entry, and a path no entry names keeps its previous value. */
  lemma {:induction false} LoadEntriesLastWins(acc: map<string, string>, es: seq<HashFile>, p: string)
    ensures Lookup(LoadEntries(acc, es), p)
         == if LastHash(es, p).Some? then LastHash(es, p) else Lookup(acc, p)
    decreases |es|
  {
    if es != [] {
      var init, last := es[..|es| - 1], es[|es| - 1];
      assert es == init + [last];
      LoadEntriesSnoc(acc, init, last);
      LoadEntriesLastWins(acc, init, p);
    }
  }

  /** `LoadEntriesLastWins` for every path of a fold started from an empty map. */
  lemma LoadFromEmptyLastWins(es: seq<HashFile>)
    ensures forall p :: p in LoadEntries(map[], es) ==> Some(LoadEntries(map[], es)[p]) == LastHash(es, p)
  {
    forall p | p in LoadEntries(map[], es)
      ensures Some(LoadEntries(map[], es)[p]) == LastHash(es, p)
    {
      LoadEntriesLastWins(map[], es, p);
    }
  }

  /** What `Load` leaves behind: the manager's new state, and whether the
      read succeeded. The map is cleared before the read, so a failed read
      still leaves it empty. */
  datatype Loaded = Loaded(store: Store, outcome: Outcome<HashError>)

  /** Clears the map, then refills it from the hash file; an absent file is
      an error reported after the map has been cleared. */
  function Load(s: Store): (r: Loaded)
    ensures r.store.id == s.id && r.store.disk == s.disk
    ensures r.outcome.Fail? <==> !Exists(s)
    ensures r.outcome.Fail? ==> r.outcome.error == ManifestMissing(HashFileName(s.id))
    ensures r.outcome.Fail? ==> forall p :: !Has(r.store, p)
    ensures r.outcome.Pass? ==> r.store.hashMap.Keys == PathsOf(s.disk[HashFileName(s.id)].files)
    ensures r.outcome.Pass? ==> forall p :: p in r.store.hashMap ==>
              Some(r.store.hashMap[p]) == LastHash(s.disk[HashFileName(s.id)].files, p)
  {
    var cleared := s.(hashMap := map[]);
    var name := HashFileName(s.id);
    if name !in s.disk then Loaded(cleared, Fail(ManifestMissing(name)))
    else
      var files := s.disk[name].files;
      LoadFromEmptyLastWins(files);
      Loaded(cleared.(hashMap := LoadEntries(map[], files)), Pass)
  }

  /** Whatever the map held before, `Load` gives the same result. */
  lemma LoadDiscardsPriorState(s: Store, prior: map<string, string>)
    ensures Load(s.(hashMap := prior)) == Load(s)
  { }

  predicate Has(s: Store, filePath: string)
  {
    filePath in s.hashMap
  }

  function Get(s: Store, filePath: string): (r: Result<string, HashError>)
    ensures r.Failure? <==> !Has(s, filePath)
    ensures r.Failure? ==> r.error == MissingKey(filePath)
    ensures r.Success? ==> r.value == s.hashMap[filePath]
  {
    if !Has(s, filePath) then Failure(MissingKey(filePath))
    else Success(s.hashMap[filePath])
  }

  function Put(s: Store, filePath: string, hash: string): (s': Store)
    ensures Has(s', filePath) && Get(s', filePath) == Success(hash)
    ensures forall q :: q != filePath ==> Get(s', q) == Get(s, q)
    ensures s'.hashMap.Keys == s.hashMap.Keys + {filePath}
    ensures s'.id == s.id && s'.disk == s.disk
  {
    s.(hashMap := s.hashMap[filePath := hash])
  }

  /** Validates `hash`, freshly computed, against the stored digest. */
  function Check(s: Store, filePath: string, hash: string): (r: Outcome<HashError>)
    ensures r.Pass? <==> Has(s, filePath) && s.hashMap[filePath] == hash
    ensures !Has(s, filePath) ==> r == Fail(MissingKey(filePath))
    ensures Has(s, filePath) && s.hashMap[filePath] != hash ==>
              r == Fail(Integrity(filePath, s.hashMap[filePath], hash))
  {
    if !Has(s, filePath) then Fail(MissingKey(filePath))
    else if s.hashMap[filePath] != hash then Fail(Integrity(filePath, s.hashMap[filePath], hash))
    else Pass
  }

  /** `Check` passes exactly when `Get` returns the same digest, and fails
      with the same missing-key error when `Get` does. */
  lemma CheckAgreesWithGet(s: Store, filePath: string, hash: string)
    ensures Check(s, filePath, hash) == Pass <==> Get(s, filePath) == Success(hash)
    ensures Get(s, filePath).Failure? ==> Check(s, filePath, hash) == Fail(Get(s, filePath).error)
  { }

  /** After recording `d`, checking `d` passes and checking any other digest
      reports the recorded one as expected and the new one as actual. */
  lemma CheckAfterPut(s: Store, filePath: string, d: string, d': string)
    ensures Check(Put(s, filePath, d), filePath, d') ==
              if d' == d then Pass else Fail(Integrity(filePath, d, d'))
  { }

  /** No two entries of a list name the same path. */
  ghost predicate NoDuplicatePaths(es: seq<HashFile>)
  {
    forall i, j :: 0 <= i < j < |es| ==> es[i].filePath != es[j].filePath
  }

  /** `es` lists exactly the pairs of `m`, once each, in some order. */
  ghost predicate Represents(m: map<string, string>, es: seq<HashFile>)
  {
    && NoDuplicatePaths(es)
    && (forall e :: e in es ==> e.filePath in m && m[e.filePath] == e.hash)
    && m.Keys <= PathsOf(es)
  }

  /** Appending an entry for a path not yet listed keeps paths unique and
      adds that one path. */
  lemma AppendNewPath(es: seq<HashFile>, e: HashFile)
    requires NoDuplicatePaths(es) && e.filePath !in PathsOf(es)
    ensures NoDuplicatePaths(es + [e])
    ensures PathsOf(es + [e]) == PathsOf(es) + {e.filePath}
  {
    assert forall i :: 0 <= i < |es| ==> es[i].filePath in PathsOf(es);
    assert forall x :: x in es + [e] <==> x in es || x == e;
  }

  /** Midway through `Save`: `files` lists, once each, the pairs of `m`
      whose keys are not in `remaining`. */
  ghost predicate Emitted(m: map<string, string>, files: seq<HashFile>, remaining: set<string>)
  {
    && remaining <= m.Keys
    && NoDuplicatePaths(files)
    && (forall e :: e in files ==> e.filePath in m && m[e.filePath] == e.hash)
    && PathsOf(files) == m.Keys - remaining
    && |files| + |remaining| == |m|
  }

  /** Emitting one more remaining key keeps `Emitted`. */
  lemma EmitStep(m: map<string, string>, files: seq<HashFile>, remaining: set<string>, k: string)
    requires Emitted(m, files, remaining) && k in remaining
    ensures Emitted(m, files + [HashFile(k, m[k])], remaining - {k})
  {
    var e := HashFile(k, m[k]);
    AppendNewPath(files, e);
    assert forall x :: x in files + [e] <==> x in files || x == e;
  }

  /** Writes every pair of the map to the hash file, replacing its content.
      The emission order is left open, as the enumeration order of the
      C# `Dictionary` it iterates over is. */
  method Save(s: Store) returns (s': Store)
    ensures s'.id == s.id && s'.hashMap == s.hashMap
    ensures Exists(s')
    ensures Represents(s.hashMap, s'.disk[HashFileName(s.id)].files)
    ensures |s'.disk[HashFileName(s.id)].files| == |s.hashMap|
    ensures OthersUnchanged(s.disk, s'.disk, HashFileName(s.id))
  {
    var files: seq<HashFile> := [];
    var remaining := s.hashMap.Keys;
    while remaining != {}
      invariant Emitted(s.hashMap, files, remaining)
      decreases remaining
    {
      var k :| k in remaining;
      EmitStep(s.hashMap, files, remaining, k);
      files := files + [HashFile(k, s.hashMap[k])];
      remaining := remaining - {k};
    }
    s' := s.(disk := s.disk[HashFileName(s.id) := HashList(files)]);
  }

  /** Within a list whose entries for `p` all carry `h`, the last one does. */
  lemma {:induction false} LastHashUniform(es: seq<HashFile>, p: string, h: string)
    requires p in PathsOf(es)
    requires forall e :: e in es && e.filePath == p ==> e.hash == h
    ensures LastHash(es, p) == Some(h)
    decreases |es|
  {
    var init, last := es[..|es| - 1], es[|es| - 1];
    assert es == init + [last];
    if last.filePath != p {
      assert p in PathsOf(init);
      LastHashUniform(init, p, h);
    }
  }

  /** Loading a list that represents a map reproduces that map, whatever the
      order of the list. */
  lemma LoadRepresented(m: map<string, string>, es: seq<HashFile>)
    requires Represents(m, es)
    ensures LoadEntries(map[], es) == m
  {
    var loaded := LoadEntries(map[], es);
    assert loaded.Keys == m.Keys;
    forall p | p in m
      ensures loaded[p] == m[p]
    {
      LoadEntriesLastWins(map[], es, p);
      LastHashUniform(es, p, m[p]);
    }
  }

  /** Save then Load: once the hash file represents the map, any manager with
      the same identifier on the same disk loads exactly that map. */
  lemma SaveLoadRoundTrip(s: Store, other: Store)
    requires Exists(s) && Represents(s.hashMap, s.disk[HashFileName(s.id)].files)
    requires other.id == s.id && other.disk == s.disk
    ensures Load(other) == Loaded(s, Pass)
  {
    LoadRepresented(s.hashMap, s.disk[HashFileName(s.id)].files);
  }

  /** Empties the map; the disk, and so `Exists`, stay as they were. */
  function Reset(s: Store): (s': Store)
    ensures forall p :: !Has(s', p)
    ensures s'.id == s.id && s'.disk == s.disk
    ensures Exists(s') == Exists(s)
  {
    s.(hashMap := map[])
  }

  /** A first session for identifier "Base" on a disk without its hash file:
      create, load, record one digest, save; another manager then loads it. */
  method BaseSession(disk: Disk) returns (digest: Result<string, HashError>)
    requires HashFileName("Base") !in disk
    ensures digest == Success("Zm9v")
  {
    var s := CreateIfMissing(Init("Base", disk));
    var loaded := Load(s);
    s := loaded.store;
    s := Put(s, "data/a.bin", "Zm9v");
    s := Save(s);
    var other := Init("Base", s.disk);
    SaveLoadRoundTrip(s, other);
    loaded := Load(other);
    digest := Get(loaded.store, "data/a.bin");
  }
}
