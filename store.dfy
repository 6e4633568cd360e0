/** The values a file-backed map works on: what a file in the storage directory
    holds, how entry files are named, and the pure rules that say what a read,
    a write and a scan of the directory mean. The classes in module FileMaps
    are specified in terms of these functions. */
module Store {

  datatype Option<T> = None | Some(value: T)

  /** What decoding a file yields: both objects, only the leading key, or nothing. */
  datatype Content<K, V> = Entry(key: K, value: V) | KeyOnly(key: K) | Corrupt
  {
    /** The leading object of the file decodes (the startup scan needs no more). */
    predicate Keyed() { !Corrupt? }
  }

  /** How far a write of key then value got before it stopped. */
  datatype WriteOutcome =
    | Complete        // both objects written and flushed
    | NotOpened       // the file could not be opened: nothing was touched
    | Truncated       // opened and truncated, then failed: nothing decodes
    | KeyOnlyWritten  // the key was written, the value was not
    | CloseFailed     // both objects written and flushed, then closing the file failed

  datatype PutError = NullKey | WriteFailed

  datatype Result<T> = Ok(value: T) | Err(error: PutError)

  /** The largest Java `int`; `size()` saturates there. */
  const IntMax: nat := 0x7fff_ffff

  /** Every entry file carries this suffix; the scan looks at nothing else. */
  const Suffix: string := ".dat"

  predicate IsDatName(name: string) {
    |name| >= |Suffix| && name[|name| - |Suffix|..] == Suffix
  }

  /** The file `name` exists, is an entry file, and its leading object is `key`. */
  predicate HoldsKey<K(==), V>(files: map<string, Content<K, V>>, name: string, key: K) {
    name in files && IsDatName(name) && files[name].Keyed() && files[name].key == key
  }

  /** The index names no file twice and names only entry files. */
  ghost predicate WellFormed<K>(index: map<K, string>) {
    && (forall a, b :: a in index && b in index && index[a] == index[b] ==> a == b)
    && (forall k :: k in index ==> IsDatName(index[k]))
  }

  /** What `get` returns: the value of the tracked file, if that file decodes fully.
      The key stored in the file is read and discarded, not compared. */
  function Lookup<K(==), V>(index: map<K, string>, files: map<string, Content<K, V>>, key: K)
    : (r: Option<V>)
  {
    if key in index && index[key] in files && files[index[key]].Entry?
    then Some(files[index[key]].value)
    else None
  }

  /** The key is tracked but its file is gone. */
  predicate Vanished<K(==), V>(index: map<K, string>, files: map<string, Content<K, V>>, key: K) {
    key in index && index[key] !in files
  }

  /** The index after `get`: a key whose file has vanished is forgotten. */
  function Healed<K(==), V>(index: map<K, string>, files: map<string, Content<K, V>>, key: K)
    : (r: map<K, string>)
  {
    if Vanished(index, files, key) then index - {key} else index
  }

  /** The index after visiting every key in `visited` with `get`. */
  function Pruned<K(==), V>(index: map<K, string>, files: map<string, Content<K, V>>, visited: set<K>)
    : (r: map<K, string>)
  {
    map k | k in index && (k in visited ==> index[k] in files) :: index[k]
  }

  /** A name the allocator may hand out: an entry-file name that no file and no key uses. */
  predicate IsFresh<K, V>(index: map<K, string>, files: map<string, Content<K, V>>, name: string) {
    IsDatName(name) && name !in files && name !in index.Values
  }

  /** The file name `put` writes to: the tracked one while its file exists, otherwise a
      fresh one (a vanished key is first forgotten by `get`, then a name is allocated). */
  predicate AllocatesName<K(==), V>(index: map<K, string>, files: map<string, Content<K, V>>, key: K, name: string) {
    var healed := Healed(index, files, key);
    if key in healed then name == healed[key] else IsFresh(healed, files, name)
  }

  /** The directory after writing key then value to `name`, truncating what was there. */
  function WriteFile<K, V>(files: map<string, Content<K, V>>, name: string, key: K, value: V, outcome: WriteOutcome)
    : (r: map<string, Content<K, V>>)
  {
    match outcome
    case Complete => files[name := Entry(key, value)]
    case NotOpened => files
    case Truncated => files[name := Corrupt]
    case KeyOnlyWritten => files[name := KeyOnly(key)]
    case CloseFailed => files[name := Entry(key, value)]
  }

  /** The values `values` collects, reading the keys in the order given. */
  function ReadAll<K(==), V>(index: map<K, string>, files: map<string, Content<K, V>>, keys: seq<K>)
    : (r: seq<Option<V>>)
    ensures |r| == |keys|
    ensures forall i :: 0 <= i < |keys| ==> r[i] == Lookup(index, files, keys[i])
  {
    if keys == [] then []
    else ReadAll(index, files, keys[..|keys| - 1]) + [Lookup(index, files, keys[|keys| - 1])]
  }

  /** The pairs `entrySet` builds from the keys in `keys`. */
  function EntriesOf<K(==), V(==)>(index: map<K, string>, files: map<string, Content<K, V>>, keys: set<K>)
    : (r: set<(K, Option<V>)>)
  {
    set k | k in keys :: (k, Lookup(index, files, k))
  }

  /** The file names of the tracked keys in `keys`. */
  function NamesOf<K(==)>(index: map<K, string>, keys: set<K>)
    : (r: set<string>)
  {
    set k | k in keys && k in index :: index[k]
  }

  /** Any index a startup scan of `files` can produce, whatever order the directory
      is listed in: every tracked key points at an entry file whose leading object is
      that key, and every entry file whose leading object decodes has its key tracked. */
  ghost predicate IsScanOf<K, V>(files: map<string, Content<K, V>>, index: map<K, string>) {
    && (forall k :: k in index ==> HoldsKey(files, index[k], k))
    && (forall n :: n in files && IsDatName(n) && files[n].Keyed() ==> files[n].key in index)
  }

  /** Index and directory agree: every entry file whose key decodes is the file
      the index names for that key (there is no orphan copy of any key). */
  ghost predicate Reconciled<K, V>(index: map<K, string>, files: map<string, Content<K, V>>) {
    forall n :: n in files && IsDatName(n) && files[n].Keyed() ==>
      files[n].key in index && index[files[n].key] == n
  }

  /** No two entry files carry the same decodable key. */
  ghost predicate UniqueKeys<K, V>(files: map<string, Content<K, V>>) {
    forall n1, n2 ::
      (n1 in files && n2 in files && IsDatName(n1) && IsDatName(n2) && files[n1].Keyed() && files[n2].Keyed() &&
       files[n1].key == files[n2].key) ==> n1 == n2
  }

  // ---------------------------------------------------------------------------
  // Lemmas about the rules above

  /** A scan never makes one file the home of two keys, and tracks only entry files. */
  lemma ScanIsWellFormed<K, V>(files: map<string, Content<K, V>>, index: map<K, string>)
    requires IsScanOf(files, index)
    ensures WellFormed(index)
  {
    forall a, b | a in index && b in index && index[a] == index[b]
      ensures a == b
    {
      assert HoldsKey(files, index[a], a) && HoldsKey(files, index[b], b);
    }
  }

  /** A scan reproduces a reconciled index exactly when no key has two files. */
  lemma ScanReconciledIffUniqueKeys<K, V>(files: map<string, Content<K, V>>, index: map<K, string>)
    requires IsScanOf(files, index)
    ensures Reconciled(index, files) <==> UniqueKeys(files)
  {
    if Reconciled(index, files) {
      forall n1, n2 | n1 in files && n2 in files && IsDatName(n1) && IsDatName(n2) && files[n1].Keyed() &&
                      files[n2].Keyed() && files[n1].key == files[n2].key
        ensures n1 == n2
      {
        assert index[files[n1].key] == n1 && index[files[n2].key] == n2;
      }
    }
    if UniqueKeys(files) {
      forall n | n in files && IsDatName(n) && files[n].Keyed()
        ensures files[n].key in index && index[files[n].key] == n
      {
        var k := files[n].key;
        assert HoldsKey(files, index[k], k);
      }
    }
  }

  /** Durability across restart: when index and directory are reconciled, a new
      handle's startup scan answers every `get` as the old index does. */
  lemma ReloadAgrees<K, V>(index: map<K, string>, files: map<string, Content<K, V>>, scanned: map<K, string>, key: K)
    requires WellFormed(index) && Reconciled(index, files)
    requires IsScanOf(files, scanned)
    ensures Lookup(scanned, files, key) == Lookup(index, files, key)
  {
    if key in scanned {
      var n := scanned[key];
      assert HoldsKey(files, n, key);
      assert index[key] == n;
    }
  }

  /** A successful write leaves a file the next scan tracks under the written key. */
  lemma ReloadTracksWrittenKey<K, V>(files: map<string, Content<K, V>>, name: string, key: K, value: V,
                                     scanned: map<K, string>)
    requires IsDatName(name)
    requires IsScanOf(WriteFile(files, name, key, value, Complete), scanned)
    ensures key in scanned
  {
    var files' := WriteFile(files, name, key, value, Complete);
    assert files'[name].key == key;
  }

  /** Visiting one more key with `get` extends the pruned set by that key, and the key
      still reads as it did before the visits began. */
  lemma PrunedStep<K, V>(index: map<K, string>, files: map<string, Content<K, V>>, visited: set<K>, key: K)
    requires key !in visited
    ensures Lookup(Pruned(index, files, visited), files, key) == Lookup(index, files, key)
    ensures Healed(Pruned(index, files, visited), files, key) == Pruned(index, files, visited + {key})
  {
    var p := Pruned(index, files, visited);
    var q := Pruned(index, files, visited + {key});
    assert Healed(p, files, key).Keys == q.Keys;
  }

  /** A plain set fact, kept as a lemma so the loops over a key snapshot do not redo
      set reasoning: moving one key from the pending keys to the visited ones keeps the
      visited keys exactly those not pending. */
  lemma VisitOne<T>(visited: set<T>, pending: set<T>, all: set<T>, key: T)
    requires pending <= all && visited == all - pending && key in pending
    ensures visited + {key} == all - (pending - {key})
  {
  }

  /** `order` lists each key of `keys` exactly once. */
  ghost predicate ListsOnce<K>(order: seq<K>, keys: set<K>) {
    && (forall i, j :: 0 <= i < j < |order| ==> order[i] != order[j])
    && (forall k :: k in order ==> k in keys)
    && (forall k :: k in keys ==> k in order)
  }

  /** Appending a key not listed yet keeps every key listed once. */
  lemma ListsOnceStep<K>(order: seq<K>, keys: set<K>, key: K)
    requires ListsOnce(order, keys) && key !in keys
    ensures ListsOnce(order + [key], keys + {key})
  {
    var order' := order + [key];
    forall i, j | 0 <= i < j < |order'|
      ensures order'[i] != order'[j]
    {
      if j == |order| {
        assert order'[i] == order[i] && order[i] in keys;
      }
    }
  }

  /** Reading one more key appends its value. */
  lemma ReadAllStep<K, V>(index: map<K, string>, files: map<string, Content<K, V>>, keys: seq<K>, key: K)
    ensures ReadAll(index, files, keys + [key]) == ReadAll(index, files, keys) + [Lookup(index, files, key)]
  {
    assert (keys + [key])[..|keys|] == keys;
  }

  /** A solver hint for the loops over the keys: before any visit nothing is pruned. */
  lemma PrunedNothing<K, V>(index: map<K, string>, files: map<string, Content<K, V>>)
    ensures Pruned(index, files, {}) == index
  {
  }

  /** Adding one key's pair to the pairs of the keys visited so far. */
  lemma EntriesOfStep<K, V>(index: map<K, string>, files: map<string, Content<K, V>>, keys: set<K>, key: K)
    ensures EntriesOf(index, files, keys) + {(key, Lookup(index, files, key))} == EntriesOf(index, files, keys + {key})
  {
  }

  /** One more `remove` during `clear`: the directory has lost the files of the deletable
      keys removed so far, and now also that of `key` unless its delete fails. */
  lemma ClearStep<K, V>(index: map<K, string>, files0: map<string, Content<K, V>>, files: map<string, Content<K, V>>,
                        done: set<K>, undeletable: set<K>, key: K)
    requires key in index
    requires files == files0 - NamesOf(index, done - undeletable)
    ensures (if key !in undeletable then files - {index[key]} else files) ==
            files0 - NamesOf(index, (done + {key}) - undeletable)
  {
    if key in undeletable {
      assert (done + {key}) - undeletable == done - undeletable;
    } else {
      assert (done + {key}) - undeletable == (done - undeletable) + {key};
      assert NamesOf(index, (done + {key}) - undeletable) == NamesOf(index, done - undeletable) + {index[key]};
    }
  }

  /** `get` keeps index and directory reconciled. */
  lemma HealKeepsReconciled<K, V>(index: map<K, string>, files: map<string, Content<K, V>>, key: K)
    requires Reconciled(index, files)
    ensures Reconciled(Healed(index, files, key), files)
  {
    var h := Healed(index, files, key);
    forall n | n in files && IsDatName(n) && files[n].Keyed()
      ensures files[n].key in h && h[files[n].key] == n
    {
      assert index[files[n].key] == n;
    }
  }

  /** A plain map fact, used as a hint: a key's value is among the map's values. */
  lemma ValueIsListed<K, W>(m: map<K, W>, k: K)
    requires k in m
    ensures m[k] in m.Values
  {
  }

  /** The name `put` writes to keeps the index well formed once installed. */
  lemma AllocationKeepsWellFormed<K, V>(index: map<K, string>, files: map<string, Content<K, V>>, key: K, name: string)
    requires WellFormed(index) && AllocatesName(index, files, key, name)
    ensures WellFormed(index[key := name])
  {
    var h := Healed(index, files, key);
    if key in h {
      assert index[key := name] == index;
    } else {
      var index' := index[key := name];
      forall a, b | a in index' && b in index' && index'[a] == index'[b]
        ensures a == b
      {
        if a != key && b == key {
          ValueIsListed(h, a);
          assert false;
        } else if a == key && b != key {
          ValueIsListed(h, b);
          assert false;
        }
      }
    }
  }

  /** Installing the allocated name after a heal gives the same index as installing it
      directly: `put` ends with the key mapped to the name it wrote. */
  lemma AllocationAfterHeal<K, V>(index: map<K, string>, files: map<string, Content<K, V>>, key: K, name: string)
    ensures Healed(index, files, key)[key := name] == index[key := name]
  {
  }

  /** Whatever its write outcome, `put` keeps index and directory reconciled. */
  lemma PutKeepsReconciled<K, V>(index: map<K, string>, files: map<string, Content<K, V>>, key: K, value: V,
                                 name: string, outcome: WriteOutcome)
    requires WellFormed(index) && Reconciled(index, files)
    requires AllocatesName(index, files, key, name)
    ensures Reconciled(index[key := name], WriteFile(files, name, key, value, outcome))
  {
    var index', files' := index[key := name], WriteFile(files, name, key, value, outcome);
    forall n | n in files' && IsDatName(n) && files'[n].Keyed()
      ensures files'[n].key in index' && index'[files'[n].key] == n
    {
      var k := files'[n].key;
      if n != name || outcome == NotOpened {
        assert files'[n] == files[n];
        assert index[k] == n;
        if k == key {
          assert name == index[key];
        }
      }
    }
  }

  /** Round trip: after a complete write, `get` of the key answers the value written. */
  lemma PutThenGet<K, V>(index: map<K, string>, files: map<string, Content<K, V>>, key: K, value: V, name: string)
    ensures Lookup(index[key := name], WriteFile(files, name, key, value, Complete), key) == Some(value)
  {
  }

  /** Overwriting a key whose file exists reuses its file name. */
  lemma OverwriteReusesName<K, V>(index: map<K, string>, files: map<string, Content<K, V>>, key: K, name: string)
    requires key in index && index[key] in files
    requires AllocatesName(index, files, key, name)
    ensures name == index[key]
  {
  }

  /** Durability of `put`: starting from a reconciled state, a complete write is seen
      by the startup scan of a new handle, for the written key and for every other. */
  lemma PutThenReload<K, V>(index: map<K, string>, files: map<string, Content<K, V>>, key: K, value: V,
                            name: string, scanned: map<K, string>)
    requires WellFormed(index) && Reconciled(index, files)
    requires AllocatesName(index, files, key, name)
    requires IsScanOf(WriteFile(files, name, key, value, Complete), scanned)
    ensures Lookup(scanned, WriteFile(files, name, key, value, Complete), key) == Some(value)
    ensures forall j :: Lookup(scanned, WriteFile(files, name, key, value, Complete), j) ==
                        Lookup(index[key := name], WriteFile(files, name, key, value, Complete), j)
  {
    var index', files' := index[key := name], WriteFile(files, name, key, value, Complete);
    AllocationKeepsWellFormed(index, files, key, name);
    PutKeepsReconciled(index, files, key, value, name, Complete);
    forall j
      ensures Lookup(scanned, files', j) == Lookup(index', files', j)
    {
      ReloadAgrees(index', files', scanned, j);
    }
    PutThenGet(index, files, key, value, name);
  }

  /** `put` changes what `get` answers for no other key. */
  lemma PutLeavesOthers<K, V>(index: map<K, string>, files: map<string, Content<K, V>>, key: K, value: V,
                              name: string, outcome: WriteOutcome, other: K)
    requires WellFormed(index) && AllocatesName(index, files, key, name)
    requires other != key
    ensures Lookup(index[key := name], WriteFile(files, name, key, value, outcome), other) == Lookup(index, files, other)
  {
    var h := Healed(index, files, key);
    if other in index {
      assert h[other] in h.Values;
      assert index[other] != name;
    }
  }

  /** Keys outside `keys` keep their names and what `get` answers from `index0`/`files0`
      (an untracked key is answered `None` on both sides). */
  ghost predicate KeepsOthers<K, V>(index0: map<K, string>, files0: map<string, Content<K, V>>,
                                    index: map<K, string>, files: map<string, Content<K, V>>, keys: set<K>)
  {
    && (forall j :: j in index && j !in keys ==> j in index0)
    && (forall j :: j in index0 && j !in keys ==>
          && j in index && index[j] == index0[j]
          && Lookup(index, files, j) == Lookup(index0, files0, j))
  }

  /** Every key of `done` in `entries` is tracked, and its file holds exactly the entry
      written: that key, then its value from `entries`. */
  ghost predicate StoresAll<K, V>(index: map<K, string>, files: map<string, Content<K, V>>,
                                  entries: map<K, V>, done: set<K>)
  {
    forall k :: k in done && k in entries ==>
      k in index && index[k] in files && files[index[k]] == Entry(k, entries[k])
  }

  /** The names the keys of `keys` were given, measured against the start state
      `index0`/`files0`: a key whose file existed keeps that file's name, any other
      key has a name no file at the start used. */
  ghost predicate ChoosesNames<K, V>(index0: map<K, string>, files0: map<string, Content<K, V>>,
                                     index: map<K, string>, keys: set<K>)
  {
    forall k :: k in keys ==>
      && k in index
      && if k in index0 && index0[k] in files0 then index[k] == index0[k] else index[k] !in files0
  }

  /** `files` differs from `files0` only by files added or rewritten under `names`:
      nothing is deleted, and every other file is as it was. */
  ghost predicate OnlyWrites<K, V>(files0: map<string, Content<K, V>>, files: map<string, Content<K, V>>,
                                   names: set<string>)
  {
    && (forall n :: n in files0 ==> n in files)
    && (forall n :: n in files && n !in names ==> n in files0 && files[n] == files0[n])
  }

  /** Writing under no name leaves the directory as it was. */
  lemma OnlyWritesNothing<K, V>(files0: map<string, Content<K, V>>, files: map<string, Content<K, V>>)
    requires OnlyWrites(files0, files, {})
    ensures files == files0
  {
  }

  /** Writing under one name changes at most the file of that name. */
  lemma OnlyWritesOne<K, V>(files0: map<string, Content<K, V>>, files: map<string, Content<K, V>>, name: string)
    requires OnlyWrites(files0, files, {name}) && name in files
    ensures files == files0[name := files[name]]
  {
  }

  /** The names of a single tracked key. */
  lemma NamesOfOne<K>(index: map<K, string>, key: K)
    requires key in index
    ensures NamesOf(index, {key}) == {index[key]}
  {
  }

  /** A write adds its file name to the names written. */
  lemma WriteOnlyWrites<K, V>(files0: map<string, Content<K, V>>, files: map<string, Content<K, V>>,
                              names: set<string>, name: string, key: K, value: V, outcome: WriteOutcome)
    requires OnlyWrites(files0, files, names)
    ensures OnlyWrites(files0, WriteFile(files, name, key, value, outcome), names + {name})
  {
  }

  /** Installing a name for a key not in `keys` adds exactly that name to the names of `keys + {key}`. */
  lemma NamesOfInstall<K>(index: map<K, string>, keys: set<K>, key: K, name: string)
    requires key !in keys
    ensures NamesOf(index[key := name], keys + {key}) == NamesOf(index, keys) + {name}
  {
    var index' := index[key := name];
    forall n | n in NamesOf(index', keys + {key})
      ensures n in NamesOf(index, keys) + {name}
    {
      var k :| k in keys + {key} && k in index' && index'[k] == n;
      if k != key {
        assert k in keys && k in index && index[k] == n;
      }
    }
    forall n | n in NamesOf(index, keys) + {name}
      ensures n in NamesOf(index', keys + {key})
    {
      if n != name {
        var k :| k in keys && k in index && index[k] == n;
        assert k != key && index'[k] == n;
      } else {
        assert key in keys + {key} && index'[key] == n;
      }
    }
  }

  /** One `put` inside `putAll`, of a key not put yet: the keys put so far and the key
      just put are the only ones whose name or answer may differ from the start, and
      the only files written are those the put keys name. */
  lemma PutAllStep<K, V>(index0: map<K, string>, files0: map<string, Content<K, V>>,
                         index: map<K, string>, files: map<string, Content<K, V>>,
                         entries: map<K, V>, done: set<K>, key: K, name: string, outcome: WriteOutcome)
    requires WellFormed(index) && AllocatesName(index, files, key, name) && key in entries && key !in done
    requires KeepsOthers(index0, files0, index, files, done)
    requires OnlyWrites(files0, files, NamesOf(index, done))
    ensures KeepsOthers(index0, files0, index[key := name],
                        WriteFile(files, name, key, entries[key], outcome), done + {key})
    ensures OnlyWrites(files0, WriteFile(files, name, key, entries[key], outcome), NamesOf(index[key := name], done + {key}))
  {
    var index', files' := index[key := name], WriteFile(files, name, key, entries[key], outcome);
    forall j | j != key
      ensures Lookup(index', files', j) == Lookup(index, files, j)
    {
      PutLeavesOthers(index, files, key, entries[key], name, outcome, j);
    }
    WriteOnlyWrites(files0, files, NamesOf(index, done), name, key, entries[key], outcome);
    NamesOfInstall(index, done, key, name);
  }

  /** One `put` inside `putAll`, of a key not put yet: the entries put so far are still
      on disk under their names, and a complete write adds the key's entry to them. */
  lemma StoresAllStep<K, V>(index: map<K, string>, files: map<string, Content<K, V>>,
                            entries: map<K, V>, done: set<K>, key: K, name: string, outcome: WriteOutcome)
    requires WellFormed(index) && AllocatesName(index, files, key, name) && key in entries && key !in done
    requires StoresAll(index, files, entries, done)
    ensures StoresAll(index[key := name], WriteFile(files, name, key, entries[key], outcome), entries, done)
    ensures outcome == Complete ==>
              StoresAll(index[key := name], WriteFile(files, name, key, entries[key], outcome), entries, done + {key})
  {
    var index', files' := index[key := name], WriteFile(files, name, key, entries[key], outcome);
    forall j | j in done && j in entries
      ensures j in index' && index'[j] in files' && files'[index'[j]] == Entry(j, entries[j])
    {
      PutKeepsFile(index, files, key, entries[key], name, outcome, j);
    }
  }

  /** `put` leaves every other tracked key's name and file as they were. */
  lemma PutKeepsFile<K, V>(index: map<K, string>, files: map<string, Content<K, V>>, key: K, value: V,
                           name: string, outcome: WriteOutcome, other: K)
    requires WellFormed(index) && AllocatesName(index, files, key, name)
    requires other != key && other in index && index[other] in files
    ensures index[key := name][other] == index[other]
    ensures index[other] in WriteFile(files, name, key, value, outcome)
    ensures WriteFile(files, name, key, value, outcome)[index[other]] == files[index[other]]
  {
    ValueIsListed(Healed(index, files, key), other);
  }

  /** The name one `put` inside `putAll` picks, for a key not put yet: the key's file
      from the start if it still exists, otherwise a name no file at the start used. */
  lemma PutAllNameStep<K, V>(index0: map<K, string>, files0: map<string, Content<K, V>>,
                             index: map<K, string>, files: map<string, Content<K, V>>,
                             done: set<K>, key: K, name: string)
    requires WellFormed(index) && AllocatesName(index, files, key, name) && key !in done
    requires KeepsOthers(index0, files0, index, files, done)
    requires OnlyWrites(files0, files, NamesOf(index, done))
    requires ChoosesNames(index0, files0, index, done)
    ensures ChoosesNames(index0, files0, index[key := name], done + {key})
  {
  }

  /** Durability of `putAll`: from a reconciled state, each key written completely is
      read back with its value by the startup scan of a new handle. */
  lemma StoredThenReload<K, V>(index: map<K, string>, files: map<string, Content<K, V>>,
                               entries: map<K, V>, done: set<K>, scanned: map<K, string>, key: K)
    requires WellFormed(index) && Reconciled(index, files) && StoresAll(index, files, entries, done)
    requires IsScanOf(files, scanned)
    requires key in done && key in entries
    ensures Lookup(scanned, files, key) == Some(entries[key])
  {
    ReloadAgrees(index, files, scanned, key);
  }

  /** What `remove` does to a tracked key: whether `get` forgets it and a new name is
      then allocated, or its name is found, dropping the key afterwards leaves the
      index without it, and deleting `name` is deleting the key's old file. */
  lemma RemoveDropsKey<K, V>(index: map<K, string>, files: map<string, Content<K, V>>, key: K,
                             name: string, named: map<K, string>)
    requires key in index
    requires key in Healed(index, files, key) ==>
               name == index[key] && named == Healed(index, files, key)
    requires key !in Healed(index, files, key) ==>
               name !in files && named == Healed(index, files, key)[key := name]
    ensures named - {key} == index - {key}
    ensures files - {name} == files - {index[key]}
  {
  }

  /** `remove` whose delete succeeds keeps index and directory reconciled. */
  lemma RemoveKeepsReconciled<K, V>(index: map<K, string>, files: map<string, Content<K, V>>, key: K)
    requires WellFormed(index) && Reconciled(index, files) && key in index
    ensures Reconciled(index - {key}, files - {index[key]})
  {
    var files' := files - {index[key]};
    forall n | n in files' && IsDatName(n) && files'[n].Keyed()
      ensures files'[n].key in index - {key} && (index - {key})[files'[n].key] == n
    {
      assert index[files[n].key] == n;
    }
  }

  /** A failed delete orphans the file: after `remove(k)` whose delete fails and a
      successful `put(k, v2)` under a fresh name, a restart may find the old value. */
  lemma FailedDeleteCanResurrect<K, V>(k: K, v1: V, v2: V, n1: string, n2: string)
    requires IsDatName(n1) && IsDatName(n2) && n1 != n2 && v1 != v2
    ensures var before := map[k := n1];
            var files := map[n1 := Entry(k, v1)];
            var afterRemove := before - {k};          // delete failed: `files` unchanged
            && AllocatesName(afterRemove, files, k, n2)
            && var index := afterRemove[k := n2];
               var files' := WriteFile(files, n2, k, v2, Complete);
               && Lookup(index, files', k) == Some(v2)
               && IsScanOf(files', map[k := n1])
               && Lookup(map[k := n1], files', k) == Some(v1)
  {
    var afterRemove := map[k := n1] - {k};
    assert afterRemove == map[];
  }
}
