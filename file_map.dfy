/** A map whose entries live in a flat directory, one file per key, with an
    in-memory index from key to file name on top of it. */
module FileMaps {
  import opened Store

  /** The storage directory: file name to what decoding the file yields. Several
      handles may share one directory; anything else may change it too. */
  class Directory<K, V> {
    var files: map<string, Content<K, V>>

    constructor (files: map<string, Content<K, V>>)
      ensures this.files == files
    {
      this.files := files;
    }
  }

  class FileMap<K(==), V(==)> {
    const storage: Directory<K, V>
    /** Key to file name; the only record of which keys exist. */
    var index: map<K, string>

    ghost predicate Valid()
      reads this
    {
      WellFormed(index)
    }

    /** Opens a handle on `storage`, seeding the index from a scan of its files. */
    constructor (storage: Directory<K, V>)
      ensures Valid() && this.storage == storage
      ensures IsScanOf(storage.files, index)
    {
      this.storage := storage;
      index := map[];
      new;
      LoadExistingKeys();
      ScanIsWellFormed(storage.files, index);
    }

    /** The startup scan: every entry file whose leading object decodes enters the
        index under that key, later files overwriting earlier ones; other files are skipped. */
    method LoadExistingKeys()
      modifies this
      ensures forall k :: k in old(index) ==> k in index
      ensures forall k :: k in index ==>
                HoldsKey(storage.files, index[k], k) || (k in old(index) && index[k] == old(index)[k])
      ensures forall n :: n in storage.files && IsDatName(n) && storage.files[n].Keyed() ==>
                storage.files[n].key in index && HoldsKey(storage.files, index[storage.files[n].key], storage.files[n].key)
    {
      var pending := storage.files.Keys;
      while pending != {}
        invariant pending <= storage.files.Keys
        invariant forall k :: k in old(index) ==> k in index
        invariant forall k :: k in index ==>
                    HoldsKey(storage.files, index[k], k) || (k in old(index) && index[k] == old(index)[k])
        invariant forall n :: n in storage.files && n !in pending && IsDatName(n) && storage.files[n].Keyed() ==>
                    storage.files[n].key in index && HoldsKey(storage.files, index[storage.files[n].key], storage.files[n].key)
        decreases pending
      {
        var name :| name in pending;
        pending := pending - {name};
        if IsDatName(name) {
          match storage.files[name]
          case Entry(key, _) => index := index[key := name];
          case KeyOnly(key) => index := index[key := name];
          case Corrupt =>
        }
      }
    }

    /** Stands in for a random UUID token plus the suffix: an entry-file name that
        neither the directory nor the index uses yet. */
    method FreshFileName() returns (name: string)
      ensures IsFresh(index, storage.files, name)
    {
      var used := storage.files.Keys + index.Values;
      var pending := used;
      var longest: nat := 0;
      while pending != {}
        invariant pending <= used
        invariant forall s :: s in used && s !in pending ==> |s| <= longest
        decreases pending
      {
        var s :| s in pending;
        if |s| > longest {
          longest := |s|;
        }
        pending := pending - {s};
      }
      var token := seq(longest + 1, _ => '0');
      name := token + Suffix;
      assert name[|name| - |Suffix|..] == Suffix;
    }

    /** `computeIfAbsent`: the key's name if it has one, otherwise a fresh one, installed. */
    method GenerateFileName(key: K) returns (name: string)
      requires Valid()
      modifies this
      ensures Valid()
      ensures key in old(index) ==> name == old(index)[key] && index == old(index)
      ensures key !in old(index) ==> IsFresh(old(index), storage.files, name) && index == old(index)[key := name]
    {
      if key in index {
        name := index[key];
      } else {
        name := FreshFileName();
        index := index[key := name];
      }
    }

    /** The file name for a key, allocating one on first use. */
    method GetFilePath(key: K) returns (name: string)
      requires Valid()
      modifies this
      ensures Valid()
      ensures key in old(index) ==> name == old(index)[key] && index == old(index)
      ensures key !in old(index) ==> IsFresh(old(index), storage.files, name) && index == old(index)[key := name]
    {
      if key in index {
        name := index[key];
      } else {
        name := GenerateFileName(key);
      }
    }

    /** The number of tracked keys, saturated at the largest `int` as `ConcurrentHashMap.size` does. */
    method Size() returns (n: nat)
      ensures n <= IntMax
      ensures |index| <= IntMax ==> n == |index|
      ensures |index| > IntMax ==> n == IntMax
    {
      n := if |index| <= IntMax then |index| else IntMax;
    }

    method IsEmpty() returns (b: bool)
      ensures b <==> index == map[]
    {
      b := |index| == 0;
    }

    method ContainsKey(key: K) returns (b: bool)
      ensures b <==> key in index
    {
      b := key in index;
    }

    /** A copy of the tracked keys; later changes to the map do not reach it. */
    method KeySet() returns (keys: set<K>)
      ensures keys == index.Keys
    {
      keys := index.Keys;
    }

    /** Reads the key's file; a tracked key whose file has vanished is forgotten. */
    method Get(key: K) returns (r: Option<V>)
      requires Valid()
      modifies this
      ensures Valid()
      ensures r == Lookup(old(index), storage.files, key)
      ensures index == Healed(old(index), storage.files, key)
    {
      if key !in index {
        return None;
      }
      var name := GetFilePath(key);
      if name !in storage.files {
        index := index - {key};
        return None;
      }
      match storage.files[name]
      case Entry(_, value) => r := Some(value);
      case KeyOnly(_) => r := None;
      case Corrupt => r := None;
    }

    /** Reads the old value, allocates the file name, then writes key and value.
        `outcome` is how far the write gets; a failed write is reported as an error
        but leaves the allocated name in the index. `name` is the file written. */
    method Put(key: Option<K>, value: V, outcome: WriteOutcome) returns (r: Result<Option<V>>, ghost name: string)
      requires Valid()
      modifies this, storage
      ensures Valid()
      ensures key.None? ==> r == Err(NullKey) && index == old(index) && storage.files == old(storage.files)
      ensures key.Some? ==>
                && AllocatesName(old(index), old(storage.files), key.value, name)
                && index == old(index)[key.value := name]
                && storage.files == WriteFile(old(storage.files), name, key.value, value, outcome)
                && r == if outcome == Complete then Ok(Lookup(old(index), old(storage.files), key.value))
                        else Err(WriteFailed)
    {
      if key.None? {
        return Err(NullKey), "";
      }
      var k := key.value;
      var oldValue := Get(k);
      ghost var healed := index;
      var path := GetFilePath(k);
      name := path;
      assert AllocatesName(old(index), storage.files, k, name);
      assert index == healed[k := name];
      AllocationAfterHeal(old(index), storage.files, k, name);
      storage.files := WriteFile(storage.files, path, k, value, outcome);
      if outcome != Complete {
        return Err(WriteFailed), name;
      }
      r := Ok(oldValue);
    }

    /** Forgets a tracked key and deletes its file; `deleteOk` says whether the
        delete succeeds, and a failed delete is ignored. */
    method Remove(key: K, deleteOk: bool) returns (r: Option<V>)
      requires Valid()
      modifies this, storage
      ensures Valid()
      ensures key !in old(index) ==> r == None && index == old(index) && storage.files == old(storage.files)
      ensures key in old(index) ==>
                && r == Lookup(old(index), old(storage.files), key)
                && index == old(index) - {key}
                && storage.files == if deleteOk then old(storage.files) - {old(index)[key]} else old(storage.files)
    {
      if key !in index {
        return None;
      }
      r := Get(key);
      var path := GetFilePath(key);
      RemoveDropsKey(old(index), storage.files, key, path, index);
      if deleteOk {
        storage.files := storage.files - {path};
      }
      index := index - {key};
    }

    /** Puts every entry of `entries`, one at a time in some order, stopping at the
        first write that fails; `outcome(k)` is how far the write of key `k` gets.
        `done` are the keys put successfully. On failure, `failed` is the key whose
        write failed and `index1`/`files1` the state its put started from. Each put key
        keeps the name of its file if the file existed, otherwise gets a name no file
        used at the start. */
    method PutAll(entries: map<K, V>, outcome: K -> WriteOutcome)
      returns (r: Result<()>, ghost done: set<K>, ghost failed: Option<K>,
               ghost index1: map<K, string>, ghost files1: map<string, Content<K, V>>)
      requires Valid()
      modifies this, storage
      ensures Valid()
      ensures r.Ok? <==> forall k :: k in entries ==> outcome(k) == Complete
      ensures done <= entries.Keys && (forall k :: k in done ==> outcome(k) == Complete)
      ensures StoresAll(index, storage.files, entries, done)
      ensures Reconciled(old(index), old(storage.files)) ==> Reconciled(index, storage.files)
      ensures r.Ok? ==>
                && done == entries.Keys && failed == None
                && KeepsOthers(old(index), old(storage.files), index, storage.files, entries.Keys)
                && ChoosesNames(old(index), old(storage.files), index, entries.Keys)
                && OnlyWrites(old(storage.files), storage.files, NamesOf(index, entries.Keys))
      ensures r.Err? ==>
                && r == Err(WriteFailed) && failed.Some?
                && var f := failed.value;
                   && f in entries && f !in done && outcome(f) != Complete
                   && KeepsOthers(old(index), old(storage.files), index1, files1, done)
                   && StoresAll(index1, files1, entries, done)
                   && OnlyWrites(old(storage.files), files1, NamesOf(index1, done))
                   && f in index && AllocatesName(index1, files1, f, index[f])
                   && index == index1[f := index[f]]
                   && storage.files == WriteFile(files1, index[f], f, entries[f], outcome(f))
                   && KeepsOthers(old(index), old(storage.files), index, storage.files, done + {f})
                   && ChoosesNames(old(index), old(storage.files), index, done + {f})
                   && OnlyWrites(old(storage.files), storage.files, NamesOf(index, done + {f}))
    {
      var pending := entries.Keys;
      done, failed, index1, files1 := {}, None, index, storage.files;
      assert NamesOf(index, done) == {};
      while pending != {}
        invariant Valid()
        invariant pending <= entries.Keys && done == entries.Keys - pending
        invariant forall k :: k in done ==> outcome(k) == Complete
        invariant StoresAll(index, storage.files, entries, done)
        invariant KeepsOthers(old(index), old(storage.files), index, storage.files, done)
        invariant OnlyWrites(old(storage.files), storage.files, NamesOf(index, done))
        invariant ChoosesNames(old(index), old(storage.files), index, done)
        invariant Reconciled(old(index), old(storage.files)) ==> Reconciled(index, storage.files)
        decreases pending
      {
        var k :| k in pending;
        ghost var index0, files0 := index, storage.files;
        var res, name := Put(Some(k), entries[k], outcome(k));
        PutAllStep(old(index), old(storage.files), index0, files0, entries, done, k, name, outcome(k));
        StoresAllStep(index0, files0, entries, done, k, name, outcome(k));
        PutAllNameStep(old(index), old(storage.files), index0, files0, done, k, name);
        if Reconciled(index0, files0) {
          PutKeepsReconciled(index0, files0, k, entries[k], name, outcome(k));
        }
        if res.Err? {
          return Err(WriteFailed), done, Some(k), index0, files0;
        }
        VisitOne(done, pending, entries.Keys, k);
        pending := pending - {k};
        done := done + {k};
      }
      r := Ok(());
    }

    /** Removes every tracked key, one at a time from a snapshot of the keys, then
        empties the index. Deleting the file of a key in `undeletable` fails. */
    method Clear(undeletable: set<K>)
      requires Valid()
      modifies this, storage
      ensures Valid()
      ensures index == map[]
      ensures storage.files == old(storage.files) - NamesOf(old(index), old(index).Keys - undeletable)
    {
      var pending := index.Keys;
      ghost var done: set<K> := {};
      assert NamesOf(old(index), done - undeletable) == {};
      assert storage.files == old(storage.files) - {};
      while pending != {}
        invariant Valid()
        invariant pending <= old(index).Keys && done == old(index).Keys - pending
        invariant index.Keys == pending
        invariant forall j :: j in index ==> index[j] == old(index)[j]
        invariant storage.files == old(storage.files) - NamesOf(old(index), done - undeletable)
        decreases pending
      {
        var k :| k in pending;
        ClearStep(old(index), old(storage.files), storage.files, done, undeletable, k);
        var _ := Remove(k, k !in undeletable);
        VisitOne(done, pending, old(index).Keys, k);
        done := done + {k};
        pending := pending - {k};
      }
      assert done - undeletable == old(index).Keys - undeletable;
      index := map[];
    }

    /** The current value of every tracked key, in the order the keys are visited
        (`order`); keys whose file has vanished are forgotten on the way. */
    method Values() returns (values: seq<Option<V>>, ghost order: seq<K>)
      requires Valid()
      modifies this
      ensures Valid()
      ensures forall i, j :: 0 <= i < j < |order| ==> order[i] != order[j]
      ensures forall k :: k in order <==> k in old(index)
      ensures values == ReadAll(old(index), storage.files, order)
      ensures index == Pruned(old(index), storage.files, old(index).Keys)
    {
      values, order := [], [];
      ghost var visited := {};
      var pending := index.Keys;
      PrunedNothing(index, storage.files);
      while pending != {}
        invariant Valid()
        invariant pending <= old(index).Keys
        invariant visited == old(index).Keys - pending
        invariant index == Pruned(old(index), storage.files, visited)
        invariant ListsOnce(order, visited)
        invariant values == ReadAll(old(index), storage.files, order)
        decreases pending
      {
        var k :| k in pending;
        PrunedStep(old(index), storage.files, visited, k);
        var value := Get(k);
        ListsOnceStep(order, visited, k);
        ReadAllStep(old(index), storage.files, order, k);
        values, order := values + [value], order + [k];
        VisitOne(visited, pending, old(index).Keys, k);
        visited := visited + {k};
        pending := pending - {k};
      }
    }

    /** Every tracked key with its current value; vanished files are forgotten on the way. */
    method EntrySet() returns (entries: set<(K, Option<V>)>)
      requires Valid()
      modifies this
      ensures Valid()
      ensures entries == EntriesOf(old(index), storage.files, old(index).Keys)
      ensures index == Pruned(old(index), storage.files, old(index).Keys)
    {
      entries := {};
      ghost var visited: set<K> := {};
      assert EntriesOf(old(index), storage.files, visited) == {};
      var pending := index.Keys;
      PrunedNothing(index, storage.files);
      while pending != {}
        invariant Valid()
        invariant pending <= old(index).Keys
        invariant visited == old(index).Keys - pending
        invariant index == Pruned(old(index), storage.files, visited)
        invariant entries == EntriesOf(old(index), storage.files, visited)
        decreases pending
      {
        var k :| k in pending;
        PrunedStep(old(index), storage.files, visited, k);
        var value := Get(k);
        EntriesOfStep(old(index), storage.files, visited, k);
        entries := entries + {(k, value)};
        VisitOne(visited, pending, old(index).Keys, k);
        visited := visited + {k};
        pending := pending - {k};
      }
    }

    /** Whether some tracked key currently reads as `value`. The search stops at the
        first match; the keys it visited (`visited`) lose their entry if their file vanished. */
    method ContainsValue(value: V) returns (b: bool, ghost visited: set<K>)
      requires Valid()
      modifies this
      ensures Valid()
      ensures b <==> exists k :: k in old(index) && Lookup(old(index), storage.files, k) == Some(value)
      ensures visited <= old(index).Keys && index == Pruned(old(index), storage.files, visited)
      ensures !b ==> visited == old(index).Keys
    {
      visited := {};
      var pending := index.Keys;
      PrunedNothing(index, storage.files);
      while pending != {}
        invariant Valid()
        invariant pending <= old(index).Keys
        invariant visited == old(index).Keys - pending
        invariant index == Pruned(old(index), storage.files, visited)
        invariant forall k :: k in visited ==> Lookup(old(index), storage.files, k) != Some(value)
        decreases pending
      {
        var k :| k in pending;
        PrunedStep(old(index), storage.files, visited, k);
        var stored := Get(k);
        VisitOne(visited, pending, old(index).Keys, k);
        visited := visited + {k};
        pending := pending - {k};
        if stored == Some(value) {
          return true, visited;
        }
      }
      b := false;
    }
  }
}
