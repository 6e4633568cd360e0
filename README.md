# FileMap: a map persisted as one file per entry

`FileMap<K,V>` is a `java.util.Map` whose entries live in a storage directory, one
`.dat` file per key. Each file holds the serialized key followed by the serialized
value. The in-memory index is `keyToFileMap`, which maps each key to its file name.
The index is the only record of which keys exist. The constructor rebuilds the index
by scanning the directory. `get` reads the key's file and forgets a key whose file has
vanished. `put` reads the old value, allocates a file name (a random UUID plus `.dat`)
on first use, and then writes. `remove` deletes on a best-effort basis and always
forgets the key. The bulk operations (`putAll`, `clear`, `containsValue`, `values`,
`entrySet`) loop over the keys and call the single-key operations.

The model has three modules:

- `Store` (`store.dfy`) holds the values and the pure rules behind the calls. A file's
  content is `Entry(key, value)`, `KeyOnly(key)` (only the leading key decodes) or
  `Corrupt`. `Lookup` gives what `get` answers, `Healed` gives the index after `get`,
  `AllocatesName` gives the file `put` writes to, and `WriteFile` gives the directory
  after a write. The predicates `IsScanOf` and `Reconciled` describe the startup scan
  and agreement between index and directory. The lemmas prove the map's guarantees
  from these rules.
- `FileMaps` (`file_map.dfy`) holds the two classes. `Directory` is the storage
  directory: a field `files` from file name to content. Several handles may share one
  `Directory`, and client code may change it behind a handle's back. `FileMap` has the
  field `index` and one method per Java method. Every method is specified by the
  `Store` functions of the old state. The loops carry the invariants that prove this.
- `Scenarios` (`scenarios.dfy`) holds client methods on concrete keys and values whose
  outcomes follow from the `FileMap` contracts, with the `Store` lemmas as the only
  other help. They cover round trip, overwrite, null key, failed writes, double
  remove, failed delete, vanished file, clear, reload, `putAll` and the bulk reads.

How I/O is modelled:

- How far a write gets is a parameter, `WriteOutcome`: `Complete`, `NotOpened`,
  `Truncated`, `KeyOnlyWritten` or `CloseFailed`. `CloseFailed` is a write whose
  objects were all written and flushed, but closing the stream (the end of the
  try-with-resources at FileMap.java:176-185) failed. The file then holds the full
  entry, yet `put` fails. Every outcome other than `Complete` returns
  `Err(WriteFailed)`, which stands for the `RuntimeException` at FileMap.java:184.
- Whether a delete succeeds is a boolean parameter of `Remove`. `Clear` takes the set
  of keys whose delete fails.
- `put(null, v)` is `Put(None, …)` and returns `Err(NullKey)`.
- Java's `null` return value is `Option.None`.
- The UUID is replaced by `FreshFileName`. It computes a `.dat` name that is longer
  than every name in use. Its contract promises only what a random UUID gives: a `.dat`
  name that neither the directory nor the index uses.

`get` discards the key stored in the file without comparing it (FileMap.java:157).
`Lookup` does the same.

A reload is correct only when index and directory agree (`Reconciled`). A failed delete
leaves an orphan file behind, and a later startup scan may bring the removed key back
with its old value. `Store.FailedDeleteCanResurrect` and
`Scenarios.FailedDeleteOrphans` show this.

## Model

| member | source | states |
|---|---|---|
| FileMaps.FileMap.constructor | FileMap.java:36-46 | A new handle's index is a scan of its directory (`IsScanOf`) and is well formed. |
| FileMaps.FileMap.LoadExistingKeys | FileMap.java:62-87 | The scan keeps keys already tracked. Every key it adds points at a `.dat` file whose leading object is that key. Every `.dat` file whose key decodes has that key tracked. `Corrupt` files and other names are skipped. |
| FileMaps.FileMap.FreshFileName | FileMap.java:96-98 | The name it returns ends in `.dat` and is used by no file and no key. |
| FileMaps.FileMap.GenerateFileName | FileMap.java:95-99 | A tracked key gets its existing name and the index is unchanged. Otherwise exactly one fresh `.dat` name is installed for the key. |
| FileMaps.FileMap.GetFilePath | FileMap.java:107-113 | Same as `GenerateFileName`: the existing name without mutation, or one fresh name installed. |
| FileMaps.FileMap.Size | FileMap.java:116-118 | Returns the number of index entries, saturated at the largest `int` as `ConcurrentHashMap.size` does. |
| FileMaps.FileMap.IsEmpty | FileMap.java:121-123 | True exactly when the index is empty. |
| FileMaps.FileMap.ContainsKey | FileMap.java:126-128 | True exactly when the key is tracked; it does not look at the directory. |
| FileMaps.FileMap.ContainsValue | FileMap.java:131-139 | True exactly when some tracked key currently reads as the value. The keys visited lose their entry if their file vanished. A `false` answer visited every key. |
| FileMaps.FileMap.Get | FileMap.java:142-165 | Returns `Lookup` of the old state: the value of a tracked key's fully decodable file, otherwise `None`. The index loses the key exactly when it was tracked and its file is missing. |
| FileMaps.FileMap.Put | FileMap.java:168-188 | A null key gives `Err(NullKey)` and changes nothing. Otherwise the key ends mapped to the name `AllocatesName` picks, and the directory is `WriteFile` of that name. A complete write returns what `get` answered before. A failed write returns `Err(WriteFailed)` and keeps the name in the index. That includes `CloseFailed`, whose file already holds the full entry. |
| FileMaps.FileMap.Remove | FileMap.java:191-207 | An untracked key gives `None` and changes nothing. A tracked key returns its old `Lookup` and is untracked whether or not the delete succeeds. The key's old file is removed only when the delete succeeds. |
| FileMaps.FileMap.PutAll | FileMap.java:210-214 | Succeeds exactly when every write completes. Each key put successfully (`done`) is tracked, and its file holds exactly that key and its value. On success `done` is all the argument's keys. On failure, exactly one further key `failed` had a failing write. Its name and file follow `AllocatesName` and `WriteFile` from the state its put started from, and that state differs from the start only in the files of `done`. A put key whose file existed keeps that file's name; any other put key gets a name no file at the start used. Every key outside the put keys keeps its old name and answer. No file is deleted, and only files named by the put keys change. If index and directory agreed at the start, they agree at the end. |
| FileMaps.FileMap.Clear | FileMap.java:217-223 | Empties the index. Deletes the file of every key whose delete succeeds, and nothing else. |
| FileMaps.FileMap.KeySet | FileMap.java:226-228 | Returns exactly the tracked keys, as a value that later calls do not change. |
| FileMaps.FileMap.Values | FileMap.java:231-238 | Lists every tracked key once, in some order, with its current value. Keys whose file vanished are forgotten. |
| FileMaps.FileMap.EntrySet | FileMap.java:241-248 | Returns exactly the pairs of each tracked key with its current value. Keys whose file vanished are forgotten. |
| Store.ReadAll | FileMap.java:231-238 | The list of values has one element per key, and position `i` holds what `get` answers for key `i`. |
| Store.ScanIsWellFormed | FileMap.java:68-85 | A scan never gives two keys the same file and tracks only `.dat` names. |
| Store.ScanReconciledIffUniqueKeys | FileMap.java:68-85 | A scan agrees with the directory exactly when no key has two decodable files (both directions). |
| Store.ReloadAgrees | FileMap.java:62-87 | When index and directory agree, a new handle's scan answers every `get` as the old index does. |
| Store.ReloadTracksWrittenKey | FileMap.java:176-181 | After a complete write to a `.dat` name, any scan tracks the written key. |
| Store.PutThenGet | FileMap.java:168-188 | Round trip: after a complete write, `get` of the key answers the value written. |
| Store.OverwriteReusesName | FileMap.java:107-113 | A key whose file exists is written to the same file again. |
| Store.PutThenReload | FileMap.java:168-188 | Starting from an agreeing index and directory, after a complete `put` a new handle reads the written value and agrees with the old handle on every key. |
| Store.PutLeavesOthers | FileMap.java:174-181 | `put` changes the answer of `get` for no other key. |
| Store.PutKeepsReconciled | FileMap.java:172-184 | Whatever the write outcome, `put` keeps index and directory in agreement. |
| Store.RemoveKeepsReconciled | FileMap.java:196-205 | A `remove` whose delete succeeds keeps index and directory in agreement. |
| Store.HealKeepsReconciled | FileMap.java:149-151 | The self-heal keeps index and directory in agreement. |
| Store.AllocationKeepsWellFormed | FileMap.java:95-99 | Installing the allocated name keeps every file the home of at most one key. |
| Store.FailedDeleteCanResurrect | FileMap.java:199-205 | Remove with a failed delete, then put under a fresh name. A later scan may then track the orphan file, so the new handle reads the stale value. |
| Store.PutAllStep | FileMap.java:210-214 | One more `put` inside `putAll` changes the name or answer of no key but the one put. Only the file the key names is written. |
| Store.StoresAllStep | FileMap.java:210-214 | One more `put` inside `putAll` leaves the entries put before on disk under their names. A complete write adds the key's own entry to them. |
| Store.PutAllNameStep | FileMap.java:107-113 | One more `put` inside `putAll` gives the key its file from the start if that file still exists. Otherwise it gives a name no file at the start used. |
| Store.PutKeepsFile | FileMap.java:172-181 | `put` leaves every other tracked key's name and file as they were. |
| Store.StoredThenReload | FileMap.java:62-87 | From an agreeing index and directory, each key `putAll` wrote completely is read back with its value by a new handle's scan. |
| Store.ClearStep | FileMap.java:219-221 | One `remove` inside `clear` removes that key's file exactly when its delete succeeds. |
| Store.PrunedStep | FileMap.java:132-136 | One more `get` in a loop over the keys reads the same value as the first, and extends the set of keys pruned for vanished files by that key. |
| Store.ListsOnceStep | FileMap.java:233-236 | Appending a key not visited yet keeps the list of visited keys free of duplicates. |
| Scenarios.RoundTrip | FileMap.java:168-188 | The first `put` returns no old value, and `get` then returns the value. |
| Scenarios.Overwrite | FileMap.java:173-187 | The second `put(k, v2)` returns `v1` and writes the same file. `get` returns `v2` and `size` is 1. |
| Scenarios.NullKeyRejected | FileMap.java:169-171 | `put(null, v)` fails and stores nothing. |
| Scenarios.FailedWriteStaysTracked | FileMap.java:174-184 | A write that cannot open its file fails, but the key is tracked until `get` finds the file missing and forgets it. |
| Scenarios.TruncatedWriteStaysTracked | FileMap.java:162-163 | After a write that leaves an unreadable file, `get` answers nothing and the key stays tracked. |
| Scenarios.KeyOnlyFileTracked | FileMap.java:76-77 | A file holding only the key is tracked by the next scan. `get` answers nothing and does not untrack the key. |
| Scenarios.RemoveTwice | FileMap.java:192-206 | The first `remove` returns the value and leaves an empty directory. The second returns nothing. |
| Scenarios.RemoveVanished | FileMap.java:196-205 | `remove` of a key whose file vanished returns nothing, untracks the key and leaves the directory empty. |
| Scenarios.FailedDeleteOrphans | FileMap.java:199-205 | A failed delete still untracks the key, but a new handle on the same directory tracks it again. |
| Scenarios.SizeIsKeyCount | FileMap.java:116-118 | `size` equals the number of keys in `keySet`. |
| Scenarios.ClearEmpties | FileMap.java:217-223 | After `clear`, `size` is 0, `isEmpty` holds and the directory is empty. |
| Scenarios.VanishedFile | FileMap.java:149-151 | After a file is deleted behind the map's back, `get` answers nothing and forgets the key. |
| Scenarios.Reload | FileMap.java:62-87 | A new handle on the same directory reads back both values written by the first. |
| Scenarios.FindsStoredValue | FileMap.java:131-136 | `containsValue` finds a stored value. |
| Scenarios.RejectsAbsentValue | FileMap.java:131-139 | `containsValue` rejects a value never stored. |
| Scenarios.ListsValues | FileMap.java:231-238 | `values` lists the value of each key. |
| Scenarios.Entries | FileMap.java:241-248 | `entrySet` pairs each key with its value, and nothing else. |
| Scenarios.CloseFailedKeepsWrite | FileMap.java:176-185 | A write whose file fails to close reports an error, yet `get` answers the value written. |
| Scenarios.PutAllStoresEach | FileMap.java:210-214 | When every write completes, `putAll` succeeds and each entry reads back its value. |
| Scenarios.OpenOne | FileMap.java:62-87 | A handle on a directory holding one entry file tracks its key under that file's name. |
| Scenarios.PutAllFailureKeepsOld | FileMap.java:210-214 | A `putAll` whose only write fails to open the existing file reports an error. The key keeps its name and its old value, and the directory is unchanged. |
| Scenarios.PutAllReusesName | FileMap.java:210-214 | A `putAll` over a key whose file exists rewrites that file with the new entry and creates no other file. |
| Scenarios.PutAllThenReload | FileMap.java:210-214 | On an empty directory, `putAll` leaves exactly one file holding the entry written, and a new handle reads its value back. |

## Left out

- The demo driver `main` (FileMap.java:278-373) is left out because it only prints to the console.
- `toString` (FileMap.java:259-273) is left out because it formats values with Java's `toString`.
- The Java serialization byte format (`ObjectInputStream`/`ObjectOutputStream`) is left out. A file's content is the abstract `Content` (`Entry`, `KeyOnly` or `Corrupt`).
- `ConcurrentHashMap` concurrency and the thread-atomicity of `computeIfAbsent` are left out; the model is single-threaded. The Java loops iterate a live, weakly consistent key-set view while `get` removes keys. The model iterates a snapshot of the keys, which is what a single thread observes.
- UUID randomness is left out. `FreshFileName` picks one fresh `.dat` name. The contracts assume only freshness, so they hold for any name a UUID could give.
- Directory creation in the constructor (FileMap.java:41-43) and the exists/is-directory check at FileMap.java:63 are left out. The `Directory` always exists.
- The `IOException` from listing the directory (FileMap.java:67) is left out. Per-file read errors during the scan are modelled: such a file is `Corrupt` and skipped.
- Path plumbing is left out: the path constructors, `storageDirectory.resolve` and `getStorageDirectory`. File names are plain strings.
- The `NullPointerException` that `ConcurrentHashMap` raises for a null key in `get`, `containsKey` and `remove` is left out. Only `Put` takes an optional key, because only `put` has an explicit null check (FileMap.java:169-171).
- FileMaps.FileMap.PutAll: its argument is a `map<K, V>`, which holds no null key. A Java argument map with a null key reaches put's null check (FileMap.java:212 to 169-171) and aborts after the entries iterated before it. That path is not modelled.
- FileMaps.FileMap.LoadExistingKeys: a `Content` always carries a real key, so the scan never meets a null one. In Java, a `.dat` file whose leading object is null makes `keyToFileMap.put` at FileMap.java:77 throw `NullPointerException`. Only `ClassNotFoundException` (FileMap.java:78) and `IOException` (FileMap.java:82) are caught, so the exception escapes the constructor (FileMap.java:46) and the store fails to open. The model's constructor always succeeds.
- Null values are not modelled; values are of type `V`.
- Java-null equality in `containsValue` is left out. In Java, `containsValue(null)` matches an unreadable tracked entry; the model compares the result of `get` as an `Option`, so `None` matches no value.
- Store.ReloadAgrees and Store.PutThenReload: reload correctness holds only when index and directory agree (`Reconciled`). After a failed delete they need not agree, as Store.FailedDeleteCanResurrect shows.
