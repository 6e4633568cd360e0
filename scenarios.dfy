/** Client-side scenarios: short sequences of calls on concrete keys and values whose
    outcomes follow from the contracts of FileMaps.FileMap, helped by the Store lemmas. */
module Scenarios {
  import opened Store
  import opened FileMaps

  /** A handle on an empty directory tracks nothing. */
  method OpenEmpty() returns (m: FileMap<int, int>)
    ensures fresh(m) && fresh(m.storage) && m.Valid()
    ensures m.index == map[] && m.storage.files == map[]
  {
    var dir := new Directory<int, int>(map[]);
    m := new FileMap(dir);
    assert forall k :: k !in m.index;
  }

  /** A handle on a directory holding one entry file tracks its key under that file's name. */
  method OpenOne() returns (m: FileMap<int, int>)
    ensures fresh(m) && fresh(m.storage) && m.Valid()
    ensures m.index == map[1 := "a.dat"] && m.storage.files == map["a.dat" := Entry(1, 5)]
  {
    var dir := new Directory<int, int>(map["a.dat" := Entry(1, 5)]);
    m := new FileMap(dir);
    assert IsDatName("a.dat") && dir.files["a.dat"].Keyed();
    assert 1 in m.index && HoldsKey(dir.files, m.index[1], 1);
    assert m.index.Keys == {1};
  }

  /** put then get answers the value put; the first put had no old value. */
  method RoundTrip() returns (previous: Result<Option<int>>, got: Option<int>)
    ensures previous == Ok(None) && got == Some(10)
  {
    var m := OpenEmpty();
    var previous0, _ := m.Put(Some(1), 10, Complete);
    previous := previous0;
    got := m.Get(1);
  }

  /** A second put returns the value it replaces, writes the same file, and get
      answers the new value. */
  method Overwrite() returns (previous: Result<Option<int>>, got: Option<int>, size: nat)
    ensures previous == Ok(Some(10)) && got == Some(20) && size == 1
  {
    var m := OpenEmpty();
    var _, name1 := m.Put(Some(1), 10, Complete);
    var second, name2 := m.Put(Some(1), 20, Complete);
    assert name2 == name1;
    previous := second;
    got := m.Get(1);
    size := m.Size();
  }

  /** A null key is rejected and nothing is stored. */
  method NullKeyRejected() returns (r: Result<Option<int>>, size: nat)
    ensures r == Err(NullKey) && size == 0
  {
    var m := OpenEmpty();
    var r0, _ := m.Put(None, 10, Complete);
    r := r0;
    size := m.Size();
  }

  /** A write that cannot open the file fails, yet the key is tracked until get finds
      its file missing. */
  method FailedWriteStaysTracked() returns (r: Result<Option<int>>, trackedBefore: bool, got: Option<int>,
                                            trackedAfter: bool)
    ensures r == Err(WriteFailed) && trackedBefore && got == None && !trackedAfter
  {
    var m := OpenEmpty();
    var r0, _ := m.Put(Some(1), 10, NotOpened);
    r := r0;
    trackedBefore := m.ContainsKey(1);
    got := m.Get(1);
    trackedAfter := m.ContainsKey(1);
  }

  /** A write that leaves an unreadable file fails; get answers nothing and, since the
      file exists, the key stays tracked. */
  method TruncatedWriteStaysTracked() returns (r: Result<Option<int>>, got: Option<int>, tracked: bool)
    ensures r == Err(WriteFailed) && got == None && tracked
  {
    var m := OpenEmpty();
    var r0, _ := m.Put(Some(1), 10, Truncated);
    r := r0;
    got := m.Get(1);
    tracked := m.ContainsKey(1);
  }

  /** remove returns the old value once and deletes the file; a second remove finds nothing. */
  method RemoveTwice() returns (first: Option<int>, files: map<string, Content<int, int>>, second: Option<int>,
                                tracked: bool)
    ensures first == Some(10) && files == map[] && second == None && !tracked
  {
    var m := OpenEmpty();
    var _, _ := m.Put(Some(1), 10, Complete);
    first := m.Remove(1, true);
    files := m.storage.files;
    second := m.Remove(1, true);
    tracked := m.ContainsKey(1);
  }

  /** A failed delete still untracks the key, but the orphaned file brings the key
      back for the next handle on the same directory. */
  method FailedDeleteOrphans() returns (removed: Option<int>, tracked: bool, trackedByNew: bool)
    ensures removed == Some(10) && !tracked && trackedByNew
  {
    var m := OpenEmpty();
    var _, name := m.Put(Some(1), 10, Complete);
    removed := m.Remove(1, false);
    tracked := m.ContainsKey(1);
    assert m.storage.files[name] == Entry(1, 10);
    var m2 := new FileMap(m.storage);
    trackedByNew := m2.ContainsKey(1);
  }

  /** size agrees with the key set. */
  method SizeIsKeyCount() returns (size: nat, keys: set<int>)
    ensures size == |keys| && keys == {1, 2}
  {
    var m := OpenEmpty();
    var _, _ := m.Put(Some(1), 10, Complete);
    var _, _ := m.Put(Some(2), 20, Complete);
    size := m.Size();
    keys := m.KeySet();
  }

  /** clear leaves an empty map and deletes every file. */
  method ClearEmpties() returns (size: nat, empty: bool, files: map<string, Content<int, int>>)
    ensures size == 0 && empty && files == map[]
  {
    var m := OpenEmpty();
    var _, name1 := m.Put(Some(1), 10, Complete);
    var _, name2 := m.Put(Some(2), 20, Complete);
    assert m.storage.files.Keys == {name1, name2} && m.index.Keys == {1, 2};
    assert name1 in NamesOf(m.index, m.index.Keys) && name2 in NamesOf(m.index, m.index.Keys);
    m.Clear({});
    files := m.storage.files;
    size := m.Size();
    empty := m.IsEmpty();
  }

  /** A file deleted behind the map's back: get answers nothing and forgets the key. */
  method VanishedFile() returns (got: Option<int>, tracked: bool)
    ensures got == None && !tracked
  {
    var m := OpenEmpty();
    var _, _ := m.Put(Some(1), 10, Complete);
    var name := m.index[1];
    m.storage.files := m.storage.files - {name};
    got := m.Get(1);
    tracked := m.ContainsKey(1);
  }

  /** Entries written by one handle are read back by a new handle on the same directory. */
  method Reload() returns (got1: Option<int>, got2: Option<int>)
    ensures got1 == Some(10) && got2 == Some(20)
  {
    var m := OpenEmpty();
    ghost var index0, files0 := m.index, m.storage.files;
    var _, name1 := m.Put(Some(1), 10, Complete);
    PutKeepsReconciled(index0, files0, 1, 10, name1, Complete);
    ghost var index1, files1 := m.index, m.storage.files;
    var _, name2 := m.Put(Some(2), 20, Complete);
    PutKeepsReconciled(index1, files1, 2, 20, name2, Complete);
    var m2 := new FileMap(m.storage);
    ReloadAgrees(m.index, m.storage.files, m2.index, 1);
    ReloadAgrees(m.index, m.storage.files, m2.index, 2);
    PutLeavesOthers(index1, files1, 2, 20, name2, Complete, 1);
    got1 := m2.Get(1);
    got2 := m2.Get(2);
  }

  /** containsValue finds a stored value. */
  method FindsStoredValue() returns (found: bool)
    ensures found
  {
    var m := OpenEmpty();
    var _, _ := m.Put(Some(1), 10, Complete);
    var _, _ := m.Put(Some(2), 20, Complete);
    assert Lookup(m.index, m.storage.files, 2) == Some(20);
    var b, _ := m.ContainsValue(20);
    found := b;
  }

  /** containsValue rejects a value never stored. */
  method RejectsAbsentValue() returns (found: bool)
    ensures !found
  {
    var m := OpenEmpty();
    var _, _ := m.Put(Some(1), 10, Complete);
    assert m.index.Keys == {1};
    var b, _ := m.ContainsValue(30);
    found := b;
  }

  /** entrySet pairs each key with its value. */
  method Entries() returns (entries: set<(int, Option<int>)>)
    ensures entries == {(1, Some(10)), (2, Some(20))}
  {
    var m := OpenEmpty();
    var _, _ := m.Put(Some(1), 10, Complete);
    var _, _ := m.Put(Some(2), 20, Complete);
    assert m.index.Keys == {1, 2};
    EntriesOfTwo(m.index, m.storage.files);
    entries := m.EntrySet();
  }

  /** The pairs of an index tracking exactly keys 1 and 2 with values 10 and 20. */
  lemma EntriesOfTwo(index: map<int, string>, files: map<string, Content<int, int>>)
    requires index.Keys == {1, 2}
    requires Lookup(index, files, 1) == Some(10) && Lookup(index, files, 2) == Some(20)
    ensures EntriesOf(index, files, index.Keys) == {(1, Some(10)), (2, Some(20))}
  {
    assert EntriesOf(index, files, {}) == {};
    EntriesOfStep(index, files, {}, 1);
    assert {1} + {2} == index.Keys;
    EntriesOfStep(index, files, {1}, 2);
  }

  /** values lists the value of each key. */
  method ListsValues() returns (values: seq<Option<int>>)
    ensures Some(10) in values && Some(20) in values
  {
    var m := OpenEmpty();
    var _, _ := m.Put(Some(1), 10, Complete);
    var _, _ := m.Put(Some(2), 20, Complete);
    ghost var index, files := m.index, m.storage.files;
    assert Lookup(index, files, 1) == Some(10) && Lookup(index, files, 2) == Some(20);
    var vs, order := m.Values();
    ghost var i1 :| 0 <= i1 < |order| && order[i1] == 1;
    ghost var i2 :| 0 <= i2 < |order| && order[i2] == 2;
    assert vs[i1] == Some(10) && vs[i2] == Some(20);
    values := vs;
  }

  /** A write that stops after the key leaves a file the next scan tracks; get on it
      answers nothing and, the file being there, keeps the key tracked. */
  method KeyOnlyFileTracked() returns (r: Result<Option<int>>, got: Option<int>, tracked: bool)
    ensures r == Err(WriteFailed) && got == None && tracked
  {
    var m := OpenEmpty();
    var r0, _ := m.Put(Some(1), 10, KeyOnlyWritten);
    r := r0;
    var m2 := new FileMap(m.storage);
    assert forall n :: n in m2.storage.files ==> m2.storage.files[n] == KeyOnly(1);
    got := m2.Get(1);
    tracked := m2.ContainsKey(1);
  }

  /** remove of a key whose file vanished: get forgets it, a new name is allocated and
      its delete finds nothing; the key ends untracked and the directory untouched. */
  method RemoveVanished() returns (removed: Option<int>, tracked: bool, files: map<string, Content<int, int>>)
    ensures removed == None && !tracked && files == map[]
  {
    var m := OpenEmpty();
    var _, _ := m.Put(Some(1), 10, Complete);
    var name := m.index[1];
    m.storage.files := m.storage.files - {name};
    removed := m.Remove(1, true);
    tracked := m.ContainsKey(1);
    files := m.storage.files;
  }

  /** A write whose file fails to close reports an error, yet the entry is on disk and
      get answers it. */
  method CloseFailedKeepsWrite() returns (r: Result<Option<int>>, got: Option<int>)
    ensures r == Err(WriteFailed) && got == Some(10)
  {
    var m := OpenEmpty();
    var r0, _ := m.Put(Some(1), 10, CloseFailed);
    r := r0;
    got := m.Get(1);
  }

  /** putAll writes every entry when every write completes. */
  method PutAllStoresEach() returns (r: Result<()>, got1: Option<int>, got2: Option<int>)
    ensures r.Ok? && got1 == Some(10) && got2 == Some(20)
  {
    var m := OpenEmpty();
    var entries := map[1 := 10, 2 := 20];
    var r0, done, _, _, _ := m.PutAll(entries, _ => Complete);
    assert r0.Ok? && done == entries.Keys;
    assert Lookup(m.index, m.storage.files, 1) == Some(entries[1]);
    assert Lookup(m.index, m.storage.files, 2) == Some(entries[2]);
    r := r0;
    ghost var index := m.index;
    got1 := m.Get(1);
    assert m.index == index;
    got2 := m.Get(2);
  }

  /** putAll whose only write fails to open the existing file leaves the key, its name
      and its file as they were. */
  method PutAllFailureKeepsOld() returns (r: Result<()>, got: Option<int>, name: string,
                                         files: map<string, Content<int, int>>)
    ensures r == Err(WriteFailed) && got == Some(5) && name == "a.dat" && files == map["a.dat" := Entry(1, 5)]
  {
    var m := OpenOne();
    ghost var files0 := m.storage.files;
    var entries, outcome := map[1 := 10], _ => NotOpened;
    var r0, done, failed, index1, files1 := m.PutAll(entries, outcome);
    assert 1 in entries && outcome(1) != Complete;
    assert r0.Err? && failed.Some? && failed.value in entries.Keys;
    assert failed.value == 1 && done == {};
    assert NamesOf(index1, done) == {};
    OnlyWritesNothing(files0, files1);
    r := r0;
    name := m.index[1];
    files := m.storage.files;
    got := m.Get(1);
  }

  /** putAll over a key whose file exists rewrites that file and makes no other. */
  method PutAllReusesName() returns (r: Result<()>, name: string, files: map<string, Content<int, int>>)
    ensures r.Ok? && name == "a.dat" && files == map["a.dat" := Entry(1, 10)]
  {
    var m := OpenOne();
    ghost var files0 := m.storage.files;
    var r0, done, _, _, _ := m.PutAll(map[1 := 10], _ => Complete);
    assert r0.Ok? && done == {1};
    NamesOfOne(m.index, 1);
    OnlyWritesOne(files0, m.storage.files, m.index[1]);
    r := r0;
    name := m.index[1];
    files := m.storage.files;
  }

  /** On an empty directory, putAll leaves exactly the entry written, and a new handle on
      the directory reads it back. */
  method PutAllThenReload() returns (r: Result<()>, files: map<string, Content<int, int>>, got: Option<int>)
    ensures r.Ok? && got == Some(10)
    ensures exists name :: files == map[name := Entry(1, 10)]
  {
    var m := OpenEmpty();
    var entries := map[1 := 10];
    var r0, done, _, _, _ := m.PutAll(entries, _ => Complete);
    r := r0;
    files := m.storage.files;
    var name := m.index[1];
    assert files.Keys == {name};
    assert files == map[name := Entry(1, 10)];
    var m2 := new FileMap(m.storage);
    StoredThenReload(m.index, files, entries, done, m2.index, 1);
    got := m2.Get(1);
  }
}
