/**
 The rollback snapshot of the user's data: `snapshot.py`.

 Covered are `config.json`, the providers file it names and the database it names.  The
 database is a main file and a write-ahead log; what counts is the content the two replay
 to.  `snapshot.json` is written last, so it is there and readable only when everything
 else is, and `restore` can be repeated after any failure until it succeeds.
 */
module Snapshots {
  import opened Wrappers
  import opened Paths
  import opened Disks

  datatype Locations = Locations(providers: Path, database: Path)

  datatype Item = Item(path: Path, name: string, existed: bool)

  datatype Metadata = Metadata(items: seq<Item>, database: Path, databaseExists: bool)

  /** What the configuration names, what SQLite makes of its files, and the JSON codec. */
  datatype Host = Host(
    config: Path,
    locate: Bytes -> Option<Locations>,
    replay: (Bytes, Option<Bytes>) -> Bytes,
    pack: Bytes -> Bytes,
    encode: Metadata -> Bytes,
    decode: Bytes -> Option<Metadata>)
  {
    ghost predicate Sane() {
      // A backup is one file that replays to the source's content.
      && (forall rows :: replay(pack(rows), None) == rows)
      // JSON documents parse back, and no proper prefix of one parses.
      && (forall m: Metadata :: m.database != [] ==> decode(encode(m)) == Some(m))
      && (forall m, left :: IsTorn(encode(m), left) ==> decode(left).None?)
      && (forall b :: decode(b).Some? ==> decode(b).value.database != [])
    }
  }

  function Wal(database: Path): Path
    requires database != []
  {
    database[..|database| - 1] + [database[|database| - 1] + "-wal"]
  }

  function Shm(database: Path): Path
    requires database != []
  {
    database[..|database| - 1] + [database[|database| - 1] + "-shm"]
  }

  function Get(f: Files, p: Path): Option<Bytes> {
    if p in f then Some(f[p]) else None
  }

  /** The database's logical content. */
  function Rows(h: Host, f: Files, database: Path): Option<Bytes>
    requires database != []
  {
    if database in f then Some(h.replay(f[database], Get(f, Wal(database)))) else None
  }

  /** The data a snapshot covers. */
  datatype Covered = Covered(config: Bytes, at: Locations, providers: Option<Bytes>, rows: Option<Bytes>)

  function View(h: Host, f: Files): Option<Covered> {
    if h.config !in f then None
    else
      var at := h.locate(f[h.config]);
      if at.None? || at.value.database == [] then None
      else Some(Covered(f[h.config], at.value, Get(f, at.value.providers), Rows(h, f, at.value.database)))
  }

  /** The files a restore may write. */
  function Touched(h: Host, at: Locations): set<Path>
    requires at.database != []
  {
    {h.config, at.providers, at.database, Wal(at.database), Shm(at.database)}
  }

  /** The covered files are five different ones, none of them in the snapshot's directory. */
  predicate Separate(h: Host, at: Locations, dest: Path) {
    && at.database != []
    && at.providers != h.config && at.database != h.config && at.database != at.providers
    && Wal(at.database) !in {h.config, at.providers, at.database} && Shm(at.database) !in {h.config, at.providers, at.database}
    && forall p :: p in Touched(h, at) ==> !Under(dest, p)
  }

  function Saved(dest: Path, name: string): Path { dest + [name] }

  const JSON := "snapshot.json"
  const FILE_0 := "file-0"
  const FILE_1 := "file-1"
  const DATABASE := "database.sqlite3"

  /** The copies of `v`. */
  predicate DataSaved(h: Host, f: Files, dest: Path, v: Covered) {
    && Get(f, Saved(dest, FILE_0)) == Some(v.config)
    && (v.providers.Some? ==> Get(f, Saved(dest, FILE_1)) == v.providers)
    && (v.rows.Some? ==> Saved(dest, DATABASE) in f && h.replay(f[Saved(dest, DATABASE)], None) == v.rows.value)
  }

  /** The directory holds a complete snapshot of `v`. */
  predicate Holds(h: Host, f: Files, dest: Path, v: Covered) {
    && Saved(dest, JSON) in f && h.decode(f[Saved(dest, JSON)]) == Some(MetadataOf(h, v))
    && DataSaved(h, f, dest, v)
  }

  function MetadataOf(h: Host, v: Covered): Metadata {
    Metadata([Item(h.config, FILE_0, true), Item(v.at.providers, FILE_1, v.providers.Some?)], v.at.database, v.rows.Some?)
  }

  // ---- restoring on values ----

  function PutBack(f: Files, from: Path, to: Path, existed: bool): Files {
    if existed && from in f then f[to := f[from]] else f - {to}
  }

  function PutItems(f: Files, dest: Path, items: seq<Item>): Files
    decreases |items|
  {
    if items == [] then f
    else PutItems(PutBack(f, Saved(dest, items[0].name), items[0].path, items[0].existed), dest, items[1..])
  }

  function Restored(f: Files, dest: Path, m: Metadata): Files
    requires m.database != []
  {
    PutBack(PutItems(f, dest, m.items) - {Wal(m.database), Shm(m.database)}, Saved(dest, DATABASE), m.database, m.databaseExists)
  }

  /** A restore gives back every covered file, and the database's content whatever log lay beside it. */
  lemma RestoreGivesBack(h: Host, f: Files, dest: Path, v: Covered)
    requires Holds(h, f, dest, v) && Separate(h, v.at, dest) && h.locate(v.config) == Some(v.at)
    ensures View(h, Restored(f, dest, MetadataOf(h, v))) == Some(v)
    ensures forall p :: p !in Touched(h, v.at) ==> Same(Restored(f, dest, MetadataOf(h, v)), f, p)
  {
    var m := MetadataOf(h, v);
    InDirectory(dest, FILE_0);
    InDirectory(dest, FILE_1);
    InDirectory(dest, DATABASE);
    var f1 := PutBack(f, Saved(dest, FILE_0), h.config, true);
    var f2 := PutBack(f1, Saved(dest, FILE_1), v.at.providers, v.providers.Some?);
    assert m.items[1..] == [m.items[1]] && m.items[1..][1..] == [];
    assert PutItems(f, dest, m.items) == PutItems(f1, dest, m.items[1..]) == PutItems(f2, dest, []) == f2;
  }

  lemma InDirectory(dest: Path, name: string)
    ensures Under(dest, Saved(dest, name))
  {
    assert Saved(dest, name)[..|dest|] == dest;
  }

  /** A snapshot outlives every change outside its directory. */
  lemma HoldsStays(h: Host, f: Files, g: Files, dest: Path, v: Covered)
    requires Holds(h, f, dest, v)
    requires forall p :: Under(dest, p) ==> Same(g, f, p)
    ensures Holds(h, g, dest, v)
  {
    InDirectory(dest, JSON);
    InDirectory(dest, FILE_0);
    InDirectory(dest, FILE_1);
    InDirectory(dest, DATABASE);
    assert Same(g, f, Saved(dest, JSON)) && Same(g, f, Saved(dest, FILE_0));
    assert Same(g, f, Saved(dest, FILE_1)) && Same(g, f, Saved(dest, DATABASE));
  }

  /** Whatever happens to the covered files after a snapshot, and whatever new ones appear, a restore undoes it. */
  lemma RestoreAfterAnything(h: Host, f: Files, g: Files, dest: Path, v: Covered)
    requires Holds(h, f, dest, v) && Separate(h, v.at, dest) && h.locate(v.config) == Some(v.at)
    requires forall p :: Under(dest, p) ==> Same(g, f, p)
    ensures View(h, Restored(g, dest, MetadataOf(h, v))) == Some(v)
  {
    HoldsStays(h, f, g, dest, v);
    RestoreGivesBack(h, g, dest, v);
  }

  /** Leaving the old log in place would give back the snapshot's rows only if replaying it over them changes nothing. */
  lemma StaleLogMatters(h: Host, f: Files, dest: Path, v: Covered)
    requires Holds(h, f, dest, v) && Separate(h, v.at, dest) && h.locate(v.config) == Some(v.at) && v.rows.Some?
    ensures var left := PutBack(PutItems(f, dest, MetadataOf(h, v).items), Saved(dest, DATABASE), v.at.database, true);
      View(h, left) == Some(v) <==>
      (Wal(v.at.database) in f ==> h.replay(f[Saved(dest, DATABASE)], Some(f[Wal(v.at.database)])) == v.rows.value)
  {
    var m := MetadataOf(h, v);
    InDirectory(dest, FILE_0);
    InDirectory(dest, FILE_1);
    InDirectory(dest, DATABASE);
    var f1 := PutBack(f, Saved(dest, FILE_0), h.config, true);
    var f2 := PutBack(f1, Saved(dest, FILE_1), v.at.providers, v.providers.Some?);
    assert m.items[1..] == [m.items[1]] && m.items[1..][1..] == [];
    assert PutItems(f, dest, m.items) == PutItems(f1, dest, m.items[1..]) == PutItems(f2, dest, []) == f2;
  }

  // ---- the code ----

  /** No readable snapshot: the marker is missing or cut short. */
  predicate Unmarked(h: Host, f: Files, dest: Path) {
    Saved(dest, JSON) in f ==> h.decode(f[Saved(dest, JSON)]).None?
  }

  predicate IsNew(f: Files, dest: Path) {
    forall p :: p in f ==> !Under(dest, p)
  }

  /** Only the snapshot's directory and the physical form of the database may have changed. */
  ghost predicate DataKept(h: Host, before: Files, after: Files, dest: Path) {
    && View(h, after) == View(h, before)
    && forall p :: !Under(dest, p) && (View(h, before).Some? ==> p !in Touched(h, View(h, before).value.at)) ==> Same(after, before, p)
  }

  /** `source.backup(target)`; closing the source may fold its log into the main file. */
  method BackUp(disk: Disk, h: Host, database: Path, target: Path, checkpoint: bool) returns (ok: bool)
    requires h.Sane() && database != [] && database in disk.files
    requires Wal(database) != database && Shm(database) != database
    requires target !in {database, Wal(database), Shm(database)}
    requires disk.Valid()
    modifies disk
    ensures Rows(h, disk.files, database) == Rows(h, old(disk.files), database)
    ensures OnlyAt(old(disk.files), disk.files, {database, Wal(database), Shm(database), target})
    ensures if checkpoint then Wal(database) !in disk.files && Shm(database) !in disk.files else OnlyAt(old(disk.files), disk.files, {target})
    ensures ok ==> target in disk.files && Some(h.replay(disk.files[target], None)) == Rows(h, old(disk.files), database)
    ensures disk.Valid() && disk.failures >= old(disk.failures) && (ok <==> disk.failures == old(disk.failures))
  {
    var rows := Rows(h, disk.files, database).value;
    ghost var f0 := disk.files;
    if checkpoint {
      disk.files := (disk.files - {Wal(database), Shm(database)})[database := h.pack(rows)];
    }
    ghost var f := disk.files;
    assert forall p :: p !in {database, Wal(database), Shm(database)} ==> Same(f, f0, p);
    assert Rows(h, f, database) == Some(rows);
    ok := disk.Write(target, h.pack(rows));
    SameElsewhere(disk.files, f, target);
    forall p | p !in {database, Wal(database), Shm(database), target} ensures Same(disk.files, f0, p) {
      assert Same(disk.files, f, p) && Same(f, f0, p);
    }
    assert Same(disk.files, f, database) && Same(disk.files, f, Wal(database)) && Same(disk.files, f, Shm(database));
  }

  ghost predicate OnlyAt(before: Files, after: Files, places: set<Path>) {
    forall p :: p !in places ==> Same(after, before, p)
  }

  /** The loop over the two plain files. */
  method SaveFiles(disk: Disk, h: Host, dest: Path, v: Covered) returns (ok: bool, items: seq<Item>)
    requires View(h, disk.files) == Some(v) && Separate(h, v.at, dest)
    requires disk.Valid()
    modifies disk
    ensures OnlyAt(old(disk.files), disk.files, {Saved(dest, FILE_0), Saved(dest, FILE_1)})
    ensures ok ==> items == MetadataOf(h, v).items
    ensures ok ==> Get(disk.files, Saved(dest, FILE_0)) == Some(v.config)
    ensures ok && v.providers.Some? ==> Get(disk.files, Saved(dest, FILE_1)) == v.providers
    ensures disk.Valid() && disk.failures >= old(disk.failures) && (ok <==> disk.failures == old(disk.failures))
  {
    var sources, names := [h.config, v.at.providers], [FILE_0, FILE_1];
    InDirectory(dest, FILE_0);
    InDirectory(dest, FILE_1);
    items := [];
    ok := true;
    for i := 0 to 2
      invariant disk.Valid() && disk.failures == old(disk.failures)
      invariant ok && items == MetadataOf(h, v).items[..i]
      invariant OnlyAt(old(disk.files), disk.files, {Saved(dest, FILE_0), Saved(dest, FILE_1)})
      invariant i > 0 ==> Get(disk.files, Saved(dest, FILE_0)) == Some(v.config)
      invariant i > 1 && v.providers.Some? ==> Get(disk.files, Saved(dest, FILE_1)) == v.providers
    {
      ghost var f := disk.files;
      assert Same(f, old(disk.files), sources[i]);
      var existed := sources[i] in disk.files;
      items := items + [Item(sources[i], names[i], existed)];
      if existed {
        ok := disk.Copy(sources[i], Saved(dest, names[i]), true);
        SameElsewhere(disk.files, f, Saved(dest, names[i]));
        assert i == 1 ==> Same(disk.files, f, Saved(dest, FILE_0));
        forall p | p !in {Saved(dest, FILE_0), Saved(dest, FILE_1)} ensures Same(disk.files, old(disk.files), p) {
          assert Same(disk.files, f, p) && Same(f, old(disk.files), p);
        }
        if !ok { return; }
      }
    }
  }

  method Snapshot(disk: Disk, h: Host, dest: Path, checkpoint: bool) returns (ok: bool)
    requires h.Sane()
    requires View(h, disk.files).Some? ==> Separate(h, View(h, disk.files).value.at, dest)
    requires disk.Valid()
    modifies disk
    ensures DataKept(h, old(disk.files), disk.files, dest)
    ensures ok ==> View(h, old(disk.files)).Some? && Holds(h, disk.files, dest, View(h, old(disk.files)).value)
    ensures !ok && IsNew(old(disk.files), dest) ==> Unmarked(h, disk.files, dest)
    ensures !IsNew(old(disk.files), dest) ==> !ok && disk.files == old(disk.files)
    ensures disk.Valid() && disk.failures >= old(disk.failures)
    ensures !ok && IsNew(old(disk.files), dest) && View(h, old(disk.files)).Some? ==> disk.failures > old(disk.failures)
    ensures ok ==> disk.failures == old(disk.failures)
  {
    var view := View(h, disk.files);
    if view.None? || !IsNew(disk.files, dest) { return false; }
    var v := view.value;
    ok := disk.CreateDirectory();
    if !ok { return; }
    var items;
    ok, items := SaveData(disk, h, dest, v, checkpoint);
    if !ok { return; }
    ok := Mark(disk, h, dest, v, items);
  }

  /** The marker, written last. */
  method Mark(disk: Disk, h: Host, dest: Path, v: Covered, items: seq<Item>) returns (ok: bool)
    requires h.Sane() && View(h, disk.files) == Some(v) && Separate(h, v.at, dest)
    requires items == MetadataOf(h, v).items && DataSaved(h, disk.files, dest, v) && Saved(dest, JSON) !in disk.files
    requires disk.Valid()
    modifies disk
    ensures DataKept(h, old(disk.files), disk.files, dest)
    ensures ok ==> Holds(h, disk.files, dest, v)
    ensures !ok ==> Unmarked(h, disk.files, dest)
    ensures disk.Valid() && disk.failures >= old(disk.failures) && (ok <==> disk.failures == old(disk.failures))
  {
    ghost var f := disk.files;
    InDirectory(dest, JSON);
    ok := disk.Write(Saved(dest, JSON), h.encode(Metadata(items, v.at.database, v.rows.Some?)));
    SameElsewhere(disk.files, f, Saved(dest, JSON));
    ViewFrame(h, f, disk.files, dest);
    if ok { Marked(h, f, disk.files, dest, v); }
  }

  /** Everything before the marker is written. */
  method SaveData(disk: Disk, h: Host, dest: Path, v: Covered, checkpoint: bool) returns (ok: bool, items: seq<Item>)
    requires h.Sane() && View(h, disk.files) == Some(v) && Separate(h, v.at, dest) && IsNew(disk.files, dest)
    requires disk.Valid()
    modifies disk
    ensures DataKept(h, old(disk.files), disk.files, dest)
    ensures Saved(dest, JSON) !in disk.files
    ensures ok ==> items == MetadataOf(h, v).items && DataSaved(h, disk.files, dest, v)
    ensures disk.Valid() && disk.failures >= old(disk.failures) && (ok <==> disk.failures == old(disk.failures))
  {
    InDirectory(dest, FILE_0);
    InDirectory(dest, FILE_1);
    InDirectory(dest, DATABASE);
    InDirectory(dest, JSON);
    ghost var f0 := disk.files;
    ok, items := SaveFiles(disk, h, dest, v);
    ghost var f1 := disk.files;
    ViewFrame(h, f0, f1, dest);
    assert Same(f1, f0, Saved(dest, JSON)) && Same(f1, f0, v.at.database);
    if !ok || v.at.database !in disk.files { return; }
    ok := BackUp(disk, h, v.at.database, Saved(dest, DATABASE), checkpoint);
    BackUpFrame(h, f1, disk.files, dest, v);
    assert Same(disk.files, f1, Saved(dest, JSON));
    assert Same(disk.files, f1, Saved(dest, FILE_0)) && Same(disk.files, f1, Saved(dest, FILE_1));
  }

  lemma Marked(h: Host, before: Files, after: Files, dest: Path, v: Covered)
    requires h.Sane() && DataSaved(h, before, dest, v) && v.at.database != []
    requires after == before[Saved(dest, JSON) := h.encode(MetadataOf(h, v))]
    ensures Holds(h, after, dest, v)
  {
    assert Saved(dest, JSON)[|dest|] == JSON && Saved(dest, FILE_0)[|dest|] == FILE_0
        && Saved(dest, FILE_1)[|dest|] == FILE_1 && Saved(dest, DATABASE)[|dest|] == DATABASE;
  }

  lemma ViewFrame(h: Host, before: Files, after: Files, dest: Path)
    requires View(h, before).Some? && Separate(h, View(h, before).value.at, dest)
    requires forall p :: !Under(dest, p) ==> Same(after, before, p)
    ensures DataKept(h, before, after, dest)
  {
    var v := View(h, before).value;
    assert Same(after, before, h.config) && Same(after, before, v.at.providers);
    assert Same(after, before, v.at.database) && Same(after, before, Wal(v.at.database));
  }

  lemma BackUpFrame(h: Host, before: Files, after: Files, dest: Path, v: Covered)
    requires View(h, before) == Some(v) && Separate(h, v.at, dest)
    requires Rows(h, after, v.at.database) == Rows(h, before, v.at.database)
    requires OnlyAt(before, after, {v.at.database, Wal(v.at.database), Shm(v.at.database), Saved(dest, DATABASE)})
    ensures DataKept(h, before, after, dest)
  {
    InDirectory(dest, DATABASE);
    assert Same(after, before, h.config) && Same(after, before, v.at.providers);
  }

  // ---- restoring ----

  function Written(m: Metadata): set<Path>
    requires m.database != []
  {
    (set i | i in m.items :: i.path) + {m.database, Wal(m.database), Shm(m.database)}
  }

  /** Every copy the metadata promises is there, where restoring does not write. */
  predicate Copyable(f: Files, dest: Path, m: Metadata)
    requires m.database != []
  {
    && (forall i :: i in m.items && i.existed ==> Saved(dest, i.name) in f && Saved(dest, i.name) !in Written(m))
    && (m.databaseExists ==> Saved(dest, DATABASE) in f && Saved(dest, DATABASE) !in Written(m))
  }

  /** The loop over the plain files. */
  method RestoreFiles(disk: Disk, dest: Path, m: Metadata) returns (ok: bool)
    requires m.database != []
    requires disk.Valid()
    modifies disk
    ensures ok ==> disk.files == PutItems(old(disk.files), dest, m.items)
    ensures OnlyAt(old(disk.files), disk.files, Written(m))
    ensures disk.Valid() && disk.failures >= old(disk.failures)
    ensures !ok && Copyable(old(disk.files), dest, m) ==> disk.failures > old(disk.failures)
    ensures ok ==> disk.failures == old(disk.failures)
  {
    ok := true;
    for k := 0 to |m.items|
      invariant disk.Valid() && disk.failures == old(disk.failures)
      invariant ok && PutItems(disk.files, dest, m.items[k..]) == PutItems(old(disk.files), dest, m.items)
      invariant OnlyAt(old(disk.files), disk.files, Written(m))
    {
      var item := m.items[k];
      assert item in m.items && m.items[k..][1..] == m.items[k + 1..];
      ok := RestoreOne(disk, Saved(dest, item.name), item.path, item.existed, Written(m));
      if !ok { return; }
    }
  }

  /** One file put back: copied over, or removed if it was not there. */
  method RestoreOne(disk: Disk, from: Path, to: Path, existed: bool, ghost places: set<Path>) returns (ok: bool)
    requires to in places
    requires disk.Valid()
    modifies disk
    ensures ok ==> disk.files == PutBack(old(disk.files), from, to, existed)
    ensures OnlyAt(old(disk.files), disk.files, {to})
    ensures forall before :: OnlyAt(before, old(disk.files), places) ==> OnlyAt(before, disk.files, places)
    ensures disk.Valid() && disk.failures >= old(disk.failures)
    ensures !ok && (existed ==> from in old(disk.files)) ==> disk.failures > old(disk.failures)
    ensures ok ==> disk.failures == old(disk.failures)
  {
    ghost var f := disk.files;
    if existed {
      ok := disk.CreateDirectory();
      if !ok { return; }
      ok := disk.Copy(from, to, true);
      SameElsewhere(disk.files, f, to);
    } else {
      ok := disk.Delete(to);
    }
    assert OnlyAt(f, disk.files, {to});
    forall before | OnlyAt(before, f, places) ensures OnlyAt(before, disk.files, places) {
      forall p | p !in places ensures Same(disk.files, before, p) { assert Same(disk.files, f, p) && Same(f, before, p); }
    }
  }

  method Restore(disk: Disk, h: Host, dest: Path) returns (ok: bool)
    requires h.Sane()
    requires disk.Valid()
    modifies disk
    ensures disk.Valid() && disk.failures >= old(disk.failures)
    // Against a complete snapshot: done, everything is back; not done, the snapshot is still complete.
    ensures forall v :: Holds(h, old(disk.files), dest, v) && Separate(h, v.at, dest) && h.locate(v.config) == Some(v.at) ==>
      && (ok ==> View(h, disk.files) == Some(v))
      && Holds(h, disk.files, dest, v)
      && OnlyAt(old(disk.files), disk.files, Touched(h, v.at))
      && (ok <==> disk.failures == old(disk.failures))
    // Without a readable marker nothing is touched.
    ensures Unmarked(h, old(disk.files), dest) ==> !ok && disk.files == old(disk.files)
  {
    if Saved(dest, JSON) !in disk.files { return false; }
    var read := h.decode(disk.files[Saved(dest, JSON)]);
    if read.None? { return false; }
    ghost var f0 := disk.files;
    ok := RestoreAll(disk, dest, read.value);
    forall v | Holds(h, f0, dest, v) && Separate(h, v.at, dest) && h.locate(v.config) == Some(v.at)
      ensures (ok ==> View(h, disk.files) == Some(v)) && Holds(h, disk.files, dest, v)
      ensures OnlyAt(f0, disk.files, Touched(h, v.at))
      ensures ok <==> disk.failures == old(disk.failures)
    {
      RestoreGivesBack(h, f0, dest, v);
      SnapshotSurvives(h, f0, disk.files, dest, v);
    }
  }

  lemma OnlyAtAlso(a: Files, b: Files, c: Files, here: set<Path>, places: set<Path>)
    requires OnlyAt(a, b, places) && OnlyAt(b, c, here) && here <= places
    ensures OnlyAt(a, c, places)
  {
    forall p | p !in places ensures Same(c, a, p) { assert Same(c, b, p) && Same(b, a, p); }
  }

  /** The log of the database that is about to be replaced. */
  method RemoveLog(disk: Disk, database: Path) returns (ok: bool)
    requires database != []
    requires disk.Valid()
    modifies disk
    ensures ok ==> disk.files == old(disk.files) - {Wal(database), Shm(database)}
    ensures OnlyAt(old(disk.files), disk.files, {Wal(database), Shm(database)})
    ensures disk.Valid() && disk.failures >= old(disk.failures) && (ok <==> disk.failures == old(disk.failures))
  {
    ok := disk.Delete(Wal(database));
    if !ok { return; }
    ok := disk.Delete(Shm(database));
  }

  /** The part of `restore` that follows from the metadata. */
  method RestoreAll(disk: Disk, dest: Path, m: Metadata) returns (ok: bool)
    requires m.database != []
    requires disk.Valid()
    modifies disk
    ensures ok ==> disk.files == Restored(old(disk.files), dest, m)
    ensures OnlyAt(old(disk.files), disk.files, Written(m))
    ensures disk.Valid() && disk.failures >= old(disk.failures)
    ensures !ok && Copyable(old(disk.files), dest, m) ==> disk.failures > old(disk.failures)
    ensures ok ==> disk.failures == old(disk.failures)
  {
    ok := RestoreFiles(disk, dest, m);
    if !ok { return; }
    ghost var f := disk.files;
    ok := RemoveLog(disk, m.database);
    OnlyAtAlso(old(disk.files), f, disk.files, {Wal(m.database), Shm(m.database)}, Written(m));
    if !ok { return; }
    ok := RestoreOne(disk, Saved(dest, DATABASE), m.database, m.databaseExists, Written(m));
  }

  lemma SnapshotSurvives(h: Host, before: Files, after: Files, dest: Path, v: Covered)
    requires Holds(h, before, dest, v) && Separate(h, v.at, dest)
    requires OnlyAt(before, after, Written(MetadataOf(h, v)))
    ensures Holds(h, after, dest, v) && OnlyAt(before, after, Touched(h, v.at))
    ensures Copyable(before, dest, MetadataOf(h, v))
  {
    var m := MetadataOf(h, v);
    assert m.items[0] in m.items && m.items[1] in m.items;
    assert Written(m) == Touched(h, v.at);
    InDirectory(dest, JSON);
    InDirectory(dest, FILE_0);
    InDirectory(dest, FILE_1);
    InDirectory(dest, DATABASE);
    assert Same(after, before, Saved(dest, JSON)) && Same(after, before, Saved(dest, DATABASE));
    assert Same(after, before, Saved(dest, FILE_0)) && Same(after, before, Saved(dest, FILE_1));
  }
}
