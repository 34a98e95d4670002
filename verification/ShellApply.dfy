/**
 Replacing the shell's own files under an undo list: `ComponentUpdateWorker.ApplyShell`.

 Every file is first copied into a fresh backup directory, then replaced by an atomic
 rename, then entered in the list of changes.  When anything fails the list is walked
 backwards.  `Undo` is that walk on values; `UndoLeaves` says what it does at one file,
 which is why going backwards is right even when a manifest repeats a name.
 */
module ShellApply {
  import opened Wrappers
  import opened Paths
  import opened Disks

  const SUFFIX := ".update-"

  datatype Entry = Entry(name: string, hash: string)

  datatype Change = Change(target: Path, saved: Path, existed: bool)

  datatype Outcome = Rejected | Applied | RolledBack(failedUndos: nat, leftTemporary: bool, recordTried: bool)

  /** Where one update reads and writes. */
  datatype Layout = Layout(fold: Casing, install: Path, package: Path, backup: Path, temporaries: seq<Path>) {

    function Named(word: string): string { FoldName(fold, word) }

    function Target(name: string): Path { Resolve(fold, install, name) }

    function Backup(name: string): Path { Resolve(fold, backup, name) }

    function Payload(name: string): Path { Resolve(fold, package + [Named("payload")], name) }

    /** The list of changes is saved beside the files it protects. */
    function Record(): Path { backup + [Named("backup.json")] }

    /** The one installed file whose backup copy has the record's own path. */
    function RecordTwin(): Path { install + [Named("backup.json")] }

    predicate Scratch(p: Path) { Under(backup, p) || p in temporaries }

    /** Names an update may not write: unsafe ones, and those in the directories with user data. */
    predicate Admits(name: string) {
      && IsSafe(name)
      && Named(Split(name, '/')[0]) !in {Named("data"), Named("runtime"), Named("models"), Named("releases")}
    }

    /** The new content of a file is first copied beside it, under its name and a fresh tag. */
    function Temporary(name: string, tag: string): Path { Resolve(fold, install, name + SUFFIX + tag) }

    function Temporaries(es: seq<Entry>, tags: seq<string>): seq<Path>
      requires |es| <= |tags|
    {
      seq(|es|, i requires 0 <= i < |es| => Temporary(es[i].name, tags[i]))
    }

    predicate Admitted(es: seq<Entry>) {
      forall e :: e in es ==> Admits(e.name)
    }

    /** A directory in the directory of user data. */
    predicate InData(dir: Path) {
      |install| < |dir| && dir[..|install|] == install && dir[|install|] == Named("data")
    }

    ghost predicate Based() {
      KeepsMarks(fold) && InData(backup)
    }

    /** No file of the update is a temporary, and no payload is a target. */
    predicate Clear(es: seq<Entry>) {
      && (forall t :: t in temporaries ==> !Under(backup, t))
      && (forall e :: e in es ==> Target(e.name) !in temporaries && Payload(e.name) !in temporaries)
      && (forall e, d :: e in es && d in es ==> Payload(e.name) != Target(d.name))
    }

    /** What an update needs once its names are admitted. */
    ghost predicate Sound(es: seq<Entry>) {
      Based() && (Admitted(es) ==> Clear(es))
    }

    /** The backup directory and the temporary names are new. */
    ghost predicate Unused(f: Files) {
      forall p :: p in f ==> !Scratch(p)
    }

    /** What the first loop checks before anything is touched. */
    predicate Checked(f: Files, sha: Bytes -> string, e: Entry) {
      Admits(e.name) && Payload(e.name) in f && sha(f[Payload(e.name)]) == e.hash
    }
  }

  // ---- the undo list on values ----

  function UndoOne(f: Files, c: Change): Files {
    if c.existed && c.saved in f then f[c.target := f[c.saved]] else f - {c.target}
  }

  function Undo(f: Files, cs: seq<Change>): Files
    decreases |cs|
  {
    if cs == [] then f else Undo(UndoOne(f, cs[|cs| - 1]), cs[..|cs| - 1])
  }

  /** The earliest change made to `p`. */
  function First(cs: seq<Change>, p: Path): Option<Change> {
    if cs == [] then None
    else if cs[0].target == p then Some(cs[0])
    else First(cs[1..], p)
  }

  ghost predicate Kept(cs: seq<Change>, f: Files) {
    && (forall c :: c in cs && c.existed ==> c.saved in f)
    && (forall c, d :: c in cs && d in cs ==> c.target != d.saved)
  }

  lemma {:induction false} FirstOfLonger(cs: seq<Change>, c: Change, p: Path)
    ensures First(cs + [c], p) ==
            if First(cs, p).Some? then First(cs, p) else if c.target == p then Some(c) else None
  {
    if cs == [] {
      assert cs + [c] == [c];
    } else {
      FirstOfLonger(cs[1..], c, p);
      assert (cs + [c])[1..] == cs[1..] + [c];
    }
  }

  lemma {:induction false} FirstIsThere(cs: seq<Change>, p: Path)
    ensures First(cs, p).Some? ==> First(cs, p).value in cs && First(cs, p).value.target == p
    ensures First(cs, p).None? ==> forall c :: c in cs ==> c.target != p
  {
    if cs != [] { FirstIsThere(cs[1..], p); }
  }

  /** Walking back over the list leaves each file as it was before the earliest change to it. */
  lemma {:induction false} UndoLeaves(f: Files, cs: seq<Change>, p: Path)
    requires Kept(cs, f)
    ensures First(cs, p).None? ==> Same(Undo(f, cs), f, p)
    ensures First(cs, p).Some? && !First(cs, p).value.existed ==> p !in Undo(f, cs)
    ensures First(cs, p).Some? && First(cs, p).value.existed ==>
              First(cs, p).value.saved in f && p in Undo(f, cs) && Undo(f, cs)[p] == f[First(cs, p).value.saved]
    decreases |cs|
  {
    FirstIsThere(cs, p);
    if cs != [] {
      var c, before := cs[|cs| - 1], cs[..|cs| - 1];
      var g := UndoOne(f, c);
      assert cs == before + [c];
      assert Kept(before, g);
      UndoLeaves(g, before, p);
      FirstOfLonger(before, c, p);
      FirstIsThere(before, p);
    }
  }

  /** One replacement on values: the old file saved, then the new content in its place. */
  function WithChange(f: Files, c: Change, content: Bytes): Files
    requires c.existed ==> c.target in f
  {
    (if c.existed then f[c.saved := f[c.target]] else f)[c.target := content]
  }

  // ---- where the names go ----

  lemma DiffersAt(root: Path, p: Path, n: nat)
    requires n < |root| && n < |p| && p[n] != root[n]
    ensures !Under(root, p)
  {
    assert |root| < |p| ==> p[..|root|][n] == p[n];
  }

  lemma Places(l: Layout, name: string)
    requires l.Based() && l.Admits(name)
    ensures l.Target(name) == l.install + Parts(l.fold, name)
    ensures l.Backup(name) == l.backup + Parts(l.fold, name)
    ensures l.Payload(name) == l.package + [l.Named("payload")] + Parts(l.fold, name)
    ensures Under(l.install, l.Target(name)) && !Under(l.backup, l.Target(name))
    ensures Under(l.backup, l.Backup(name))
    ensures l.Backup(name) == l.Record() ==> l.Target(name) == l.RecordTwin()
  {
    SafeNameStaysBelow(l.fold, l.install, name);
    SafeNameStaysBelow(l.fold, l.backup, name);
    SafeNameStaysBelow(l.fold, l.package + [l.Named("payload")], name);
    var n := |l.install|;
    assert l.Target(name)[n] == l.Named(Split(name, '/')[0]) != l.backup[n];
    DiffersAt(l.backup, l.Target(name), n);
    if l.Backup(name) == l.Record() {
      assert Parts(l.fold, name) == l.Backup(name)[|l.backup|..] == l.Record()[|l.backup|..] == [l.Named("backup.json")];
    }
  }

  /** Two names share a target exactly when they share a backup, and then they share a payload. */
  lemma PlacesTogether(l: Layout, n: string, m: string)
    requires l.Based() && l.Admits(n) && l.Admits(m)
    ensures l.Target(n) == l.Target(m) <==> l.Backup(n) == l.Backup(m)
    ensures l.Target(n) == l.Target(m) ==> l.Payload(n) == l.Payload(m)
  {
    Places(l, n);
    Places(l, m);
    assert l.Target(n)[|l.install|..] == Parts(l.fold, n) && l.Target(m)[|l.install|..] == Parts(l.fold, m);
    assert l.Backup(n)[|l.backup|..] == Parts(l.fold, n) && l.Backup(m)[|l.backup|..] == Parts(l.fold, m);
  }

  /** The tags are new: no listed name is another one with its suffix and tag. */
  predicate Novel(l: Layout, es: seq<Entry>, tags: seq<string>)
    requires |es| <= |tags|
  {
    forall i, e :: 0 <= i < |es| && e in es ==> l.Named(e.name) != l.Named(es[i].name + SUFFIX + tags[i])
  }

  /** A temporary lies in the installation, outside the directory of user data. */
  lemma TemporaryPlace(l: Layout, name: string, tag: string)
    requires KeepsMarks(l.fold) && l.Admits(name) && IsTail(tag)
    ensures IsSafe(name + SUFFIX + tag) && |l.Temporary(name, tag)| > |l.install|
    ensures l.Temporary(name, tag)[|l.install|] != l.Named("data")
  {
    var tail := SUFFIX + tag;
    assert name + SUFFIX + tag == name + tail;
    assert tail[|tail| - 1] == tag[|tag| - 1];
    TailIsSafe(name, tail);
    SafeNameStaysBelow(l.fold, l.install, name + tail);
    var first := Split(name + tail, '/')[0];
    assert l.Temporary(name, tag)[|l.install|] == l.Named(first);
    if first == Split(name, '/')[0] + tail { assert |l.Named(first)| == |first| > |l.Named("data")|; }
  }

  lemma NotInData(l: Layout, dir: Path, p: Path)
    requires l.InData(dir) && |p| > |l.install| && p[|l.install|] != l.Named("data")
    ensures !Under(dir, p) && p != dir
  {
    DiffersAt(dir, p, |l.install|);
  }

  /**
   The layout the code makes, with its backup and its package in the directory of user data and its
   temporaries beside their targets, is sound as soon as the tags are new.
   */
  lemma OwnLayoutIsSound(l: Layout, es: seq<Entry>, tags: seq<string>)
    requires l.Based() && l.InData(l.package) && |es| <= |tags| && l.temporaries == l.Temporaries(es, tags)
    requires (forall tag :: tag in tags ==> IsTail(tag)) && Novel(l, es, tags)
    ensures l.Sound(es)
    ensures l.Admitted(es) ==> forall t :: t in l.temporaries ==> !Under(l.package, t)
  {
    if l.Admitted(es) {
      forall t | t in l.temporaries ensures !Under(l.backup, t) && !Under(l.package, t) {
        var i :| 0 <= i < |es| && t == l.Temporary(es[i].name, tags[i]);
        assert es[i] in es;
        TemporaryPlace(l, es[i].name, tags[i]);
        NotInData(l, l.backup, t);
        NotInData(l, l.package, t);
      }
      forall e | e in es ensures l.Target(e.name) !in l.temporaries && l.Payload(e.name) !in l.temporaries {
        forall i | 0 <= i < |es| ensures l.Target(e.name) != l.temporaries[i] && l.Payload(e.name) != l.temporaries[i] {
          OwnTemporaryIsClear(l, es, tags, i, e);
        }
      }
      forall e, d | e in es && d in es ensures l.Payload(e.name) != l.Target(d.name) { PayloadIsNoTarget(l, e.name, d.name); }
    }
  }

  lemma OwnTemporaryIsClear(l: Layout, es: seq<Entry>, tags: seq<string>, i: nat, e: Entry)
    requires l.Based() && l.InData(l.package) && i < |es| <= |tags| && e in es && l.Admitted(es)
    requires IsTail(tags[i]) && Novel(l, es, tags)
    ensures l.Target(e.name) != l.Temporary(es[i].name, tags[i]) && l.Payload(e.name) != l.Temporary(es[i].name, tags[i])
  {
    assert es[i] in es;
    TemporaryPlace(l, es[i].name, tags[i]);
    SafeNamesCollideOnlyByCase(l.fold, l.install, e.name, es[i].name + SUFFIX + tags[i]);
    Places(l, e.name);
    assert l.Payload(e.name)[|l.install|] == l.package[|l.install|];
  }

  lemma PayloadIsNoTarget(l: Layout, n: string, m: string)
    requires l.Based() && l.InData(l.package) && l.Admits(n) && l.Admits(m)
    ensures l.Payload(n) != l.Target(m) && !Under(l.package, l.Target(m))
  {
    Places(l, n);
    Places(l, m);
    assert l.Payload(n)[|l.install|] == l.package[|l.install|];
    assert l.Target(m)[|l.install|] == l.Named(Split(m, '/')[0]);
    NotInData(l, l.package, l.Target(m));
  }

  // ---- the replacement loop's state ----

  /** Each change sits at the place of the entry it was made for. */
  ghost predicate Placed(l: Layout, es: seq<Entry>, cs: seq<Change>) {
    && |cs| <= |es|
    && forall i :: 0 <= i < |cs| ==>
         cs[i].target == l.Target(es[i].name) && cs[i].saved == l.Backup(es[i].name)
  }

  /** Installed files are changed, backup files are saved. */
  ghost predicate Apart(l: Layout, cs: seq<Change>) {
    forall c :: c in cs ==> !l.Scratch(c.target) && Under(l.backup, c.saved)
  }

  /** The list accounts for every difference from `before`, and what it saved is still there. */
  ghost predicate Accounted(l: Layout, before: Files, f: Files, cs: seq<Change>) {
    && (forall c :: c in cs && c.existed ==> c.saved in f)
    && (forall p :: !l.Scratch(p) && First(cs, p).None? ==> Same(f, before, p))
    && (forall p :: First(cs, p).Some? ==> (First(cs, p).value.existed <==> p in before))
    && (forall p :: First(cs, p).Some? && p in before ==>
          First(cs, p).value.saved in f && f[First(cs, p).value.saved] == before[p])
  }

  lemma PlacedIsApart(l: Layout, es: seq<Entry>, cs: seq<Change>)
    requires l.Sound(es) && l.Admitted(es)
    requires Placed(l, es, cs)
    ensures Apart(l, cs)
  {
    forall c | c in cs ensures !l.Scratch(c.target) && Under(l.backup, c.saved) {
      var i :| 0 <= i < |cs| && cs[i] == c;
      assert es[i] in es;
      Places(l, es[i].name);
    }
  }

  /** Walking back from an accounted state restores every file that is not scratch. */
  lemma UndoRestores(l: Layout, before: Files, f: Files, cs: seq<Change>, p: Path)
    requires Apart(l, cs) && Accounted(l, before, f, cs)
    requires !l.Scratch(p)
    ensures Same(Undo(f, cs), before, p)
  {
    UndoLeaves(f, cs, p);
  }

  /** Changes to scratch files that spare the saved copies keep the account. */
  lemma ScratchSpares(l: Layout, before: Files, f: Files, g: Files, cs: seq<Change>)
    requires Accounted(l, before, f, cs)
    requires forall p :: !l.Scratch(p) ==> Same(g, f, p)
    requires forall c :: c in cs && c.existed ==> Same(g, f, c.saved)
    ensures Accounted(l, before, g, cs)
  {
    forall p | First(cs, p).Some? && p in before
      ensures First(cs, p).value.saved in g && g[First(cs, p).value.saved] == before[p]
    {
      FirstIsThere(cs, p);
    }
    forall p | !l.Scratch(p) && First(cs, p).None? ensures Same(g, before, p) {
      assert Same(g, f, p) && Same(f, before, p);
    }
  }

  /** Entering a change after the rename keeps the account. */
  lemma ChangeIsAccounted(l: Layout, before: Files, f: Files, g: Files, cs: seq<Change>, c: Change, content: Bytes)
    requires Apart(l, cs + [c]) && Accounted(l, before, f, cs)
    requires g == f[c.target := content] && (c.existed <==> c.target in f)
    requires c.existed ==> c.saved in f && f[c.saved] == f[c.target]
    ensures Accounted(l, before, g, cs + [c])
  {
    assert c in cs + [c] && forall d :: d in cs ==> d in cs + [c];
    forall p
      ensures First(cs + [c], p).None? && !l.Scratch(p) ==> Same(g, before, p)
      ensures First(cs + [c], p).Some? ==> (First(cs + [c], p).value.existed <==> p in before)
      ensures First(cs + [c], p).Some? && p in before ==>
                First(cs + [c], p).value.saved in g && g[First(cs + [c], p).value.saved] == before[p]
    {
      FirstOfLonger(cs, c, p);
      FirstIsThere(cs, p);
      if First(cs, p).None? && p == c.target { assert Same(f, before, p); }
    }
  }

  /** A record write that leaves `torn` behind spoils the walk back exactly when the record lies on a saved copy. */
  lemma RecordSpoilsItsTwin(l: Layout, es: seq<Entry>, before: Files, f: Files, cs: seq<Change>, torn: Bytes)
    requires l.Sound(es) && l.Admitted(es)
    requires Placed(l, es, cs) && Accounted(l, before, f, cs)
    ensures var g := f[l.Record() := torn];
      (forall p :: !l.Scratch(p) ==> Same(Undo(g, cs), before, p)) <==>
      !(First(cs, l.RecordTwin()).Some? && l.RecordTwin() in before && before[l.RecordTwin()] != torn)
  {
    var g := f[l.Record() := torn];
    PlacedIsApart(l, es, cs);
    assert Under(l.backup, l.Record()) by { assert l.Record()[..|l.backup|] == l.backup; }
    assert Kept(cs, g);
    forall p | !l.Scratch(p)
      ensures Same(Undo(g, cs), before, p) <==>
        !(p == l.RecordTwin() && First(cs, p).Some? && p in before && before[p] != torn)
    {
      UndoLeaves(g, cs, p);
      FirstIsThere(cs, p);
      if First(cs, p).Some? { TwinSaves(l, es, cs, First(cs, p).value); }
    }
    FirstIsThere(cs, l.RecordTwin());
  }

  lemma TwinSaves(l: Layout, es: seq<Entry>, cs: seq<Change>, c: Change)
    requires l.Sound(es) && l.Admitted(es)
    requires Placed(l, es, cs) && c in cs
    ensures c.saved == l.Record() <==> c.target == l.RecordTwin()
  {
    var i :| 0 <= i < |cs| && cs[i] == c;
    assert es[i] in es;
    Places(l, es[i].name);
    if c.target == l.RecordTwin() {
      assert Parts(l.fold, es[i].name) == c.target[|l.install|..] == l.RecordTwin()[|l.install|..] == [l.Named("backup.json")];
    }
  }

  /** The walk back after a failed record write restores everything but the record's twin. */
  lemma UndoAfterRecord(l: Layout, es: seq<Entry>, before: Files, f: Files, g: Files, cs: seq<Change>, p: Path)
    requires l.Sound(es) && l.Admitted(es)
    requires Placed(l, es, cs) && Accounted(l, before, f, cs)
    requires SameBut(g, f, l.Record()) && (l.Record() in f ==> l.Record() in g)
    requires !l.Scratch(p) && p != l.RecordTwin()
    ensures Same(Undo(g, cs), before, p)
  {
    PlacedIsApart(l, es, cs);
    SameElsewhere(g, f, l.Record());
    forall c | c in cs && c.existed ensures c.saved in g { assert c.saved != l.Record() ==> Same(g, f, c.saved); }
    UndoLeaves(g, cs, p);
    FirstIsThere(cs, p);
    assert Under(l.backup, l.Record()) by { assert l.Record()[..|l.backup|] == l.backup; }
    if First(cs, p).Some? {
      TwinSaves(l, es, cs, First(cs, p).value);
      assert Same(g, f, First(cs, p).value.saved);
    } else {
      assert Same(g, f, p);
    }
  }

  // ---- the code ----

  /** The first loop: every source is checked before the installation is touched. */
  method CheckSources(disk: Disk, l: Layout, sha: Bytes -> string, es: seq<Entry>) returns (ok: bool)
    ensures ok <==> forall e :: e in es ==> l.Checked(disk.files, sha, e)
  {
    for i := 0 to |es|
      invariant forall e :: e in es[..i] ==> l.Checked(disk.files, sha, e)
    {
      if !l.Checked(disk.files, sha, es[i]) { return false; }
      assert es[..i + 1] == es[..i] + [es[i]];
    }
    assert es[..|es|] == es;
    return true;
  }

  /** The old file is copied into the backup, if there is one. */
  method SaveOld(disk: Disk, target: Path, saved: Path) returns (ok: bool, existed: bool)
    requires disk.Valid()
    modifies disk
    ensures existed <==> target in old(disk.files)
    ensures ok ==> disk.files == if existed then old(disk.files)[saved := old(disk.files)[target]] else old(disk.files)
    ensures ok && existed ==> saved !in old(disk.files)
    ensures SameBut(disk.files, old(disk.files), saved)
    ensures saved in old(disk.files) || !existed ==> disk.files == old(disk.files)
    ensures disk.Valid() && disk.failures >= old(disk.failures)
    ensures !ok ==> disk.failures > old(disk.failures) || (existed && saved in old(disk.files))
    ensures ok ==> disk.failures == old(disk.failures) && disk.clock == old(disk.clock) + if existed then 2 else 0
  {
    existed, ok := target in disk.files, true;
    if existed {
      ok := disk.CreateDirectory();
      if !ok { return; }
      ok := disk.Copy(target, saved, false);
    }
  }

  /** The new file is copied beside the target and renamed over it; the copy does not stay behind if it can be deleted. */
  method SwapIn(disk: Disk, payload: Path, temporary: Path, target: Path) returns (ok: bool, left: bool)
    requires payload in disk.files && temporary !in disk.files && temporary != target
    requires disk.Valid()
    modifies disk
    ensures ok ==> disk.files == old(disk.files)[target := old(disk.files)[payload]] && !left
    ensures !ok ==> SameBut(disk.files, old(disk.files), temporary)
    ensures temporary in disk.files ==> left
    // A failure is the disk's; what stays behind is a second one.
    ensures disk.Valid() && disk.failures >= old(disk.failures)
    ensures !ok ==> disk.failures - old(disk.failures) >= if left then 2 else 1
    ensures ok ==> disk.failures == old(disk.failures)
  {
    ghost var f := disk.files;
    left := false;
    ok := disk.CreateDirectory();
    if !ok { return; }
    ok := disk.Copy(payload, temporary, false);
    if ok {
      ok := disk.Move(temporary, target);
      if ok { assert disk.files == f[target := f[payload]]; }
    }
    if temporary in disk.files {
      var deleted := disk.Delete(temporary);
      left, ok := !deleted, false;
    }
  }

  /** One turn of the second loop: back up, copy beside the target, rename over it. */
  method ReplaceOne(disk: Disk, l: Layout, name: string, temporary: Path)
    returns (ok: bool, existed: bool, left: bool)
    requires l.Based() && l.Admits(name) && temporary in l.temporaries
    requires l.Target(name) !in l.temporaries && forall t :: t in l.temporaries ==> !Under(l.backup, t)
    requires l.Payload(name) in disk.files && !l.Scratch(l.Payload(name))
    requires forall t :: t in l.temporaries ==> t !in disk.files
    requires disk.Valid()
    modifies disk
    ensures existed <==> l.Target(name) in old(disk.files)
    ensures ok ==> !left
    ensures var c := Change(l.Target(name), l.Backup(name), existed);
      ok ==> disk.files == WithChange(old(disk.files), c, old(disk.files)[l.Payload(name)])
    ensures ok && existed ==> l.Backup(name) !in old(disk.files)
    ensures !ok ==> forall p :: p != l.Backup(name) && p != temporary ==> Same(disk.files, old(disk.files), p)
    ensures !ok && l.Backup(name) in old(disk.files) ==>
              Same(disk.files, old(disk.files), l.Backup(name))
    ensures !ok && !existed ==> Same(disk.files, old(disk.files), l.Backup(name))
    ensures temporary in disk.files ==> left
    ensures disk.Valid() && disk.failures >= old(disk.failures)
    ensures !ok ==> disk.failures > old(disk.failures) || (existed && l.Backup(name) in old(disk.files))
    ensures ok ==> disk.failures == old(disk.failures)
    ensures left ==> disk.failures - old(disk.failures) >= 2
  {
    var target, saved := l.Target(name), l.Backup(name);
    Places(l, name);
    ghost var f0 := disk.files;
    left := false;
    ok, existed := SaveOld(disk, target, saved);
    ghost var f1 := disk.files;
    SameElsewhere(f1, f0, saved);
    assert Same(f1, f0, temporary);
    if !ok { return; }
    ok, left := SwapIn(disk, l.Payload(name), temporary, target);
    if !ok {
      SameElsewhere(disk.files, f1, temporary);
      TwoSteps(f0, f1, disk.files, saved, temporary);
    }
  }

  lemma TwoSteps(f0: Files, f1: Files, f2: Files, saved: Path, temporary: Path)
    requires (forall p :: p != saved ==> Same(f1, f0, p)) && forall p :: p != temporary ==> Same(f2, f1, p)
    ensures forall p :: p != saved && p != temporary ==> Same(f2, f0, p)
  {
    forall p | p != saved && p != temporary ensures Same(f2, f0, p) { assert Same(f2, f1, p) && Same(f1, f0, p); }
  }

  /** The change at this place is the earliest to its file. */
  predicate Earliest(cs: seq<Change>, i: nat)
    requires i < |cs|
  {
    forall j :: 0 <= j < i ==> cs[j].target != cs[i].target
  }

  lemma {:induction false} EarliestIsFirst(cs: seq<Change>, i: nat)
    requires i < |cs| && Earliest(cs, i)
    ensures First(cs, cs[i].target) == Some(cs[i])
  {
    if i > 0 {
      assert cs[0].target != cs[i].target && cs[1..][i - 1] == cs[i];
      assert Earliest(cs[1..], i - 1) by { assert forall j :: 0 <= j < i - 1 ==> cs[1..][j] == cs[j + 1]; }
      EarliestIsFirst(cs[1..], i - 1);
    }
  }

  /** The change's file is what was saved of it, or gone. */
  predicate IsBack(saved: Files, f: Files, c: Change) {
    if c.existed then c.saved in saved && c.target in f && f[c.target] == saved[c.saved] else c.target !in f
  }

  /** The step for the change at this place, the last one being undone first, is one the disk obliges. */
  predicate Obliged(faults: nat -> Fault, since: nat, cs: seq<Change>, i: nat)
    requires i < |cs|
  {
    faults(since + |cs| - 1 - i).Fine?
  }

  /** Every file whose earliest change is among the last ones, and whose step was obliged, is back. */
  predicate BackSince(faults: nat -> Fault, since: nat, cs: seq<Change>, i: nat, saved: Files, f: Files) {
    forall j :: i <= j < |cs| && Earliest(cs, j) && Obliged(faults, since, cs, j) ==> IsBack(saved, f, cs[j])
  }

  method UndoStep(disk: Disk, c: Change) returns (ok: bool)
    requires c.existed ==> c.saved in disk.files
    requires disk.Valid()
    modifies disk
    ensures disk.Valid() && disk.clock == old(disk.clock) + 1 && (ok <==> disk.faults(old(disk.clock)).Fine?)
    ensures disk.failures == old(disk.failures) + One(!ok)
    ensures ok ==> disk.files == UndoOne(old(disk.files), c)
    ensures forall p :: p != c.target ==> Same(disk.files, old(disk.files), p)
  {
    ghost var f := disk.files;
    if c.existed {
      ok := disk.Copy(c.saved, c.target, true);
      SameElsewhere(disk.files, f, c.target);
    } else {
      ok := disk.Delete(c.target);
    }
  }

  /** One step more: what was back stays back, as its file has no step left. */
  lemma BackOneMore(faults: nat -> Fault, since: nat, cs: seq<Change>, i: nat, saved: Files, f: Files, g: Files)
    requires i < |cs| && BackSince(faults, since, cs, i + 1, saved, f)
    requires forall p :: p != cs[i].target ==> Same(g, f, p)
    requires Earliest(cs, i) && Obliged(faults, since, cs, i) ==> IsBack(saved, g, cs[i])
    ensures BackSince(faults, since, cs, i, saved, g)
  {
    forall j | i < j < |cs| && Earliest(cs, j) && Obliged(faults, since, cs, j) ensures IsBack(saved, g, cs[j]) {
      assert cs[i].target != cs[j].target && Same(g, f, cs[j].target);
    }
  }

  /** The walk has come down to place i: what can be back is, and nothing else was touched. */
  ghost predicate Walked(faults: nat -> Fault, since: nat, cs: seq<Change>, i: nat, saved: Files, f: Files, failed: nat) {
    && i <= |cs|
    && (failed == 0 ==> Undo(f, cs[..i]) == Undo(saved, cs))
    && BackSince(faults, since, cs, i, saved, f)
    && (forall p :: First(cs, p).None? ==> Same(f, saved, p))
  }

  lemma SavedStays(cs: seq<Change>, saved: Files, f: Files, i: nat)
    requires i < |cs| && Kept(cs, saved) && cs[i].existed && forall p :: First(cs, p).None? ==> Same(f, saved, p)
    ensures Same(f, saved, cs[i].saved)
  {
    FirstIsThere(cs, cs[i].saved);
    assert cs[i] in cs;
  }

  lemma WalkedOn(faults: nat -> Fault, since: nat, cs: seq<Change>, i: nat, saved: Files, f: Files, g: Files, failed: nat)
    requires Kept(cs, saved) && i < |cs| && Walked(faults, since, cs, i + 1, saved, f, failed)
    requires Obliged(faults, since, cs, i) ==> g == UndoOne(f, cs[i])
    requires forall p :: p != cs[i].target ==> Same(g, f, p)
    ensures Walked(faults, since, cs, i, saved, g, failed + if Obliged(faults, since, cs, i) then 0 else 1)
  {
    var c := cs[i];
    assert c in cs && cs[..i + 1][..i] == cs[..i];
    if c.existed { SavedStays(cs, saved, f, i); }
    BackOneMore(faults, since, cs, i, saved, f, g);
    forall p | First(cs, p).None? ensures Same(g, saved, p) {
      FirstIsThere(cs, p);
      assert Same(g, f, p) && Same(f, saved, p);
    }
  }

  /** A file is restored if the step for its earliest change was obliged, whatever became of the others. */
  ghost predicate WalkedAll(faults: nat -> Fault, since: nat, cs: seq<Change>, saved: Files, f: Files, failed: nat) {
    && (failed == 0 ==> f == Undo(saved, cs))
    && (forall i :: 0 <= i < |cs| && Earliest(cs, i) && Obliged(faults, since, cs, i) ==> Same(f, Undo(saved, cs), cs[i].target))
    && (forall p :: First(cs, p).None? ==> Same(f, saved, p))
  }

  lemma WalkedBack(faults: nat -> Fault, since: nat, cs: seq<Change>, saved: Files, f: Files, failed: nat)
    requires Kept(cs, saved) && Walked(faults, since, cs, 0, saved, f, failed)
    ensures WalkedAll(faults, since, cs, saved, f, failed)
  {
    assert cs[..0] == [];
    forall i | 0 <= i < |cs| && Earliest(cs, i) && Obliged(faults, since, cs, i) ensures Same(f, Undo(saved, cs), cs[i].target) {
      EarliestIsFirst(cs, i);
      UndoLeaves(saved, cs, cs[i].target);
    }
  }

  /** One turn of the walk. */
  method StepBack(disk: Disk, cs: seq<Change>, i: nat, ghost since: nat, ghost saved: Files, failed: nat) returns (failed': nat)
    requires Kept(cs, saved) && i < |cs| && disk.clock == since + |cs| - (i + 1)
    requires Walked(disk.faults, since, cs, i + 1, saved, disk.files, failed)
    requires disk.Valid()
    modifies disk
    ensures disk.Valid() && disk.clock == old(disk.clock) + 1
    ensures Walked(disk.faults, since, cs, i, saved, disk.files, failed') && failed' - failed == disk.failures - old(disk.failures)
  {
    ghost var f := disk.files;
    if cs[i].existed { SavedStays(cs, saved, f, i); }
    assert cs[i] in cs;
    var ok := UndoStep(disk, cs[i]);
    WalkedOn(disk.faults, since, cs, i, saved, f, disk.files, failed);
    failed' := if ok then failed else failed + 1;
  }

  lemma NotYetWalked(faults: nat -> Fault, since: nat, cs: seq<Change>, saved: Files)
    ensures Walked(faults, since, cs, |cs|, saved, saved, 0)
  {
    assert cs[..|cs|] == cs;
  }

  /** The catch block: the list walked backwards, an item that fails counted and passed over. */
  method UndoChanges(disk: Disk, cs: seq<Change>) returns (failed: nat)
    requires Kept(cs, disk.files)
    requires disk.Valid()
    modifies disk
    ensures disk.Valid() && disk.clock == old(disk.clock) + |cs| && failed == disk.failures - old(disk.failures)
    ensures WalkedAll(disk.faults, old(disk.clock), cs, old(disk.files), disk.files, failed)
  {
    failed := 0;
    var i := |cs|;
    ghost var f0, since := disk.files, disk.clock;
    NotYetWalked(disk.faults, since, cs, f0);
    while i > 0
      invariant 0 <= i <= |cs| && disk.Valid() && disk.clock == since + |cs| - i
      invariant Walked(disk.faults, since, cs, i, f0, disk.files, failed) && failed == disk.failures - old(disk.failures)
    {
      i := i - 1;
      failed := StepBack(disk, cs, i, since, f0, failed);
    }
    WalkedBack(disk.faults, since, cs, f0, disk.files, failed);
  }

  /** Every target holds its payload, every file replaced has its backup, nothing else differs. */
  ghost predicate Installed(l: Layout, es: seq<Entry>, before: Files, after: Files) {
    && (forall e :: e in es ==> l.Payload(e.name) in before && l.Target(e.name) in after
                                && after[l.Target(e.name)] == before[l.Payload(e.name)])
    && (forall e :: e in es && l.Target(e.name) in before && l.Target(e.name) != l.RecordTwin() ==>
          l.Backup(e.name) in after && after[l.Backup(e.name)] == before[l.Target(e.name)])
    && (forall p :: !Under(l.backup, p) && (forall e :: e in es ==> p != l.Target(e.name)) ==> Same(after, before, p))
  }

  /** Only targets and scratch files may differ, and each file that was replaced survives in place or in the backup. */
  ghost predicate Recoverable(l: Layout, es: seq<Entry>, before: Files, after: Files, recordTried: bool) {
    && (forall p :: !l.Scratch(p) && (forall e :: e in es ==> p != l.Target(e.name)) ==> Same(after, before, p))
    && (forall e :: e in es && l.Target(e.name) in before && !(recordTried && l.Target(e.name) == l.RecordTwin()) ==>
          Same(after, before, l.Target(e.name)) ||
          (l.Backup(e.name) in after && after[l.Backup(e.name)] == before[l.Target(e.name)]))
  }

  /** No file is named twice. */
  ghost predicate Once(l: Layout, es: seq<Entry>) {
    forall i, j :: 0 <= i < j < |es| ==> l.Target(es[i].name) != l.Target(es[j].name)
  }

  /** The backup directory holds copies of files that were installed, and nothing else but the record. */
  ghost predicate OnlyCopies(l: Layout, es: seq<Entry>, before: Files, f: Files, recordTried: bool) {
    forall p :: p in f && Under(l.backup, p) && !(recordTried && p == l.Record()) ==>
      exists e :: e in es && p == l.Backup(e.name) && l.Target(e.name) in before
  }

  /** The replacement loop's invariant while nothing has failed. */
  ghost predicate Progress(l: Layout, es: seq<Entry>, before: Files, f: Files, cs: seq<Change>) {
    && Placed(l, es, cs) && Accounted(l, before, f, cs)
    && (forall t :: t in l.temporaries ==> t !in f)
    && Filled(l, es, before, f, cs)
    && OnlySaved(l, f, cs)
  }

  ghost predicate Filled(l: Layout, es: seq<Entry>, before: Files, f: Files, cs: seq<Change>) {
    && |cs| <= |es|
    && forall i :: 0 <= i < |cs| ==> cs[i].target in f && l.Payload(es[i].name) in before
                                     && f[cs[i].target] == before[l.Payload(es[i].name)]
  }

  ghost predicate OnlySaved(l: Layout, f: Files, cs: seq<Change>) {
    forall p :: p in f && Under(l.backup, p) ==> exists c :: c in cs && c.saved == p
  }

  ghost predicate Ready(l: Layout, es: seq<Entry>, before: Files) {
    && l.Sound(es) && l.Admitted(es) && l.Unused(before)
    && forall e :: e in es ==> l.Payload(e.name) in before
  }

  lemma ChangedAreTargets(l: Layout, es: seq<Entry>, cs: seq<Change>, p: Path)
    requires Placed(l, es, cs)
    ensures First(cs, p).Some? ==> exists e :: e in es && p == l.Target(e.name)
  {
    FirstIsThere(cs, p);
    if First(cs, p).Some? {
      var i :| 0 <= i < |cs| && cs[i] == First(cs, p).value;
      assert es[i] in es;
    }
  }

  lemma PayloadIsStill(l: Layout, es: seq<Entry>, before: Files, f: Files, cs: seq<Change>, e: Entry)
    requires Ready(l, es, before) && Progress(l, es, before, f, cs) && e in es
    ensures !l.Scratch(l.Payload(e.name)) && Same(f, before, l.Payload(e.name))
  {
    ChangedAreTargets(l, es, cs, l.Payload(e.name));
  }

  /** The change for the next entry lies where it should and meets no earlier one's backup. */
  ghost predicate Fits(l: Layout, es: seq<Entry>, cs: seq<Change>, c: Change) {
    && |cs| < |es| && Placed(l, es, cs + [c]) && Apart(l, cs + [c])
    && (forall i :: 0 <= i < |cs| ==> cs[i].target != c.saved)
    && (forall i :: 0 <= i < |cs| && cs[i].target == c.target ==> l.Payload(es[i].name) == l.Payload(es[|cs|].name))
  }

  lemma ChangeFits(l: Layout, es: seq<Entry>, cs: seq<Change>, c: Change)
    requires l.Sound(es) && l.Admitted(es) && Placed(l, es, cs) && |cs| < |es|
    requires c.target == l.Target(es[|cs|].name) && c.saved == l.Backup(es[|cs|].name)
    ensures Fits(l, es, cs, c)
  {
    PlacedOneMore(l, es, cs, c);
    PlacedIsApart(l, es, cs + [c]);
    Neighbours(l, es, cs);
  }

  lemma PlacedOneMore(l: Layout, es: seq<Entry>, cs: seq<Change>, c: Change)
    requires Placed(l, es, cs) && |cs| < |es|
    requires c.target == l.Target(es[|cs|].name) && c.saved == l.Backup(es[|cs|].name)
    ensures Placed(l, es, cs + [c])
  {
  }

  lemma ProgressMade(l: Layout, es: seq<Entry>, before: Files, f: Files, g: Files, cs: seq<Change>, c: Change, content: Bytes)
    requires Fits(l, es, cs, c) && Progress(l, es, before, f, cs)
    requires (c.existed <==> c.target in f) && (c.existed ==> c.saved !in f)
    requires l.Payload(es[|cs|].name) in before && content == before[l.Payload(es[|cs|].name)]
    requires forall t :: t in l.temporaries ==> !Under(l.backup, t)
    requires g == WithChange(f, c, content)
    ensures Progress(l, es, before, g, cs + [c])
  {
    PayloadsMade(l, es, before, f, g, cs, c, content);
    AccountMade(l, before, f, g, cs, c, content);
    assert c in cs + [c] && !l.Scratch(c.target) && Under(l.backup, c.saved);
    OnlySavedMade(l, f, g, cs, c, content);
    forall t | t in l.temporaries ensures t !in g { assert t != c.target && t != c.saved && t !in f; }
  }

  lemma OnlySavedMade(l: Layout, f: Files, g: Files, cs: seq<Change>, c: Change, content: Bytes)
    requires OnlySaved(l, f, cs) && !Under(l.backup, c.target) && (c.existed ==> c.target in f)
    requires g == WithChange(f, c, content)
    ensures OnlySaved(l, g, cs + [c])
  {
    assert c in cs + [c];
    forall p | p in g && Under(l.backup, p) ensures exists d :: d in cs + [c] && d.saved == p {
      if p in f { var d :| d in cs && d.saved == p; assert d in cs + [c]; } else { assert p == c.saved; }
    }
  }

  /** Saving one file and replacing it keeps the account. */
  lemma AccountMade(l: Layout, before: Files, f: Files, g: Files, cs: seq<Change>, c: Change, content: Bytes)
    requires Apart(l, cs + [c]) && Accounted(l, before, f, cs)
    requires (c.existed <==> c.target in f) && (c.existed ==> c.saved !in f)
    requires g == WithChange(f, c, content)
    ensures Accounted(l, before, g, cs + [c])
  {
    assert c in cs + [c] && Under(l.backup, c.saved);
    var mid := if c.existed then f[c.saved := f[c.target]] else f;
    ScratchSpares(l, before, f, mid, cs);
    ChangeIsAccounted(l, before, mid, g, cs, c, content);
  }

  lemma PayloadsMade(l: Layout, es: seq<Entry>, before: Files, f: Files, g: Files, cs: seq<Change>, c: Change, content: Bytes)
    requires Filled(l, es, before, f, cs) && |cs| < |es|
    requires l.Payload(es[|cs|].name) in before && content == before[l.Payload(es[|cs|].name)]
    requires c.existed ==> c.target in f
    requires g == WithChange(f, c, content)
    requires forall i :: 0 <= i < |cs| ==> cs[i].target != c.saved
    requires forall i :: 0 <= i < |cs| && cs[i].target == c.target ==> l.Payload(es[i].name) == l.Payload(es[|cs|].name)
    ensures Filled(l, es, before, g, cs + [c])
  {
  }

  lemma Neighbours(l: Layout, es: seq<Entry>, cs: seq<Change>)
    requires l.Sound(es) && l.Admitted(es) && Placed(l, es, cs) && |cs| < |es|
    ensures forall i :: 0 <= i < |cs| ==> cs[i].target != l.Backup(es[|cs|].name)
    ensures forall i :: 0 <= i < |cs| && cs[i].target == l.Target(es[|cs|].name) ==>
              l.Payload(es[i].name) == l.Payload(es[|cs|].name)
  {
    assert es[|cs|] in es;
    Places(l, es[|cs|].name);
    forall i | 0 <= i < |cs|
      ensures cs[i].target != l.Backup(es[|cs|].name)
      ensures cs[i].target == l.Target(es[|cs|].name) ==> l.Payload(es[i].name) == l.Payload(es[|cs|].name)
    {
      assert es[i] in es;
      Places(l, es[i].name);
      PlacesTogether(l, es[i].name, es[|cs|].name);
    }
  }

  /** A file named once has no backup yet when its turn comes. */
  lemma BackupIsNew(l: Layout, es: seq<Entry>, before: Files, f: Files, cs: seq<Change>)
    requires Ready(l, es, before) && Progress(l, es, before, f, cs) && |cs| < |es|
    requires Once(l, es)
    ensures l.Backup(es[|cs|].name) !in f
    ensures l.Target(es[|cs|].name) in f <==> l.Target(es[|cs|].name) in before
  {
    var n := es[|cs|].name;
    assert es[|cs|] in es;
    Places(l, n);
    if l.Backup(n) in f {
      var c :| c in cs && c.saved == l.Backup(n);
      var i :| 0 <= i < |cs| && cs[i] == c;
      assert es[i] in es;
      PlacesTogether(l, es[i].name, n);
      assert false;
    }
    FirstIsThere(cs, l.Target(n));
    forall c | c in cs ensures c.target != l.Target(n) { var i :| 0 <= i < |cs| && cs[i] == c; }
    assert Same(f, before, l.Target(n));
  }

  lemma ReplaceFailed(l: Layout, es: seq<Entry>, before: Files, f: Files, g: Files, cs: seq<Change>, temporary: Path)
    requires Ready(l, es, before) && Progress(l, es, before, f, cs) && |cs| < |es| && temporary in l.temporaries
    requires var n := es[|cs|].name;
      && (forall p :: p != l.Backup(n) && p != temporary ==> Same(g, f, p))
      && (l.Backup(n) in f ==> Same(g, f, l.Backup(n)))
    ensures Accounted(l, before, g, cs)
    ensures temporary !in g ==> forall t :: t in l.temporaries ==> t !in g
  {
    assert es[|cs|] in es;
    Places(l, es[|cs|].name);
    PlacedIsApart(l, es, cs);
    ScratchSpares(l, before, f, g, cs);
    forall t | t in l.temporaries && temporary !in g ensures t !in g { assert t != temporary ==> Same(g, f, t); }
  }

  lemma InstalledAtEnd(l: Layout, es: seq<Entry>, before: Files, f: Files, g: Files, cs: seq<Change>)
    requires Ready(l, es, before) && Progress(l, es, before, f, cs) && |cs| == |es|
    requires forall p :: p != l.Record() ==> Same(g, f, p)
    ensures Installed(l, es, before, g)
  {
    PlacedIsApart(l, es, cs);
    assert Under(l.backup, l.Record()) by { assert l.Record()[..|l.backup|] == l.backup; }
    forall e | e in es
      ensures l.Target(e.name) in g && g[l.Target(e.name)] == before[l.Payload(e.name)]
      ensures l.Target(e.name) in before && l.Target(e.name) != l.RecordTwin() ==>
                l.Backup(e.name) in g && g[l.Backup(e.name)] == before[l.Target(e.name)]
    {
      var i :| 0 <= i < |es| && es[i] == e;
      assert cs[i] in cs;
      FirstIsThere(cs, l.Target(e.name));
      var c := First(cs, l.Target(e.name)).value;
      var j :| 0 <= j < |cs| && cs[j] == c;
      assert es[j] in es;
      PlacesTogether(l, es[j].name, e.name);
      TwinSaves(l, es, cs, c);
      Places(l, e.name);
      assert Same(g, f, l.Target(e.name));
      assert c.saved != l.Record() ==> Same(g, f, c.saved);
    }
    forall p | !Under(l.backup, p) && (forall e :: e in es ==> p != l.Target(e.name)) ensures Same(g, before, p) {
      FirstIsThere(cs, p);
      assert First(cs, p).None?;
      assert Same(g, f, p);
      if p !in l.temporaries { assert Same(f, before, p); }
    }
  }

  /** What the catch block starts from: the list still undoes everything, the record's twin aside if the record was tried. */
  ghost predicate Undoable(l: Layout, before: Files, g: Files, cs: seq<Change>, recordTried: bool) {
    && Kept(cs, g) && Apart(l, cs)
    && (forall p :: !l.Scratch(p) && First(cs, p).None? ==> Same(g, before, p))
    && (forall p :: !l.Scratch(p) && !(recordTried && p == l.RecordTwin()) ==> Same(Undo(g, cs), before, p))
    && (forall p :: !(recordTried && p == l.RecordTwin()) && First(cs, p).Some? && p in before ==>
          First(cs, p).value.saved in g && g[First(cs, p).value.saved] == before[p])
  }

  lemma AccountedIsUndoable(l: Layout, es: seq<Entry>, before: Files, g: Files, cs: seq<Change>)
    requires l.Sound(es) && l.Admitted(es)
    requires Placed(l, es, cs) && Accounted(l, before, g, cs)
    ensures Undoable(l, before, g, cs, false)
  {
    PlacedIsApart(l, es, cs);
    forall p | !l.Scratch(p) ensures Same(Undo(g, cs), before, p) { UndoRestores(l, before, g, cs, p); }
  }

  lemma RecordFailureIsUndoable(l: Layout, es: seq<Entry>, before: Files, f: Files, g: Files, cs: seq<Change>)
    requires l.Sound(es) && l.Admitted(es)
    requires Placed(l, es, cs) && Accounted(l, before, f, cs)
    requires SameBut(g, f, l.Record()) && (l.Record() in f ==> l.Record() in g)
    ensures Undoable(l, before, g, cs, true)
  {
    PlacedIsApart(l, es, cs);
    SameElsewhere(g, f, l.Record());
    assert Under(l.backup, l.Record()) by { assert l.Record()[..|l.backup|] == l.backup; }
    forall p | !l.Scratch(p) && p != l.RecordTwin() ensures Same(Undo(g, cs), before, p) {
      UndoAfterRecord(l, es, before, f, g, cs, p);
    }
    forall c | c in cs && c.existed ensures c.saved in g { assert c.saved != l.Record() ==> Same(g, f, c.saved); }
    forall p | p != l.RecordTwin() && First(cs, p).Some? && p in before
      ensures First(cs, p).value.saved in g && g[First(cs, p).value.saved] == before[p]
    {
      FirstIsThere(cs, p);
      TwinSaves(l, es, cs, First(cs, p).value);
      assert Same(g, f, First(cs, p).value.saved);
    }
    forall p | !l.Scratch(p) && First(cs, p).None? ensures Same(g, before, p) { assert Same(g, f, p); }
  }

  lemma StillRecoverable(l: Layout, es: seq<Entry>, before: Files, g: Files, after: Files, cs: seq<Change>, recordTried: bool)
    requires l.Sound(es) && l.Admitted(es)
    requires Placed(l, es, cs) && Undoable(l, before, g, cs, recordTried)
    requires forall p :: First(cs, p).None? ==> Same(after, g, p)
    ensures Recoverable(l, es, before, after, recordTried)
  {
    forall p | !l.Scratch(p) && (forall e :: e in es ==> p != l.Target(e.name)) ensures Same(after, before, p) {
      ChangedAreTargets(l, es, cs, p);
      assert Same(after, g, p);
    }
    forall e | e in es && l.Target(e.name) in before && !(recordTried && l.Target(e.name) == l.RecordTwin())
      ensures Same(after, before, l.Target(e.name)) ||
              (l.Backup(e.name) in after && after[l.Backup(e.name)] == before[l.Target(e.name)])
    {
      var t := l.Target(e.name);
      Places(l, e.name);
      FirstIsThere(cs, t);
      if First(cs, t).Some? {
        var c := First(cs, t).value;
        var i :| 0 <= i < |cs| && cs[i] == c;
        assert es[i] in es;
        PlacesTogether(l, es[i].name, e.name);
        FirstIsThere(cs, c.saved);
        assert Same(after, g, c.saved);
      } else {
        assert Same(after, g, t) && Same(g, before, t);
      }
    }
  }

  /** The record lists every change in order, with what was there before it. */
  ghost predicate Recorded(l: Layout, es: seq<Entry>, encode: seq<Change> -> Bytes, before: Files, after: Files) {
    exists cs :: Lists(l, es, before, cs) && l.Record() in after && after[l.Record()] == encode(cs)
  }

  ghost predicate Lists(l: Layout, es: seq<Entry>, before: Files, cs: seq<Change>) {
    |cs| == |es| && Placed(l, es, cs) && forall p :: First(cs, p).Some? ==> (First(cs, p).value.existed <==> p in before)
  }

  /** A file was saved, so the backup directory exists. */
  predicate HasBackup(cs: seq<Change>) {
    exists i :: 0 <= i < |cs| && cs[i].existed
  }

  /** Some file of the update was installed before. */
  ghost predicate Replaces(l: Layout, es: seq<Entry>, before: Files) {
    exists e :: e in es && l.Target(e.name) in before
  }

  /** Where no file is changed twice, each change is the earliest to its file. */
  lemma FirstOfDistinct(cs: seq<Change>, i: nat)
    requires i < |cs| && forall j, k :: 0 <= j < k < |cs| ==> cs[j].target != cs[k].target
    ensures First(cs, cs[i].target) == Some(cs[i])
  {
    FirstIsThere(cs, cs[i].target);
    assert cs[i] in cs;
  }

  /** Where no file is named twice, the backup directory is made exactly when the update replaces something. */
  lemma {:induction false} BackupIffReplaces(l: Layout, es: seq<Entry>, before: Files, cs: seq<Change>)
    requires |cs| == |es| && forall i :: 0 <= i < |cs| ==> cs[i].target == l.Target(es[i].name)
    requires forall j, k :: 0 <= j < k < |cs| ==> cs[j].target != cs[k].target
    requires forall p :: First(cs, p).Some? ==> (First(cs, p).value.existed <==> p in before)
    ensures HasBackup(cs) <==> Replaces(l, es, before)
  {
    forall i | 0 <= i < |cs| ensures cs[i].existed <==> l.Target(es[i].name) in before { FirstOfDistinct(cs, i); }
    if HasBackup(cs) {
      var i :| 0 <= i < |cs| && cs[i].existed;
      assert es[i] in es;
    }
    if Replaces(l, es, before) {
      var e :| e in es && l.Target(e.name) in before;
      var i :| 0 <= i < |es| && es[i] == e;
      assert cs[i].existed;
    }
  }

  /** Only the copy of an installed file is new in the backup directory. */
  lemma OneMoreCopy(l: Layout, es: seq<Entry>, before: Files, f: Files, g: Files, e: Entry, existed: bool, temporary: Path)
    requires l.Sound(es) && l.Admitted(es) && e in es && temporary in l.temporaries && OnlyCopies(l, es, before, f, false)
    requires existed ==> l.Target(e.name) in before
    requires forall p :: p != l.Target(e.name) && p != temporary && (existed ==> p != l.Backup(e.name)) ==> Same(g, f, p)
    ensures OnlyCopies(l, es, before, g, false)
  {
    Places(l, e.name);
    forall p | p in g && Under(l.backup, p) ensures exists d :: d in es && p == l.Backup(d.name) && l.Target(d.name) in before {
      if !(existed && p == l.Backup(e.name)) { assert Same(g, f, p); }
    }
  }

  /** The second loop's state: what was changed so far, and how many failures it takes to have come there. */
  ghost predicate Going(l: Layout, es: seq<Entry>, before: Files, f: Files, cs: seq<Change>, ok: bool, left: bool, failures: int) {
    && Placed(l, es, cs) && Accounted(l, before, f, cs)
    && (ok ==> Progress(l, es, before, f, cs) && !left && failures == 0)
    && (!left ==> forall t :: t in l.temporaries ==> t !in f)
    && (Once(l, es) ==> OnlyCopies(l, es, before, f, false))
    && (!ok && Once(l, es) ==> failures >= 1)
    && (left ==> failures >= 2)
  }

  /** One turn of the loop: a file is replaced and entered in the list, or the loop ends. */
  method ReplaceNext(disk: Disk, l: Layout, es: seq<Entry>, changed: seq<Change>, temporary: Path, ghost before: Files)
    returns (ok: bool, c: Change, left: bool)
    requires Ready(l, es, before) && |changed| < |es| && temporary in l.temporaries
    requires Going(l, es, before, disk.files, changed, true, false, 0)
    requires disk.Valid()
    modifies disk
    ensures disk.Valid() && disk.failures >= old(disk.failures)
    ensures Going(l, es, before, disk.files, if ok then changed + [c] else changed, ok, left, disk.failures - old(disk.failures))
  {
    var e := es[|changed|];
    ghost var f := disk.files;
    PayloadIsStill(l, es, before, f, changed, e);
    if Once(l, es) { BackupIsNew(l, es, before, f, changed); }
    var existed;
    ok, existed, left := ReplaceOne(disk, l, e.name, temporary);
    if Once(l, es) { OneMoreCopy(l, es, before, f, disk.files, e, existed, temporary); }
    c := Change(l.Target(e.name), l.Backup(e.name), existed);
    if ok {
      ChangeFits(l, es, changed, c);
      ProgressMade(l, es, before, f, disk.files, changed, c, f[l.Payload(e.name)]);
    } else {
      ReplaceFailed(l, es, before, f, disk.files, changed, temporary);
    }
  }

  lemma NotYetGoing(l: Layout, es: seq<Entry>, before: Files)
    requires Ready(l, es, before)
    ensures Going(l, es, before, before, [], true, false, 0)
  {
  }

  /** The second loop, up to the first failure. */
  method ReplaceAll(disk: Disk, l: Layout, es: seq<Entry>, tags: seq<string>) returns (ok: bool, changed: seq<Change>, left: bool)
    requires |es| <= |tags| && l.temporaries == l.Temporaries(es, tags) && Ready(l, es, disk.files)
    requires disk.Valid()
    modifies disk
    ensures disk.Valid() && disk.failures >= old(disk.failures)
    ensures Going(l, es, old(disk.files), disk.files, changed, ok, left, disk.failures - old(disk.failures)) && (ok ==> |changed| == |es|)
  {
    ghost var before := disk.files;
    changed := [];
    ok, left := true, false;
    NotYetGoing(l, es, before);
    while ok && |changed| < |es|
      invariant disk.Valid() && disk.failures >= old(disk.failures) && |changed| <= |es|
      invariant Going(l, es, before, disk.files, changed, ok, left, disk.failures - old(disk.failures))
      decreases ok, |es| - |changed|
    {
      var c;
      assert l.temporaries[|changed|] == l.Temporary(es[|changed|].name, tags[|changed|]);
      ok, c, left := ReplaceNext(disk, l, es, changed, l.Temporary(es[|changed|].name, tags[|changed|]), before);
      if ok { changed := changed + [c]; }
    }
  }

  lemma RecordIsNoTemporary(l: Layout, f: Files, g: Files)
    requires SameBut(g, f, l.Record()) && forall t :: t in l.temporaries ==> t !in f && !Under(l.backup, t)
    ensures forall t :: t in l.temporaries ==> t !in g
  {
    assert Under(l.backup, l.Record()) by { assert l.Record()[..|l.backup|] == l.backup; }
    forall t | t in l.temporaries ensures t !in g { SameAt(g, f, l.Record(), t); }
  }

  lemma RecordedNow(l: Layout, es: seq<Entry>, encode: seq<Change> -> Bytes, before: Files, after: Files, cs: seq<Change>)
    requires Lists(l, es, before, cs) && l.Record() in after && after[l.Record()] == encode(cs)
    ensures Recorded(l, es, encode, before, after)
  {
  }

  /** With the record written the update is complete. */
  lemma RecordIsLast(l: Layout, es: seq<Entry>, encode: seq<Change> -> Bytes, before: Files, f: Files, after: Files, cs: seq<Change>)
    requires Ready(l, es, before) && Progress(l, es, before, f, cs) && |cs| == |es| && after == f[l.Record() := encode(cs)]
    ensures Installed(l, es, before, after) && Recorded(l, es, encode, before, after)
  {
    SameElsewhere(after, f, l.Record());
    InstalledAtEnd(l, es, before, f, after, cs);
    RecordedNow(l, es, encode, before, after, cs);
  }

  /** The record of all changes; nothing is written where there is no backup directory. */
  method WriteRecord(disk: Disk, l: Layout, encode: seq<Change> -> Bytes, es: seq<Entry>, changed: seq<Change>, ghost before: Files)
    returns (ok: bool, tried: bool)
    requires Ready(l, es, before) && Progress(l, es, before, disk.files, changed) && |changed| == |es|
    requires disk.Valid()
    modifies disk
    ensures ok ==> Installed(l, es, before, disk.files) && Recorded(l, es, encode, before, disk.files)
    ensures !ok ==> Undoable(l, before, disk.files, changed, tried)
    ensures forall t :: t in l.temporaries ==> t !in disk.files
    ensures ok ==> tried
    ensures SameBut(disk.files, old(disk.files), l.Record()) && (!tried ==> disk.files == old(disk.files))
    ensures disk.Valid() && disk.failures >= old(disk.failures)
    ensures tried <==> HasBackup(changed)
    ensures tried ==> (ok <==> disk.failures == old(disk.failures))
  {
    ghost var f := disk.files;
    ok, tried := false, HasBackup(changed);
    if !tried {
      AccountedIsUndoable(l, es, before, f, changed);
      return;
    }
    ok := disk.Write(l.Record(), encode(changed));
    RecordIsNoTemporary(l, f, disk.files);
    if ok {
      RecordIsLast(l, es, encode, before, f, disk.files, changed);
    } else {
      RecordFailureIsUndoable(l, es, before, f, disk.files, changed);
    }
  }

  lemma RecordIsNoCopy(l: Layout, es: seq<Entry>, before: Files, f: Files, g: Files, tried: bool)
    requires OnlyCopies(l, es, before, f, false) && SameBut(g, f, l.Record()) && (!tried ==> g == f)
    ensures OnlyCopies(l, es, before, g, tried)
  {
    forall p | p in g && p != l.Record() ensures p in f { SameAt(g, f, l.Record(), p); }
  }

  lemma UndoSparesCopies(l: Layout, es: seq<Entry>, before: Files, f: Files, g: Files, cs: seq<Change>, tried: bool)
    requires OnlyCopies(l, es, before, f, tried) && Apart(l, cs) && forall p :: First(cs, p).None? ==> Same(g, f, p)
    ensures OnlyCopies(l, es, before, g, tried)
  {
    forall p | p in g && Under(l.backup, p) ensures p in f { FirstIsThere(cs, p); }
  }

  lemma UndoSparesTemporaries(l: Layout, f: Files, g: Files, cs: seq<Change>)
    requires Apart(l, cs) && (forall t :: t in l.temporaries ==> t !in f) && forall p :: First(cs, p).None? ==> Same(g, f, p)
    ensures forall t :: t in l.temporaries ==> t !in g
  {
    forall t | t in l.temporaries ensures t !in g {
      FirstIsThere(cs, t);
      assert Same(g, f, t);
    }
  }

  /** What an update may not lose: each installed file is still in place or in the backup, but for one the record may lie on. */
  ghost predicate NothingLost(l: Layout, es: seq<Entry>, before: Files, after: Files, recordTried: bool) {
    forall e :: e in es && l.Target(e.name) in before && !(recordTried && l.Target(e.name) == l.RecordTwin()) ==>
      Same(after, before, l.Target(e.name)) || (l.Backup(e.name) in after && after[l.Backup(e.name)] == before[l.Target(e.name)])
  }

  /** What the walk back leaves: everything as it was if no step failed, and nothing lost in any case. */
  ghost predicate Undone(l: Layout, es: seq<Entry>, before: Files, f: Files, recordTried: bool, failed: nat, left: bool) {
    && Recoverable(l, es, before, f, recordTried)
    && (failed == 0 ==> forall p :: !l.Scratch(p) && !(recordTried && p == l.RecordTwin()) ==> Same(f, before, p))
    && (Once(l, es) ==> OnlyCopies(l, es, before, f, recordTried))
    && (!left ==> forall t :: t in l.temporaries ==> t !in f)
  }

  lemma WalkUndoes(faults: nat -> Fault, since: nat, l: Layout, es: seq<Entry>, before: Files, f: Files, g: Files,
                   cs: seq<Change>, recordTried: bool, failed: nat, left: bool)
    requires l.Sound(es) && l.Admitted(es) && Placed(l, es, cs) && Undoable(l, before, f, cs, recordTried)
    requires Once(l, es) ==> OnlyCopies(l, es, before, f, recordTried)
    requires !left ==> forall t :: t in l.temporaries ==> t !in f
    requires WalkedAll(faults, since, cs, f, g, failed)
    ensures Undone(l, es, before, g, recordTried, failed, left)
  {
    if Once(l, es) { UndoSparesCopies(l, es, before, f, g, cs, recordTried); }
    StillRecoverable(l, es, before, f, g, cs, recordTried);
    if !left { UndoSparesTemporaries(l, f, g, cs); }
  }

  /** The catch block. */
  method RollBack(disk: Disk, l: Layout, es: seq<Entry>, changed: seq<Change>, left: bool, recordTried: bool, ghost before: Files)
    returns (r: Outcome)
    requires l.Sound(es) && l.Admitted(es) && Placed(l, es, changed) && Undoable(l, before, disk.files, changed, recordTried)
    requires !left ==> forall t :: t in l.temporaries ==> t !in disk.files
    requires Once(l, es) ==> OnlyCopies(l, es, before, disk.files, recordTried)
    requires disk.Valid()
    modifies disk
    ensures r.RolledBack? && r.leftTemporary == left && r.recordTried == recordTried
    ensures disk.Valid() && disk.failures >= old(disk.failures) && r.failedUndos == disk.failures - old(disk.failures)
    ensures Undone(l, es, before, disk.files, recordTried, r.failedUndos, left)
  {
    ghost var f, since := disk.files, disk.clock;
    var failed := UndoChanges(disk, changed);
    WalkUndoes(disk.faults, since, l, es, before, f, disk.files, changed, recordTried, failed, left);
    r := RolledBack(failed, left, recordTried);
  }

  /** The failures a rollback takes: one to cause it, unless nothing is replaced, one more for a temporary left, and one for each step not undone. */
  function Blamed(r: Outcome, updating: bool): nat
    requires r.RolledBack?
  {
    r.failedUndos + if r.leftTemporary then 2 else One(updating)
  }

  method ApplyShell(disk: Disk, l: Layout, sha: Bytes -> string, encode: seq<Change> -> Bytes, es: seq<Entry>, tags: seq<string>)
    returns (r: Outcome)
    requires |es| <= |tags| && l.temporaries == l.Temporaries(es, tags)
    requires l.Sound(es) && (l.Admitted(es) ==> l.Unused(disk.files))
    requires disk.Valid()
    modifies disk
    ensures r.Rejected? <==> exists e :: e in es && !l.Checked(old(disk.files), sha, e)
    ensures r.Rejected? ==> disk.files == old(disk.files)
    ensures r.Applied? ==> Installed(l, es, old(disk.files), disk.files) && Recorded(l, es, encode, old(disk.files), disk.files)
    ensures r.RolledBack? ==> Recoverable(l, es, old(disk.files), disk.files, r.recordTried)
    // However it ends; on a disk that refuses everything from some operation on, wherever the process dies.
    ensures NothingLost(l, es, old(disk.files), disk.files, r.Applied? || (r.RolledBack? && r.recordTried))
    ensures r.RolledBack? && r.failedUndos == 0 ==>
              forall p :: !l.Scratch(p) && !(r.recordTried && p == l.RecordTwin()) ==> Same(disk.files, old(disk.files), p)
    ensures r.Applied? || (r.RolledBack? && !r.leftTemporary) ==> forall t :: t in l.temporaries ==> t !in disk.files
    ensures Once(l, es) && !r.Rejected? ==> OnlyCopies(l, es, old(disk.files), disk.files, r.Applied? || r.recordTried)
    // It is applied only if no operation failed.
    ensures r.Applied? ==> disk.failures == old(disk.failures)
    // An update that replaces nothing is rolled back: its record has no directory to go to.
    ensures Once(l, es) && (r.Applied? || (r.RolledBack? && r.recordTried)) ==> Replaces(l, es, old(disk.files))
    // Any other is rolled back for a failure of the disk, and what stays undone or behind takes further ones.
    ensures disk.Valid() && disk.failures >= old(disk.failures)
    ensures r.RolledBack? ==> Blamed(r, Once(l, es) && Replaces(l, es, old(disk.files))) <= disk.failures - old(disk.failures)
  {
    var checked := CheckSources(disk, l, sha, es);
    if !checked { return Rejected; }
    ghost var before := disk.files;
    var ok, changed, left := ReplaceAll(disk, l, es, tags);
    ghost var f := disk.files;
    var recordTried := false;
    if ok {
      ok, recordTried := WriteRecord(disk, l, encode, es, changed, before);
      if Once(l, es) {
        BackupIffReplaces(l, es, before, changed);
        RecordIsNoCopy(l, es, before, f, disk.files, recordTried);
      }
      if ok { return Applied; }
    } else {
      AccountedIsUndoable(l, es, before, disk.files, changed);
    }
    r := RollBack(disk, l, es, changed, left, recordTried, before);
  }
}
