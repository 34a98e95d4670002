/**
 Unpacking a shell archive and installing it: `ComponentUpdateWorker.ExtractShell` and the
 shell branch of `ApplyElevatedAsync`.

 The archive has to hold exactly the files its manifest lists, with their hashes; the loop
 checks coverage by counting.  What was extracted is never rejected by `ApplyShell`, so an
 applied archive leaves every listed file in place with the listed content.
 */
module ShellPackages {
  import opened Wrappers
  import opened Archives
  import opened Paths
  import opened Disks
  import opened ShellApply

  const MAX_SHELL := 512 * 1024 * 1024

  type Sha = Bytes -> string

  /** The manifest's files in order, when it is JSON of the right shape. */
  type Parse = Bytes -> Option<seq<Entry>>

  /** The layout of the update, and what the archive is read by. */
  datatype Rules = Rules(l: Layout, sha: Sha, parse: Parse, manifest: string, program: string, prefix: string)

  function ShellRules(layout: Layout, sha: Sha, parse: Parse): Rules {
    Rules(layout, sha, parse, "shell-manifest.json", "Momoi.exe", "payload/")
  }

  /** The manifest lies beside the payload directory. */
  ghost predicate Proper(r: Rules) {
    KeepsMarks(r.l.fold) && r.l.Named(r.manifest) != r.l.Named("payload")
  }

  lemma ShellRulesAreProper(layout: Layout, sha: Sha, parse: Parse)
    requires KeepsMarks(layout.fold)
    ensures Proper(ShellRules(layout, sha, parse))
  {
    var r := ShellRules(layout, sha, parse);
    assert |r.manifest| == |r.l.Named(r.manifest)| && |"payload"| == |r.l.Named("payload")|;
    assert |r.manifest| == 19 && |"payload"| == 7;
  }

  predicate IsManifestEntry(r: Rules, e: ZipEntry) {
    e.name == r.manifest
  }

  predicate IsPayload(r: Rules, e: ZipEntry) {
    r.prefix <= e.name
  }

  /** The name below the payload directory. */
  function NameOf(r: Rules, e: ZipEntry): string {
    if IsPayload(r, e) then e.name[|r.prefix|..] else ""
  }

  /** The dictionary of the manifest, which ignores case. */
  function HashOf(r: Rules, es: seq<Entry>, name: string): Option<string> {
    if es == [] then None
    else if r.l.Named(es[0].name) == r.l.Named(name) then Some(es[0].hash)
    else HashOf(r, es[1..], name)
  }

  predicate Distinct(r: Rules, es: seq<Entry>) {
    forall i, j :: 0 <= i < j < |es| ==> r.l.Named(es[i].name) != r.l.Named(es[j].name)
  }

  function ListedNames(r: Rules, es: seq<Entry>): set<string> {
    set k | k in es :: r.l.Named(k.name)
  }

  function ManifestOf(r: Rules, zip: seq<ZipEntry>): Option<seq<Entry>> {
    var e := GetEntry(zip, r.manifest);
    if e.None? || e.value.length > MAX_MANIFEST || e.value.content.None? then None else r.parse(e.value.content.value)
  }

  predicate IsManifest(r: Rules, es: seq<Entry>) {
    Distinct(r, es) && r.l.Named(r.program) in ListedNames(r, es) && |es| <= MAX_ENTRIES
  }

  /** The entries that are extracted. */
  function Members(r: Rules, zip: seq<ZipEntry>): seq<ZipEntry> {
    if zip == [] then []
    else
      var before, e := Members(r, zip[..|zip| - 1]), zip[|zip| - 1];
      if IsManifestEntry(r, e) then before else before + [e]
  }

  /** An entry that may be extracted, and whose content is the one listed. */
  predicate Acceptable(r: Rules, es: seq<Entry>, e: ZipEntry) {
    && IsPayload(r, e) && r.l.Admits(NameOf(r, e)) && !e.symlink
    && e.content.Some? && HashOf(r, es, NameOf(r, e)) == Some(r.sha(e.content.value))
  }

  predicate NoTwoAlike(r: Rules, ms: seq<ZipEntry>) {
    forall i, j :: 0 <= i < j < |ms| ==> r.l.Named(NameOf(r, ms[i])) != r.l.Named(NameOf(r, ms[j]))
  }

  function NamesOf(r: Rules, ms: seq<ZipEntry>): set<string> {
    set e | e in ms :: r.l.Named(NameOf(r, e))
  }

  function PathOf(r: Rules, e: ZipEntry): Path {
    r.l.Payload(NameOf(r, e))
  }

  predicate AllAcceptable(r: Rules, es: seq<Entry>, ms: seq<ZipEntry>) {
    forall e :: e in ms ==> Acceptable(r, es, e)
  }

  /** No file is also the directory of another. */
  predicate NoneNested(r: Rules, ms: seq<ZipEntry>) {
    forall i, j :: 0 <= i < j < |ms| ==> !Nested(PathOf(r, ms[i]), PathOf(r, ms[j]))
  }

  /** Entries that can be extracted one after the other. */
  predicate Fine(r: Rules, es: seq<Entry>, ms: seq<ZipEntry>) {
    AllAcceptable(r, es, ms) && NoTwoAlike(r, ms) && NoneNested(r, ms) && TotalLength(ms) <= MAX_SHELL
  }

  /** What `ExtractShell` demands: exactly the files the manifest lists, with their hashes. */
  predicate Extractable(r: Rules, zip: seq<ZipEntry>) {
    var es := ManifestOf(r, zip);
    && es.Some? && IsManifest(r, es.value)
    && Fine(r, es.value, Members(r, zip))
    && ListedNames(r, es.value) <= NamesOf(r, Members(r, zip))
  }

  // ---- the entries ----

  lemma {:induction false} MembersOfPrefix(r: Rules, zip: seq<ZipEntry>, i: nat)
    requires i <= |zip|
    ensures Members(r, zip[..i]) <= Members(r, zip)
    decreases |zip|
  {
    if i < |zip| {
      assert zip[..|zip| - 1][..i] == zip[..i];
      MembersOfPrefix(r, zip[..|zip| - 1], i);
    } else {
      assert zip[..i] == zip;
    }
  }

  lemma MembersUpTo(r: Rules, zip: seq<ZipEntry>, i: nat)
    requires i < |zip|
    ensures Members(r, zip[..i + 1]) == if IsManifestEntry(r, zip[i]) then Members(r, zip[..i]) else Members(r, zip[..i]) + [zip[i]]
    ensures Members(r, zip[..i + 1]) <= Members(r, zip)
  {
    assert zip[..i + 1][..i] == zip[..i];
    MembersOfPrefix(r, zip, i + 1);
  }

  lemma FinePrefix(r: Rules, es: seq<Entry>, ms: seq<ZipEntry>, all: seq<ZipEntry>)
    requires ms <= all && Fine(r, es, all)
    ensures Fine(r, es, ms)
  {
    assert ms == all[..|ms|];
    assert forall e :: e in ms ==> e in all;
    TotalOfPrefix(all, |ms|);
  }

  lemma FineOneMore(r: Rules, es: seq<Entry>, ms: seq<ZipEntry>, e: ZipEntry)
    requires Fine(r, es, ms)
    ensures Fine(r, es, ms + [e]) <==>
            && Acceptable(r, es, e) && r.l.Named(NameOf(r, e)) !in NamesOf(r, ms)
            && Beside(r, ms, e) && TotalLength(ms) + e.length <= MAX_SHELL
    ensures NamesOf(r, ms + [e]) == NamesOf(r, ms) + {r.l.Named(NameOf(r, e))}
    ensures TotalLength(ms + [e]) == TotalLength(ms) + e.length
  {
    OneMoreCounts(r, ms, e);
    OneMoreAcceptable(r, es, ms, e);
    NewName(r, ms, e);
    NewPath(r, ms, e);
  }

  lemma OneMoreCounts(r: Rules, ms: seq<ZipEntry>, e: ZipEntry)
    ensures NamesOf(r, ms + [e]) == NamesOf(r, ms) + {r.l.Named(NameOf(r, e))}
    ensures TotalLength(ms + [e]) == TotalLength(ms) + e.length
  {
    var all := ms + [e];
    assert all[..|all| - 1] == ms && e in all;
  }

  lemma OneMoreAcceptable(r: Rules, es: seq<Entry>, ms: seq<ZipEntry>, e: ZipEntry)
    ensures AllAcceptable(r, es, ms + [e]) <==> AllAcceptable(r, es, ms) && Acceptable(r, es, e)
  {
    assert e in ms + [e] && forall d :: d in ms ==> d in ms + [e];
  }

  /** The entry's file lies neither below nor above one of the others. */
  predicate Beside(r: Rules, ms: seq<ZipEntry>, e: ZipEntry) {
    forall d :: d in ms ==> !Nested(PathOf(r, d), PathOf(r, e))
  }

  lemma NewPath(r: Rules, ms: seq<ZipEntry>, e: ZipEntry)
    requires NoneNested(r, ms)
    ensures NoneNested(r, ms + [e]) <==> Beside(r, ms, e)
  {
    var all := ms + [e];
    assert all[|ms|] == e && forall i :: 0 <= i < |ms| ==> all[i] == ms[i];
    if NoneNested(r, all) {
      forall d | d in ms ensures !Nested(PathOf(r, d), PathOf(r, e)) {
        var i :| 0 <= i < |ms| && ms[i] == d;
        assert !Nested(PathOf(r, all[i]), PathOf(r, all[|ms|]));
      }
    }
  }

  lemma NewName(r: Rules, ms: seq<ZipEntry>, e: ZipEntry)
    requires NoTwoAlike(r, ms)
    ensures NoTwoAlike(r, ms + [e]) <==> r.l.Named(NameOf(r, e)) !in NamesOf(r, ms)
  {
    var all := ms + [e];
    assert all[|ms|] == e && forall i :: 0 <= i < |ms| ==> all[i] == ms[i];
    if r.l.Named(NameOf(r, e)) in NamesOf(r, ms) {
      var d :| d in ms && r.l.Named(NameOf(r, d)) == r.l.Named(NameOf(r, e));
      var i :| 0 <= i < |ms| && ms[i] == d;
      assert r.l.Named(NameOf(r, all[i])) == r.l.Named(NameOf(r, all[|ms|]));
    }
  }

  // ---- counting ----

  lemma SameSize<T>(a: set<T>, b: set<T>)
    requires a <= b && |a| == |b|
    ensures a == b
  {
    assert b == a + (b - a);
    assert |b| == |a| + |b - a|;
  }

  lemma {:induction false} DistinctSize(r: Rules, es: seq<Entry>)
    requires Distinct(r, es)
    ensures |ListedNames(r, es)| == |es|
  {
    if es != [] {
      var n := |es| - 1;
      DistinctSize(r, es[..n]);
      assert es == es[..n] + [es[n]];
      assert ListedNames(r, es) == ListedNames(r, es[..n]) + {r.l.Named(es[n].name)};
      assert r.l.Named(es[n].name) !in ListedNames(r, es[..n]);
    }
  }

  lemma {:induction false} HashIsListed(r: Rules, es: seq<Entry>, name: string)
    ensures HashOf(r, es, name).Some? ==> exists k :: k in es && r.l.Named(k.name) == r.l.Named(name) && HashOf(r, es, name) == Some(k.hash)
  {
    if es != [] && r.l.Named(es[0].name) != r.l.Named(name) {
      HashIsListed(r, es[1..], name);
      assert forall k :: k in es[1..] ==> k in es;
    } else if es != [] {
      assert es[0] in es;
    }
  }

  lemma NamesAreListed(r: Rules, es: seq<Entry>, ms: seq<ZipEntry>)
    requires forall e :: e in ms ==> Acceptable(r, es, e)
    ensures NamesOf(r, ms) <= ListedNames(r, es)
  {
    forall n | n in NamesOf(r, ms) ensures n in ListedNames(r, es) {
      var e :| e in ms && r.l.Named(NameOf(r, e)) == n;
      HashIsListed(r, es, NameOf(r, e));
    }
  }

  /** Distinct listed names, as many as there are: every file is there. */
  lemma CountingCovers(r: Rules, es: seq<Entry>, ms: seq<ZipEntry>)
    requires Distinct(r, es) && forall e :: e in ms ==> Acceptable(r, es, e)
    ensures |NamesOf(r, ms)| == |es| <==> ListedNames(r, es) <= NamesOf(r, ms)
  {
    NamesAreListed(r, es, ms);
    DistinctSize(r, es);
    if |NamesOf(r, ms)| == |es| { SameSize(NamesOf(r, ms), ListedNames(r, es)); }
    if ListedNames(r, es) <= NamesOf(r, ms) { assert NamesOf(r, ms) == ListedNames(r, es); }
  }

  // ---- the files ----

  function ManifestPath(r: Rules): Path {
    r.l.package + [r.l.Named(r.manifest)]
  }

  predicate Holds(r: Rules, f: Files, e: ZipEntry) {
    PathOf(r, e) in f && e.content == Some(f[PathOf(r, e)])
  }

  /** Each entry is in its file, and the package holds no other. */
  ghost predicate Unpacked(r: Rules, ms: seq<ZipEntry>, f: Files) {
    && (forall e :: e in ms ==> Holds(r, f, e))
    && (forall p :: p in f && Under(r.l.package, p) ==> exists e :: e in ms && p == PathOf(r, e))
  }

  lemma PathsBelow(r: Rules, name: string)
    requires r.l.Admits(name)
    ensures Under(r.l.package, r.l.Payload(name)) && r.l.Payload(name) != ManifestPath(r) && Under(r.l.package, ManifestPath(r))
    ensures r.l.Named(r.manifest) != r.l.Named("payload") ==> !Nested(r.l.Payload(name), ManifestPath(r))
  {
    var root := r.l.package + [r.l.Named("payload")];
    SafeNameStaysBelow(r.l.fold, root, name);
    assert r.l.Payload(name)[..|r.l.package|] == root[..|r.l.package|] == r.l.package;
    assert ManifestPath(r)[..|r.l.package|] == r.l.package;
    assert r.l.Payload(name)[|r.l.package|] == r.l.Named("payload");
  }

  lemma PathsApart(r: Rules, a: string, b: string)
    requires KeepsMarks(r.l.fold) && r.l.Admits(a) && r.l.Admits(b)
    ensures r.l.Payload(a) == r.l.Payload(b) <==> r.l.Named(a) == r.l.Named(b)
  {
    SafeNamesCollideOnlyByCase(r.l.fold, r.l.package + [r.l.Named("payload")], a, b);
  }

  /** A new name means a new file. */
  lemma PathIsFree(r: Rules, es: seq<Entry>, ms: seq<ZipEntry>, e: ZipEntry, f: Files)
    requires KeepsMarks(r.l.fold) && Unpacked(r, ms, f) && Fine(r, es, ms)
    requires Acceptable(r, es, e) && r.l.Named(NameOf(r, e)) !in NamesOf(r, ms)
    ensures PathOf(r, e) !in f && (Beside(r, ms, e) <==> !Occupied(f, r.l.package, PathOf(r, e)))
  {
    PathsBelow(r, NameOf(r, e));
    forall d | d in ms ensures PathOf(r, d) != PathOf(r, e) && PathOf(r, d) in f && Under(r.l.package, PathOf(r, d)) {
      PathsApart(r, NameOf(r, d), NameOf(r, e));
      PathsBelow(r, NameOf(r, d));
      assert Holds(r, f, d);
    }
    if Beside(r, ms, e) {
      forall p | p in f && Under(r.l.package, p) ensures !Nested(p, PathOf(r, e)) {
        var d :| d in ms && p == PathOf(r, d);
      }
    }
  }

  lemma UnpackedOneMore(r: Rules, ms: seq<ZipEntry>, e: ZipEntry, f: Files)
    requires Unpacked(r, ms, f) && PathOf(r, e) !in f && e.content.Some?
    ensures Unpacked(r, ms + [e], f[PathOf(r, e) := e.content.value])
  {
    var g := f[PathOf(r, e) := e.content.value];
    assert e in ms + [e] && forall d :: d in ms ==> d in ms + [e];
    forall p | p in g && Under(r.l.package, p) ensures exists d :: d in ms + [e] && p == PathOf(r, d) {
      if p in f { var d :| d in ms && p == PathOf(r, d); assert d in ms + [e]; }
    }
  }

  /** What was unpacked passes every check of `ApplyShell`. */
  lemma UnpackedIsChecked(r: Rules, es: seq<Entry>, ms: seq<ZipEntry>, f: Files, k: Entry)
    requires KeepsMarks(r.l.fold) && Distinct(r, es) && Fine(r, es, ms) && k in es
    requires ListedNames(r, es) <= NamesOf(r, ms) && forall e :: e in ms ==> Holds(r, f, e)
    ensures r.l.Checked(f, r.sha, k)
  {
    assert r.l.Named(k.name) in NamesOf(r, ms);
    var e :| e in ms && r.l.Named(NameOf(r, e)) == r.l.Named(k.name);
    HashIsListed(r, es, NameOf(r, e));
    var h :| h in es && r.l.Named(h.name) == r.l.Named(NameOf(r, e)) && HashOf(r, es, NameOf(r, e)) == Some(h.hash);
    assert h == k by {
      var i :| 0 <= i < |es| && es[i] == h;
      var j :| 0 <= j < |es| && es[j] == k;
      assert i == j;
    }
    FoldedIsSafe(r.l.fold, NameOf(r, e), k.name);
    AdmitsFolded(r, NameOf(r, e), k.name);
    PathsApart(r, NameOf(r, e), k.name);
  }

  lemma AdmitsFolded(r: Rules, a: string, b: string)
    requires KeepsMarks(r.l.fold) && r.l.Named(a) == r.l.Named(b) && r.l.Admits(a)
    ensures r.l.Admits(b)
  {
    FoldedIsSafe(r.l.fold, a, b);
    assert r.l.Named(Split(a, '/')[0]) == Parts(r.l.fold, a)[0] == Parts(r.l.fold, b)[0] == r.l.Named(Split(b, '/')[0]);
  }

  // ---- the code ----

  /** Only files of the package differ. */
  ghost predicate OnlyPackage(r: Rules, before: Files, after: Files) {
    forall p :: !Under(r.l.package, p) ==> Same(after, before, p)
  }

  /** A file stands where the path needs a directory, or the other way round. */
  predicate Occupied(f: Files, root: Path, path: Path) {
    exists p :: p in f && Under(root, p) && Nested(p, path)
  }

  /** `CreateDirectory` and `ExtractToFile`: never over a file that is there, nor through one. */
  method Store(disk: Disk, r: Rules, path: Path, content: Bytes, ghost before: Files) returns (ok: bool)
    requires Under(r.l.package, path) && OnlyPackage(r, before, disk.files)
    requires disk.Valid()
    modifies disk
    ensures ok ==> path !in old(disk.files) && !Occupied(old(disk.files), r.l.package, path) && disk.files == old(disk.files)[path := content]
    ensures OnlyPackage(r, before, disk.files)
    ensures disk.Valid() && disk.failures >= old(disk.failures)
    ensures !ok && path !in old(disk.files) && !Occupied(old(disk.files), r.l.package, path) ==> disk.failures > old(disk.failures)
  {
    ghost var f := disk.files;
    ok := disk.CreateDirectory();
    if !ok || path in disk.files || Occupied(disk.files, r.l.package, path) { return false; }
    ok := disk.Write(path, content);
    SameElsewhere(disk.files, f, path);
    forall p | !Under(r.l.package, p) ensures Same(disk.files, before, p) { assert Same(disk.files, f, p) && Same(f, before, p); }
  }

  /** Where the extraction loop stands after the members `ms`. */
  ghost predicate Reached(r: Rules, es: seq<Entry>, ms: seq<ZipEntry>, seen: set<string>, expanded: nat, before: Files, f: Files) {
    && Fine(r, es, ms) && Unpacked(r, ms, f) && OnlyPackage(r, before, f)
    && seen == NamesOf(r, ms) && expanded == TotalLength(ms)
  }

  /** The extraction loop. */
  method ExtractEntries(disk: Disk, r: Rules, es: seq<Entry>, zip: seq<ZipEntry>) returns (ok: bool, seen: set<string>)
    requires KeepsMarks(r.l.fold) && Unpacked(r, [], disk.files)
    requires disk.Valid()
    modifies disk
    ensures ok ==> exists n :: Reached(r, es, Members(r, zip), seen, n, old(disk.files), disk.files)
    ensures OnlyPackage(r, old(disk.files), disk.files)
    ensures disk.Valid() && disk.failures >= old(disk.failures)
    ensures !ok && Fine(r, es, Members(r, zip)) ==> disk.failures > old(disk.failures)
  {
    ghost var before := disk.files;
    var expanded: nat;
    ok, seen, expanded := true, {}, 0;
    NothingReached(r, es, before);
    for i := 0 to |zip|
      invariant ok && Reached(r, es, Members(r, zip[..i]), seen, expanded, before, disk.files)
      invariant disk.Valid() && disk.failures >= old(disk.failures)
    {
      MembersUpTo(r, zip, i);
      if Fine(r, es, Members(r, zip)) { FinePrefix(r, es, Members(r, zip[..i + 1]), Members(r, zip)); }
      ok, seen, expanded := Turn(disk, r, es, zip[i], seen, expanded, Members(r, zip[..i]), Members(r, zip[..i + 1]), before);
      if !ok { return; }
    }
    assert zip[..|zip|] == zip;
  }

  lemma NothingReached(r: Rules, es: seq<Entry>, f: Files)
    requires Unpacked(r, [], f)
    ensures Reached(r, es, Members(r, []), {}, 0, f, f)
  {
  }

  /** One turn: the members are `ms` before it and `next` after it. */
  method Turn(disk: Disk, r: Rules, es: seq<Entry>, e: ZipEntry, seen: set<string>, expanded: nat,
              ghost ms: seq<ZipEntry>, ghost next: seq<ZipEntry>, ghost before: Files)
    returns (ok: bool, seen': set<string>, expanded': nat)
    requires KeepsMarks(r.l.fold) && Reached(r, es, ms, seen, expanded, before, disk.files)
    requires next == if IsManifestEntry(r, e) then ms else ms + [e]
    requires disk.Valid()
    modifies disk
    ensures ok ==> Reached(r, es, next, seen', expanded', before, disk.files)
    ensures OnlyPackage(r, before, disk.files)
    ensures disk.Valid() && disk.failures >= old(disk.failures)
    ensures !ok && Fine(r, es, next) ==> disk.failures > old(disk.failures)
  {
    ok, seen', expanded' := true, seen, expanded;
    if IsManifestEntry(r, e) { return; }
    ok := ExtractEntry(disk, r, es, e, seen, expanded, ms, before);
    seen', expanded' := seen + {r.l.Named(NameOf(r, e))}, expanded + e.length;
  }

  /** The name, the size, the file, its hash. */
  method ExtractEntry(disk: Disk, r: Rules, es: seq<Entry>, e: ZipEntry, seen: set<string>, expanded: nat,
                      ghost ms: seq<ZipEntry>, ghost before: Files) returns (ok: bool)
    requires KeepsMarks(r.l.fold) && Reached(r, es, ms, seen, expanded, before, disk.files)
    requires disk.Valid()
    modifies disk
    ensures ok ==> Reached(r, es, ms + [e], seen + {r.l.Named(NameOf(r, e))}, expanded + e.length, before, disk.files)
    ensures OnlyPackage(r, before, disk.files)
    ensures disk.Valid() && disk.failures >= old(disk.failures)
    ensures !ok && Fine(r, es, ms + [e]) ==> disk.failures > old(disk.failures)
  {
    FineOneMore(r, es, ms, e);
    if !IsPayload(r, e) { return false; }
    var name := NameOf(r, e);
    var hash := HashOf(r, es, name);
    if !r.l.Admits(name) || r.l.Named(name) in seen || hash.None? || e.symlink { return false; }
    if expanded + e.length > MAX_SHELL || e.content.None? { return false; }
    PathsBelow(r, name);
    ghost var f := disk.files;
    if Acceptable(r, es, e) { PathIsFree(r, es, ms, e, f); }
    ok := Store(disk, r, PathOf(r, e), e.content.value, before);
    if !ok { return; }
    UnpackedOneMore(r, ms, e, f);
    ok := Some(r.sha(e.content.value)) == hash;
  }

  /** The package as `ExtractShell` leaves it: all that is listed, ready for `ApplyShell`, and the manifest beside it. */
  ghost predicate Extracted(r: Rules, zip: seq<ZipEntry>, f: Files) {
    && Extractable(r, zip) && r.l.Named(r.program) in ListedNames(r, ManifestOf(r, zip).value)
    && ManifestPath(r) in f && r.parse(f[ManifestPath(r)]) == ManifestOf(r, zip)
    && (forall k :: k in ManifestOf(r, zip).value ==> r.l.Checked(f, r.sha, k))
    && (forall e :: e in Members(r, zip) ==> Holds(r, f, e))
  }

  method ExtractShell(disk: Disk, r: Rules, zip: seq<ZipEntry>) returns (ok: bool)
    requires Proper(r) && forall p :: p in disk.files ==> !Under(r.l.package, p)
    requires disk.Valid()
    modifies disk
    ensures ok ==> Extracted(r, zip, disk.files)
    ensures OnlyPackage(r, old(disk.files), disk.files)
    // What is refused without a failure of the disk is no archive of its manifest.
    ensures disk.Valid() && disk.failures >= old(disk.failures)
    ensures !ok && Extractable(r, zip) ==> disk.failures > old(disk.failures)
  {
    var listed := ManifestOf(r, zip);
    if listed.None? || !IsManifest(r, listed.value) { return false; }
    var es := listed.value;
    var seen;
    ok, seen := ExtractEntries(disk, r, es, zip);
    if !ok { return; }
    ghost var ms := Members(r, zip);
    AllReached(r, es, ms, seen, old(disk.files), disk.files);
    if |seen| != |es| { return false; }
    ghost var f := disk.files;
    var manifest := GetEntry(zip, r.manifest).value.content.value;
    ok := Store(disk, r, ManifestPath(r), manifest, old(disk.files));
    if ok { PackageIsReady(r, es, ms, f, manifest); }
  }

  /** What the loop leaves, and what counting says about it. */
  lemma AllReached(r: Rules, es: seq<Entry>, ms: seq<ZipEntry>, seen: set<string>, before: Files, f: Files)
    requires Proper(r) && Distinct(r, es) && exists n :: Reached(r, es, ms, seen, n, before, f)
    ensures Fine(r, es, ms) && Unpacked(r, ms, f)
    ensures |seen| == |es| <==> ListedNames(r, es) <= NamesOf(r, ms)
    ensures Under(r.l.package, ManifestPath(r)) && ManifestPath(r) !in f && !Occupied(f, r.l.package, ManifestPath(r))
  {
    CountingCovers(r, es, ms);
    assert ManifestPath(r)[..|r.l.package|] == r.l.package;
    forall e | e in ms ensures PathOf(r, e) != ManifestPath(r) && !Nested(PathOf(r, e), ManifestPath(r)) { PathsBelow(r, NameOf(r, e)); }
  }

  lemma StillUnpacked(r: Rules, es: seq<Entry>, ms: seq<ZipEntry>, f: Files, manifest: Bytes)
    requires Fine(r, es, ms) && Unpacked(r, ms, f)
    ensures forall e :: e in ms ==> Holds(r, f[ManifestPath(r) := manifest], e)
  {
    forall e | e in ms ensures Holds(r, f[ManifestPath(r) := manifest], e) { PathsBelow(r, NameOf(r, e)); }
  }

  lemma PackageIsReady(r: Rules, es: seq<Entry>, ms: seq<ZipEntry>, f: Files, manifest: Bytes)
    requires KeepsMarks(r.l.fold) && Distinct(r, es) && Fine(r, es, ms) && ListedNames(r, es) <= NamesOf(r, ms)
    requires Unpacked(r, ms, f)
    ensures forall k :: k in es ==> r.l.Checked(f[ManifestPath(r) := manifest], r.sha, k)
    ensures forall e :: e in ms ==> Holds(r, f[ManifestPath(r) := manifest], e)
  {
    var g := f[ManifestPath(r) := manifest];
    StillUnpacked(r, es, ms, f, manifest);
    forall k | k in es ensures r.l.Checked(g, r.sha, k) { UnpackedIsChecked(r, es, ms, g, k); }
  }

  // ---- extracting and applying ----

  /** The package is new and lies apart from what the update writes beside it. */
  ghost predicate Detached(l: Layout, es: seq<Entry>, f: Files) {
    && (forall p :: p in f ==> !Under(l.package, p))
    && (forall p :: Under(l.package, p) ==> !l.Scratch(p))
    && (forall e :: e in es ==> !Under(l.package, l.Target(e.name)))
  }

  /** The layout the update of a manifest's files works in. */
  function LayoutFor(r: Rules, es: seq<Entry>, tags: seq<string>): Layout
    requires |es| <= |tags|
  {
    r.l.(temporaries := r.l.Temporaries(es, tags))
  }

  /** Backup, package and temporaries are new and apart, whatever admitted files the archive lists. */
  ghost predicate Prepared(r: Rules, zip: seq<ZipEntry>, tags: seq<string>, f: Files) {
    && |tags| >= MAX_ENTRIES
    && forall es: seq<Entry> :: ManifestOf(r, zip) == Some(es) && |es| <= MAX_ENTRIES && r.l.Admitted(es) ==>
         var l := LayoutFor(r, es, tags); l.Sound(es) && l.Unused(f) && Detached(l, es, f)
  }

  /** New tags and new directories in the directory of user data are all it takes. */
  lemma OwnLayoutIsPrepared(r: Rules, zip: seq<ZipEntry>, tags: seq<string>, f: Files)
    requires r.l.Based() && r.l.InData(r.l.package) && |tags| >= MAX_ENTRIES
    requires !Nested(r.l.backup, r.l.package) && r.l.backup != r.l.package
    requires forall tag :: tag in tags ==> IsTail(tag)
    requires forall p :: p in f ==> !Under(r.l.package, p) && !Under(r.l.backup, p)
    requires forall es: seq<Entry> :: ManifestOf(r, zip) == Some(es) && |es| <= MAX_ENTRIES ==>
               Novel(LayoutFor(r, es, tags), es, tags) && forall t :: t in r.l.Temporaries(es, tags) ==> t !in f
    ensures Prepared(r, zip, tags, f)
  {
    forall es: seq<Entry> | ManifestOf(r, zip) == Some(es) && |es| <= MAX_ENTRIES && r.l.Admitted(es)
      ensures var l := LayoutFor(r, es, tags); l.Sound(es) && l.Unused(f) && Detached(l, es, f)
    {
      OwnLayoutIsDetached(LayoutFor(r, es, tags), es, tags, f);
    }
  }

  lemma OwnLayoutIsDetached(l: Layout, es: seq<Entry>, tags: seq<string>, f: Files)
    requires l.Based() && l.InData(l.package) && |es| <= |tags| && l.temporaries == l.Temporaries(es, tags)
    requires !Nested(l.backup, l.package) && l.backup != l.package && l.Admitted(es)
    requires (forall tag :: tag in tags ==> IsTail(tag)) && Novel(l, es, tags)
    requires forall p :: p in f ==> !Under(l.package, p) && !Under(l.backup, p) && p !in l.temporaries
    ensures l.Sound(es) && l.Unused(f) && Detached(l, es, f)
  {
    OwnLayoutIsSound(l, es, tags);
    forall p | Under(l.package, p) ensures !l.Scratch(p) { CommonFileNests(l.package, l.backup, p); }
    forall e | e in es ensures !Under(l.package, l.Target(e.name)) { PayloadIsNoTarget(l, e.name, e.name); }
  }

  lemma CommonFileNests(a: Path, b: Path, p: Path)
    ensures Under(a, p) && Under(b, p) ==> Nested(a, b) || a == b
  {
    if Under(a, p) && Under(b, p) {
      if |a| <= |b| {
        assert b[..|a|] == p[..|a|];
      } else {
        assert a[..|b|] == p[..|b|];
      }
    }
  }

  /** Every listed file has the listed content, and only they, the backup and the package changed. */
  ghost predicate Updated(r: Rules, es: seq<Entry>, before: Files, after: Files) {
    && (forall k :: k in es ==> r.l.Target(k.name) in after && r.sha(after[r.l.Target(k.name)]) == k.hash)
    && (forall p :: !Under(r.l.backup, p) && !Under(r.l.package, p) && (forall k :: k in es ==> p != r.l.Target(k.name)) ==>
          Same(after, before, p))
  }

  lemma InstalledIsUpdated(r: Rules, l: Layout, es: seq<Entry>, before: Files, f: Files, after: Files)
    requires l == r.l.(temporaries := l.temporaries) && Installed(l, es, f, after) && OnlyPackage(r, before, f)
    requires forall k :: k in es ==> r.l.Checked(f, r.sha, k)
    ensures Updated(r, es, before, after)
  {
    forall p | !Under(r.l.backup, p) && !Under(r.l.package, p) && (forall k :: k in es ==> p != r.l.Target(k.name))
      ensures Same(after, before, p)
    {
      assert Same(after, f, p) && Same(f, before, p);
    }
  }

  lemma TargetsDiffer(r: Rules, es: seq<Entry>)
    requires KeepsMarks(r.l.fold) && Distinct(r, es) && forall k :: k in es ==> r.l.Admits(k.name)
    ensures forall i, j :: 0 <= i < j < |es| ==> r.l.Target(es[i].name) != r.l.Target(es[j].name)
  {
    forall i, j | 0 <= i < j < |es| ensures r.l.Target(es[i].name) != r.l.Target(es[j].name) {
      assert es[i] in es && es[j] in es;
      SafeNamesCollideOnlyByCase(r.l.fold, r.l.install, es[i].name, es[j].name);
    }
  }

  /** Without the package, what was there before the extraction is there after it. */
  lemma ExtractionIsApart(r: Rules, l: Layout, es: seq<Entry>, before: Files, f: Files)
    requires l.package == r.l.package && l.Unused(before) && Detached(l, es, before) && OnlyPackage(r, before, f)
    ensures l.Unused(f) && (Replaces(l, es, f) <==> Replaces(l, es, before))
  {
    forall p | p in f ensures !l.Scratch(p) { assert !Under(l.package, p) ==> Same(f, before, p); }
    assert forall k :: k in es ==> Same(f, before, l.Target(k.name));
  }

  lemma ExtractedIsAdmitted(r: Rules, zip: seq<ZipEntry>, f: Files)
    requires Extracted(r, zip, f)
    ensures r.l.Admitted(ManifestOf(r, zip).value) && |ManifestOf(r, zip).value| <= MAX_ENTRIES
  {
  }

  /** The shell branch of `ApplyElevatedAsync`: an archive is rejected by the extraction or not at all. */
  method InstallShell(disk: Disk, r: Rules, encode: seq<Change> -> Bytes, zip: seq<ZipEntry>, tags: seq<string>) returns (outcome: Outcome)
    requires Proper(r) && Prepared(r, zip, tags, disk.files) && forall p :: p in disk.files ==> !Under(r.l.package, p)
    requires disk.Valid()
    modifies disk
    ensures outcome.Rejected? ==> OnlyPackage(r, old(disk.files), disk.files)
    ensures !outcome.Rejected? ==> Extractable(r, zip)
    ensures outcome.Applied? ==> Updated(r, ManifestOf(r, zip).value, old(disk.files), disk.files)
    ensures outcome.RolledBack? && outcome.failedUndos == 0 ==>
              Reverted(LayoutFor(r, ManifestOf(r, zip).value, tags), outcome.recordTried, old(disk.files), disk.files)
    // Refused or rolled back for what the archive is, or for a failure of the disk; a step not undone is another one.
    ensures disk.Valid() && disk.failures >= old(disk.failures)
    ensures outcome.Rejected? && Extractable(r, zip) ==> disk.failures > old(disk.failures)
    ensures outcome.Applied? ==> Replaces(r.l, ManifestOf(r, zip).value, old(disk.files))
    ensures outcome.RolledBack? ==>
              Blamed(outcome, Replaces(r.l, ManifestOf(r, zip).value, old(disk.files))) <= disk.failures - old(disk.failures)
  {
    ghost var before := disk.files;
    var ok := ExtractShell(disk, r, zip);
    if !ok { return Rejected; }
    ExtractedIsAdmitted(r, zip, disk.files);
    var es := r.parse(disk.files[ManifestPath(r)]).value;
    outcome := ApplyExtracted(disk, r, encode, es, tags, before);
  }

  /** `ApplyShell` on a package that was extracted. */
  method ApplyExtracted(disk: Disk, r: Rules, encode: seq<Change> -> Bytes, es: seq<Entry>, tags: seq<string>, ghost before: Files)
    returns (outcome: Outcome)
    requires Proper(r) && |es| <= |tags| && Distinct(r, es) && r.l.Admitted(es) && OnlyPackage(r, before, disk.files)
    requires forall k :: k in es ==> r.l.Checked(disk.files, r.sha, k)
    requires var l := LayoutFor(r, es, tags); l.Sound(es) && l.Unused(before) && Detached(l, es, before)
    requires disk.Valid()
    modifies disk
    ensures !outcome.Rejected?
    ensures outcome.Applied? ==> Updated(r, es, before, disk.files)
    ensures outcome.RolledBack? && outcome.failedUndos == 0 ==>
              Reverted(LayoutFor(r, es, tags), outcome.recordTried, before, disk.files)
    ensures disk.Valid() && disk.failures >= old(disk.failures)
    ensures outcome.Applied? ==> Replaces(r.l, es, before)
    ensures outcome.RolledBack? ==> Blamed(outcome, Replaces(r.l, es, before)) <= disk.failures - old(disk.failures)
  {
    ghost var f := disk.files;
    var l := LayoutFor(r, es, tags);
    ExtractionIsApart(r, l, es, before, f);
    TargetsDiffer(r, es);
    outcome := ApplyShell(disk, l, r.sha, encode, es, tags);
    if outcome.Applied? { InstalledIsUpdated(r, l, es, before, f, disk.files); }
    if outcome.RolledBack? { RolledBackApart(r, l, outcome.recordTried, before, f, disk.files); }
  }

  /** Outside the package and the update's own scratch files everything is as it was, the record's twin aside if the record was tried. */
  ghost predicate Reverted(l: Layout, recordTried: bool, before: Files, after: Files) {
    forall p :: !l.Scratch(p) && !Under(l.package, p) && !(recordTried && p == l.RecordTwin()) ==> Same(after, before, p)
  }

  lemma RolledBackApart(r: Rules, l: Layout, recordTried: bool, before: Files, f: Files, after: Files)
    requires l.package == r.l.package && OnlyPackage(r, before, f)
    ensures (forall p :: !l.Scratch(p) && !(recordTried && p == l.RecordTwin()) ==> Same(after, f, p)) ==> Reverted(l, recordTried, before, after)
  {
    if forall p :: !l.Scratch(p) && !(recordTried && p == l.RecordTwin()) ==> Same(after, f, p) {
      forall p | !l.Scratch(p) && !Under(l.package, p) && !(recordTried && p == l.RecordTwin()) ensures Same(after, before, p) {
        assert Same(after, f, p) && Same(f, before, p);
      }
    }
  }
}
