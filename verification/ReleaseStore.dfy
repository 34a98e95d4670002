/**
 Immutable release directories and an atomic pointer to the active one: `ReleaseStore`.

 A release is a tree of files with a manifest.  Archives are unpacked into a staging
 directory and renamed into place only after every hash matched, so a crash can leave a
 staging directory behind but never half a release.  `Sound` says so for a whole store and
 is kept by every method, finished, failed or crashed, whatever the installed runtime.
 */
module ReleaseStores {
  import opened Wrappers
  import opened Paths
  import opened Archives

  const MAX_EXPANDED := 128 * 1024 * 1024

  type Tree = map<Path, Bytes>

  datatype Manifest = Manifest(format: int, releaseId: string, version: string, runtimeId: string, files: map<string, string>)

  /**
   The platform the store runs on: where a name leads inside a directory, which names are
   one name to the file system, which directory a release id leads to and what is left of
   it in a full path, and the checks and codecs whose details do not matter here.
   */
  datatype Rules = Rules(
    manifestName: string,
    entryPoint: string,
    key: string -> Path,
    folded: string -> string,
    relative: string -> bool,
    sha: Bytes -> string,
    parse: Bytes -> Option<Manifest>,
    isId: string -> bool,
    home: string -> Path,
    full: string -> string,
    isHash: string -> bool)
  {
    /**
     Accepted names lead to distinct files unless they are one name, and never to the manifest; what has
     the full path of an id leads where the id leads.
     */
    ghost predicate Sane() {
      && !IsFolderName(manifestName)
      && (forall a, b :: relative(a) && relative(b) ==> (key(a) == key(b) <==> folded(a) == folded(b)))
      && (forall a :: relative(a) ==> key(a) != key(manifestName) && folded(a) != folded(manifestName))
      && (forall a, id :: isId(id) && full(a) == full(id) ==> home(a) == home(id))
    }
  }

  datatype CodeRelease = CodeRelease(directory: string, manifest: Manifest)

  /** `ValidateRelativePath` accepts. */
  predicate IsRelative(name: string) {
    "app/" <= name && IsSafe(name)
  }

  predicate IsAlphanumeric(c: char) {
    'a' <= c <= 'z' || 'A' <= c <= 'Z' || '0' <= c <= '9'
  }

  /** `SafeId`: it may end in a dot. */
  predicate IsReleaseId(id: string) {
    1 <= |id| <= 101 && IsAlphanumeric(id[0]) && forall i :: 1 <= i < |id| ==> IsAlphanumeric(id[i]) || id[i] == '.' || id[i] == '-'
  }

  /** Windows, with the case mapping, hash, codec and hash check left open. */
  function Windows(fold: Casing, sha: Bytes -> string, parse: Bytes -> Option<Manifest>, isHash: string -> bool): Rules {
    Rules("release.json", "app/backend_entry.py",
          name => Resolve(fold, [], name), name => FoldName(fold, name), IsRelative, sha, parse,
          IsReleaseId, id => Resolve(fold, [], id), TrimEnd, isHash)
  }

  /** Where an id leads, and everything with its full path. */
  lemma IdLeads(fold: Casing, name: string, id: string)
    requires IsReleaseId(id) && TrimEnd(name) == TrimEnd(id)
    ensures Resolve(fold, [], name) == [FoldName(fold, TrimEnd(id))]
  {
    TrimEndTakes(id);
    TrimEndTakes(name);
    forall i | 0 <= i < |name| ensures name[i] != '/' && name[i] != '\\' && name[i] != ':' {
      if i < |TrimEnd(name)| { assert name[i] == TrimEnd(name)[i] == id[i]; }
    }
    OneComponent(fold, name);
  }

  /** Two ids share a directory exactly when they agree but for letter case and the dots they end with. */
  lemma IdsShareADirectoryIff(fold: Casing, a: string, b: string)
    requires IsReleaseId(a) && IsReleaseId(b)
    ensures Resolve(fold, [], a) == Resolve(fold, [], b) <==> FoldName(fold, TrimEnd(a)) == FoldName(fold, TrimEnd(b))
  {
    IdLeads(fold, a, a);
    IdLeads(fold, b, b);
  }

  lemma ManifestIsPlain()
    ensures var name := "release.json"; IsSafe(name) && !IsFolderName(name) && |name| > 3 && name[3] == 'e'
  {
    PlainNameIsSafe("release.json");
  }

  lemma WindowsIsSane(fold: Casing, sha: Bytes -> string, parse: Bytes -> Option<Manifest>, isHash: string -> bool)
    requires KeepsMarks(fold)
    ensures Windows(fold, sha, parse, isHash).Sane()
  {
    var w := Windows(fold, sha, parse, isHash);
    forall a, b | w.relative(a) && w.relative(b) ensures w.key(a) == w.key(b) <==> w.folded(a) == w.folded(b) {
      SafeNamesCollideOnlyByCase(fold, [], a, b);
    }
    ManifestIsPlain();
    forall a | w.relative(a)
      ensures w.key(a) != w.key(w.manifestName) && w.folded(a) != w.folded(w.manifestName)
    {
      assert a[3] == "app/"[3] == '/';
      NotOneName(fold, a, w.manifestName);
    }
    forall a, id | w.isId(id) && w.full(a) == w.full(id) ensures w.home(a) == w.home(id) {
      IdLeads(fold, a, id);
      IdLeads(fold, id, id);
    }
  }

  lemma PlainNameIsSafe(name: string)
    requires name != "" && '/' !in name && '\\' !in name && ':' !in name
    requires name[|name| - 1] != '.' && name[|name| - 1] != ' '
    ensures IsSafe(name)
  {
    OnePart(name);
  }

  lemma NotOneName(fold: Casing, a: string, b: string)
    requires KeepsMarks(fold) && IsSafe(a) && IsSafe(b) && |a| > 3 && |b| > 3 && a[3] == '/' && b[3] != '/'
    ensures FoldName(fold, a) != FoldName(fold, b) && Resolve(fold, [], a) != Resolve(fold, [], b)
  {
    assert FoldName(fold, a)[3] != FoldName(fold, b)[3];
    SafeNamesCollideOnlyByCase(fold, [], a, b);
  }

  /** `ValidateManifest`, apart from the installed runtime. */
  predicate IsManifest(p: Rules, m: Manifest) {
    && m.format == 1 && p.isId(m.releaseId)
    && 1 <= |m.files| <= MAX_ENTRIES
    && p.entryPoint in m.files
    && (forall n :: n in m.files ==> p.relative(n) && p.isHash(m.files[n]))
    && AllDistinct(p, m)
  }

  /** No two listed names are one name to the file system. */
  predicate AllDistinct(p: Rules, m: Manifest) {
    forall n, k :: n in m.files && k in m.files && p.folded(n) == p.folded(k) ==> n == k
  }

  /** Every file the manifest lists is there with its hash. */
  predicate Holds(p: Rules, tree: Tree, m: Manifest) {
    forall n :: n in m.files ==> p.key(n) in tree && p.sha(tree[p.key(n)]) == m.files[n]
  }

  function ManifestOf(p: Rules, tree: Tree): Option<Manifest> {
    if p.key(p.manifestName) in tree then p.parse(tree[p.key(p.manifestName)]) else None
  }

  /** The manifest of a complete, verified release, whatever its runtime. */
  function CheckTree(p: Rules, tree: Tree): Option<Manifest> {
    var m := ManifestOf(p, tree);
    if m.Some? && IsManifest(p, m.value) && Holds(p, tree, m.value) then m else None
  }

  /** The rules, and `Validate` apart from the runtime. */
  datatype Platform = Platform(rules: Rules, check: Tree -> Option<Manifest>) {
    ghost predicate Checks(t: Tree) {
      check(t) == CheckTree(rules, t)
    }

    ghost predicate Sane() {
      rules.Sane() && forall t :: Checks(t)
    }
  }

  predicate Complete(w: Platform, tree: Tree) {
    w.check(tree).Some?
  }

  /** `Validate` succeeds. */
  predicate Validates(w: Platform, runtime: string, tree: Tree) {
    w.check(tree).Some? && w.check(tree).value.runtimeId == runtime
  }

  // ---- archives ----

  predicate IsFolderName(name: string) {
    name == "" || name[|name| - 1] == '/' || name[|name| - 1] == '\\'
  }

  predicate IsFolder(e: ZipEntry) {
    IsFolderName(e.name)
  }

  predicate IsListed(p: Rules, m: Manifest, name: string) {
    name == p.manifestName || (name in m.files && p.relative(name))
  }

  /** A file stands where the path needs a directory, or the other way round. */
  predicate Blocked(tree: Tree, path: Path) {
    exists k :: k in tree && Nested(k, path)
  }

  /** The extraction loop on values. */
  function Unpack(p: Rules, m: Manifest, es: seq<ZipEntry>, names: set<string>, expanded: nat, tree: Tree): Option<Tree>
    decreases |es|
  {
    if es == [] then Some(tree)
    else
      var e := es[0];
      if IsFolder(e) then Unpack(p, m, es[1..], names, expanded, tree)
      else if p.folded(e.name) in names || !IsListed(p, m, e.name) || e.symlink
           || expanded + e.length > MAX_EXPANDED || e.content.None? || p.key(e.name) in tree || Blocked(tree, p.key(e.name))
      then None
      else Unpack(p, m, es[1..], names + {p.folded(e.name)}, expanded + e.length,
                  tree[p.key(e.name) := e.content.value])
  }

  /** The files of an archive. */
  function Members(es: seq<ZipEntry>): seq<ZipEntry> {
    if es == [] then [] else if IsFolder(es[0]) then Members(es[1..]) else [es[0]] + Members(es[1..])
  }

  /** The tree the members spell, later ones last. */
  function TreeOf(p: Rules, ms: seq<ZipEntry>): Tree
    requires forall e :: e in ms ==> e.content.Some?
  {
    if ms == [] then map[]
    else
      var e := ms[|ms| - 1];
      assert e in ms;
      TreeOf(p, ms[..|ms| - 1])[p.key(e.name) := e.content.value]
  }

  predicate IsPlain(p: Rules, m: Manifest, e: ZipEntry) {
    IsListed(p, m, e.name) && !e.symlink && e.content.Some?
  }

  predicate AllListed(p: Rules, m: Manifest, ms: seq<ZipEntry>) {
    forall e :: e in ms ==> IsPlain(p, m, e)
  }

  /** What an archive must be: every member listed and readable, no link, no two names alike, no file below another, within the size limit. */
  predicate Acceptable(p: Rules, m: Manifest, ms: seq<ZipEntry>) {
    && AllListed(p, m, ms)
    && NoTwoAlike(p, ms)
    && NoneNested(p, ms)
    && TotalLength(ms) <= MAX_EXPANDED
  }

  predicate NoTwoAlike(p: Rules, ms: seq<ZipEntry>) {
    forall i, j :: 0 <= i < j < |ms| ==> p.folded(ms[i].name) != p.folded(ms[j].name)
  }

  predicate NoneNested(p: Rules, ms: seq<ZipEntry>) {
    forall i, j :: 0 <= i < j < |ms| ==> !Nested(p.key(ms[i].name), p.key(ms[j].name))
  }

  /** The entry's file lies neither below nor above one of the others. */
  predicate Beside(p: Rules, ms: seq<ZipEntry>, e: ZipEntry) {
    forall d :: d in ms ==> !Nested(p.key(d.name), p.key(e.name))
  }

  function NamesOf(p: Rules, ms: seq<ZipEntry>): set<string> {
    set e | e in ms :: p.folded(e.name)
  }

  lemma ListedKeys(p: Rules, m: Manifest, a: string, b: string)
    requires p.Sane() && IsListed(p, m, a) && IsListed(p, m, b)
    ensures p.key(a) == p.key(b) <==> p.folded(a) == p.folded(b)
  {
  }

  predicate KeysDistinct(p: Rules, ms: seq<ZipEntry>) {
    forall i, j :: 0 <= i < j < |ms| ==> p.key(ms[i].name) != p.key(ms[j].name)
  }

  lemma AcceptableKeys(p: Rules, m: Manifest, ms: seq<ZipEntry>)
    requires p.Sane() && Acceptable(p, m, ms)
    ensures KeysDistinct(p, ms) && forall e :: e in ms ==> e.content.Some?
  {
    forall i, j | 0 <= i < j < |ms| ensures p.key(ms[i].name) != p.key(ms[j].name) {
      assert ms[i] in ms && ms[j] in ms;
      ListedKeys(p, m, ms[i].name, ms[j].name);
    }
  }

  /** One file per member, with the member's content. */
  ghost predicate Spells(p: Rules, ms: seq<ZipEntry>, tree: Tree) {
    && (forall e :: e in ms ==> p.key(e.name) in tree && e.content == Some(tree[p.key(e.name)]))
    && (forall k :: k in tree ==> exists e :: e in ms && p.key(e.name) == k)
  }

  lemma SpellsOneMore(p: Rules, e: ZipEntry, rest: seq<ZipEntry>, tree: Tree)
    requires Spells(p, rest, tree) && e.content.Some? && forall d :: d in rest ==> p.key(d.name) != p.key(e.name)
    ensures Spells(p, rest + [e], tree[p.key(e.name) := e.content.value])
  {
    assert e in rest + [e] && forall d :: d in rest ==> d in rest + [e];
    forall k | k in tree ensures exists d :: d in rest + [e] && p.key(d.name) == k {
      var d :| d in rest && p.key(d.name) == k;
    }
  }

  /** The tree an archive's members spell spells them. */
  lemma {:induction false} TreeOfMembers(p: Rules, ms: seq<ZipEntry>)
    requires KeysDistinct(p, ms) && forall e :: e in ms ==> e.content.Some?
    ensures Spells(p, ms, TreeOf(p, ms))
  {
    if ms != [] {
      var e, rest := ms[|ms| - 1], ms[..|ms| - 1];
      assert ms == rest + [e];
      TreeOfMembers(p, rest);
      forall d | d in rest ensures p.key(d.name) != p.key(e.name) {
        var i :| 0 <= i < |rest| && rest[i] == d;
        assert p.key(ms[i].name) != p.key(ms[|rest|].name);
      }
      SpellsOneMore(p, e, rest, TreeOf(p, rest));
    }
  }

  lemma MembersStep(es: seq<ZipEntry>, before: seq<ZipEntry>)
    requires es != []
    ensures before + Members(es) ==
            (if IsFolder(es[0]) then before else before + [es[0]]) + Members(es[1..])
  {
  }

  lemma AcceptablePrefix(p: Rules, m: Manifest, before: seq<ZipEntry>, rest: seq<ZipEntry>)
    requires Acceptable(p, m, before + rest)
    ensures Acceptable(p, m, before)
  {
    var all := before + rest;
    assert all[..|before|] == before;
    assert forall e :: e in before ==> e in all;
    assert forall i :: 0 <= i < |before| ==> all[i] == before[i];
    TotalOfPrefix(all, |before|);
  }

  /** Keys are taken exactly when names are. */
  lemma KeyTaken(p: Rules, m: Manifest, e: ZipEntry, before: seq<ZipEntry>)
    requires p.Sane() && Acceptable(p, m, before) && IsListed(p, m, e.name)
    ensures p.key(e.name) in TreeOf(p, before) <==> p.folded(e.name) in NamesOf(p, before)
  {
    AcceptableKeys(p, m, before);
    TreeOfMembers(p, before);
    if p.key(e.name) in TreeOf(p, before) {
      var d :| d in before && p.key(d.name) == p.key(e.name);
      ListedKeys(p, m, d.name, e.name);
    }
    if p.folded(e.name) in NamesOf(p, before) {
      var d :| d in before && p.folded(d.name) == p.folded(e.name);
      ListedKeys(p, m, d.name, e.name);
    }
  }

  lemma OneMoreName(p: Rules, e: ZipEntry, before: seq<ZipEntry>)
    requires NoTwoAlike(p, before)
    ensures NoTwoAlike(p, before + [e]) <==> p.folded(e.name) !in NamesOf(p, before)
  {
    var all := before + [e];
    assert all[|before|] == e && forall i :: 0 <= i < |before| ==> all[i] == before[i];
    if p.folded(e.name) in NamesOf(p, before) {
      var d :| d in before && p.folded(d.name) == p.folded(e.name);
      var i :| 0 <= i < |before| && before[i] == d;
      assert p.folded(all[i].name) == p.folded(all[|before|].name);
    }
  }

  lemma OneMorePath(p: Rules, e: ZipEntry, before: seq<ZipEntry>)
    requires NoneNested(p, before)
    ensures NoneNested(p, before + [e]) <==> Beside(p, before, e)
  {
    var all := before + [e];
    assert all[|before|] == e && forall i :: 0 <= i < |before| ==> all[i] == before[i];
    if NoneNested(p, all) {
      forall d | d in before ensures !Nested(p.key(d.name), p.key(e.name)) {
        var i :| 0 <= i < |before| && before[i] == d;
        assert !Nested(p.key(all[i].name), p.key(all[|before|].name));
      }
    }
  }

  /** The way is free exactly when the entry lies beside the members so far. */
  lemma PathBlocked(p: Rules, m: Manifest, e: ZipEntry, before: seq<ZipEntry>)
    requires p.Sane() && Acceptable(p, m, before)
    ensures Blocked(TreeOf(p, before), p.key(e.name)) <==> !Beside(p, before, e)
  {
    AcceptableKeys(p, m, before);
    TreeOfMembers(p, before);
    if Blocked(TreeOf(p, before), p.key(e.name)) {
      var k :| k in TreeOf(p, before) && Nested(k, p.key(e.name));
      var d :| d in before && p.key(d.name) == k;
    }
    if !Beside(p, before, e) {
      var d :| d in before && Nested(p.key(d.name), p.key(e.name));
      assert p.key(d.name) in TreeOf(p, before);
    }
  }

  lemma OneMoreListed(p: Rules, m: Manifest, e: ZipEntry, before: seq<ZipEntry>)
    ensures AllListed(p, m, before + [e]) <==> AllListed(p, m, before) && IsPlain(p, m, e)
    ensures TotalLength(before + [e]) == TotalLength(before) + e.length
  {
    assert e in before + [e] && forall d :: d in before ==> d in before + [e];
    assert (before + [e])[..|before|] == before;
  }

  lemma UnpackMember(p: Rules, m: Manifest, e: ZipEntry, before: seq<ZipEntry>)
    requires Acceptable(p, m, before)
    ensures Acceptable(p, m, before + [e]) <==>
            && p.folded(e.name) !in NamesOf(p, before) && IsPlain(p, m, e)
            && Beside(p, before, e) && TotalLength(before) + e.length <= MAX_EXPANDED
  {
    OneMoreListed(p, m, e, before);
    OneMoreName(p, e, before);
    OneMorePath(p, e, before);
  }

  lemma OneMore(p: Rules, m: Manifest, e: ZipEntry, before: seq<ZipEntry>)
    requires Acceptable(p, m, before + [e])
    ensures NamesOf(p, before + [e]) == NamesOf(p, before) + {p.folded(e.name)}
    ensures TotalLength(before + [e]) == TotalLength(before) + e.length
    ensures (forall d :: d in before ==> d.content.Some?) && e.content.Some?
    ensures TreeOf(p, before + [e]) == TreeOf(p, before)[p.key(e.name) := e.content.value]
  {
    var all := before + [e];
    assert all[..|all| - 1] == before && e in all && forall d :: d in before ==> d in all;
  }

  lemma UnpackNext(p: Rules, m: Manifest, es: seq<ZipEntry>, before: seq<ZipEntry>)
    requires p.Sane() && Acceptable(p, m, before) && es != [] && !IsFolder(es[0])
    ensures Unpack(p, m, es, NamesOf(p, before), TotalLength(before), TreeOf(p, before)) ==
            if Acceptable(p, m, before + [es[0]])
            then Unpack(p, m, es[1..], NamesOf(p, before + [es[0]]), TotalLength(before + [es[0]]), TreeOf(p, before + [es[0]]))
            else None
  {
    UnpackMember(p, m, es[0], before);
    PathBlocked(p, m, es[0], before);
    if IsListed(p, m, es[0].name) { KeyTaken(p, m, es[0], before); }
    if Acceptable(p, m, before + [es[0]]) { OneMore(p, m, es[0], before); }
  }

  /** The loop succeeds exactly on acceptable archives, and then with the tree they spell. */
  lemma {:induction false} UnpackAccepts(p: Rules, m: Manifest, es: seq<ZipEntry>, before: seq<ZipEntry>)
    requires p.Sane() && Acceptable(p, m, before)
    ensures var r := Unpack(p, m, es, NamesOf(p, before), TotalLength(before), TreeOf(p, before));
      && (r.Some? <==> Acceptable(p, m, before + Members(es)))
      && (r.Some? ==> r.value == TreeOf(p, before + Members(es)))
    decreases |es|
  {
    if es == [] {
      assert before + Members(es) == before;
    } else {
      MembersStep(es, before);
      if IsFolder(es[0]) {
        UnpackAccepts(p, m, es[1..], before);
      } else {
        UnpackNext(p, m, es, before);
        if Acceptable(p, m, before + [es[0]]) {
          UnpackAccepts(p, m, es[1..], before + [es[0]]);
        } else if Acceptable(p, m, before + Members(es)) {
          AcceptablePrefix(p, m, before + [es[0]], Members(es[1..]));
        }
      }
    }
  }

  /** A listed file that is there is the member of that very name. */
  lemma ListedIsMember(p: Rules, m: Manifest, ms: seq<ZipEntry>, tree: Tree, n: string)
    requires p.Sane() && AllListed(p, m, ms) && Spells(p, ms, tree) && n in m.files && p.relative(n) && p.key(n) in tree
    requires AllDistinct(p, m)
    ensures exists e :: e in ms && e.name == n && e.content == Some(tree[p.key(n)])
    ensures p.key(n) != p.key(p.manifestName)
  {
    var e :| e in ms && p.key(e.name) == p.key(n);
    assert IsPlain(p, m, e);
    ListedKeys(p, m, e.name, n);
    assert e.name == n;
  }

  /** A staged tree that validates has exactly the manifest's files, with exactly its hashes. */
  lemma UnpackedIsExact(p: Rules, m: Manifest, ms: seq<ZipEntry>)
    requires p.Sane() && Acceptable(p, m, ms) && IsManifest(p, m) && Holds(p, TreeOf(p, ms), m)
    ensures forall n :: n in m.files ==> exists e :: e in ms && e.name == n && p.sha(e.content.value) == m.files[n]
    ensures forall e :: e in ms ==> e.name == p.manifestName || e.name in m.files
    ensures forall k :: k in TreeOf(p, ms) && k != p.key(p.manifestName) ==> exists n :: n in m.files && k == p.key(n)
    ensures forall n, k :: n in m.files && k in m.files && p.key(n) == p.key(k) ==> n == k
    ensures forall n :: n in m.files ==> p.key(n) != p.key(p.manifestName)
  {
    AcceptableKeys(p, m, ms);
    TreeOfMembers(p, ms);
    FilesAreMembers(p, m, ms, TreeOf(p, ms));
    MembersAreFiles(p, m, ms, TreeOf(p, ms));
    forall n, k | n in m.files && k in m.files && p.key(n) == p.key(k) ensures n == k { ListedKeys(p, m, n, k); }
  }

  lemma FilesAreMembers(p: Rules, m: Manifest, ms: seq<ZipEntry>, tree: Tree)
    requires p.Sane() && AllListed(p, m, ms) && Spells(p, ms, tree) && IsManifest(p, m) && Holds(p, tree, m)
    ensures forall n :: n in m.files ==> exists e :: e in ms && e.name == n && p.sha(e.content.value) == m.files[n]
    ensures forall n :: n in m.files ==> p.key(n) != p.key(p.manifestName)
  {
    forall n | n in m.files
      ensures exists e :: e in ms && e.name == n && p.sha(e.content.value) == m.files[n]
      ensures p.key(n) != p.key(p.manifestName)
    {
      ListedIsMember(p, m, ms, tree, n);
      var e :| e in ms && e.name == n && e.content == Some(tree[p.key(n)]);
    }
  }

  lemma MembersAreFiles(p: Rules, m: Manifest, ms: seq<ZipEntry>, tree: Tree)
    requires AllListed(p, m, ms) && Spells(p, ms, tree)
    ensures forall e :: e in ms ==> e.name == p.manifestName || e.name in m.files
    ensures forall k :: k in tree && k != p.key(p.manifestName) ==> exists n :: n in m.files && k == p.key(n)
  {
    forall e | e in ms ensures e.name == p.manifestName || e.name in m.files { assert IsPlain(p, m, e); }
    forall k | k in tree && k != p.key(p.manifestName) ensures exists n :: n in m.files && k == p.key(n) {
      var e :| e in ms && p.key(e.name) == k;
      assert IsPlain(p, m, e);
    }
  }

  /** The manifest an archive is unpacked by. */
  function ArchiveManifest(p: Rules, es: seq<ZipEntry>): Option<Manifest> {
    var e := GetEntry(es, p.manifestName);
    if |es| > MAX_ENTRIES || e.None? || e.value.length > MAX_MANIFEST || e.value.content.None? then None
    else p.parse(e.value.content.value)
  }

  /** What `StageArchive` demands of an archive. */
  predicate Stageable(w: Platform, runtime: string, archive: Option<seq<ZipEntry>>) {
    archive.Some? &&
    var m := ArchiveManifest(w.rules, archive.value);
    && m.Some? && IsManifest(w.rules, m.value) && m.value.runtimeId == runtime
    && Acceptable(w.rules, m.value, Members(archive.value))
    && Complete(w, TreeOf(w.rules, Members(archive.value)))
  }

  lemma {:induction false} EntryIsMember(es: seq<ZipEntry>, name: string)
    requires !IsFolderName(name)
    ensures GetEntry(es, name).Some? ==> GetEntry(es, name).value in Members(es) && GetEntry(es, name).value.name == name
  {
    if es != [] { EntryIsMember(es[1..], name); }
  }

  /** The staged tree carries the manifest it was unpacked by. */
  lemma StagedManifest(w: Platform, es: seq<ZipEntry>)
    requires w.Sane() && ArchiveManifest(w.rules, es).Some?
    requires Acceptable(w.rules, ArchiveManifest(w.rules, es).value, Members(es))
    ensures var tree := TreeOf(w.rules, Members(es)); w.check(tree).Some? ==> w.check(tree) == ArchiveManifest(w.rules, es)
  {
    EntryIsMember(es, w.rules.manifestName);
    AcceptableKeys(w.rules, ArchiveManifest(w.rules, es).value, Members(es));
    TreeOfMembers(w.rules, Members(es));
    assert w.Checks(TreeOf(w.rules, Members(es)));
  }

  /** A staged release holds the manifest's files with the manifest's hashes, the manifest itself, and nothing else. */
  lemma StagedIsExact(w: Platform, runtime: string, archive: Option<seq<ZipEntry>>)
    requires w.Sane() && Stageable(w, runtime, archive)
    ensures var p, m := w.rules, ArchiveManifest(w.rules, archive.value).value;
      var tree := TreeOf(p, Members(archive.value));
      && (forall k :: k in tree <==> k == p.key(p.manifestName) || exists n :: n in m.files && k == p.key(n))
      && (forall n :: n in m.files ==> p.key(n) in tree && p.sha(tree[p.key(n)]) == m.files[n])
      && (forall n, k :: n in m.files && k in m.files && p.key(n) == p.key(k) ==> n == k)
      && p.key(p.manifestName) in tree && p.parse(tree[p.key(p.manifestName)]) == Some(m)
      // It is of the format understood here, and has the program to start.
      && m.format == 1 && |m.files| <= MAX_ENTRIES && p.key(p.entryPoint) in tree && m.runtimeId == runtime
  {
    var p, m := w.rules, ArchiveManifest(w.rules, archive.value).value;
    assert w.Checks(TreeOf(p, Members(archive.value)));
    StagedManifest(w, archive.value);
    UnpackedIsExact(p, m, Members(archive.value));
  }

  // ---- the store ----

  /** What parsing the pointer file yields; `Misshapen` is JSON of another shape, which the handler does not expect. */
  datatype Pointer = Names(id: string) | Unreadable | Misshapen

  datatype Step = Works | Fails | Crashes

  datatype Outcome = Done(release: CodeRelease) | Threw | Crashed

  /** Every release is complete and in the directory its id leads to. */
  ghost predicate AllComplete(w: Platform, releases: map<Path, Tree>) {
    forall d :: d in releases ==>
      Complete(w, releases[d]) && w.rules.home(w.check(releases[d]).value.releaseId) == d
  }

  /** The active-release file, if any, leads to a release that is there. */
  ghost predicate Sound(w: Platform, releases: map<Path, Tree>, pointer: Option<Pointer>) {
    && AllComplete(w, releases)
    && (pointer.Some? ==> pointer.value.Names? && w.rules.isId(pointer.value.id) && w.rules.home(pointer.value.id) in releases)
  }

  /** The pointer leads to a release the installed runtime accepts. */
  predicate PointerValidates(w: Platform, runtime: string, releases: map<Path, Tree>, pointer: Option<Pointer>) {
    && pointer.Some? && pointer.value.Names? && w.rules.isId(pointer.value.id)
    && w.rules.home(pointer.value.id) in releases
    && Validates(w, runtime, releases[w.rules.home(pointer.value.id)])
  }

  /** What is found under an id carries an id that leads to the same place. */
  lemma FoundIsNamed(w: Platform, runtime: string, releases: map<Path, Tree>, id: string)
    requires w.Sane() && AllComplete(w, releases) && PointerValidates(w, runtime, releases, Some(Names(id)))
    ensures var found := w.check(releases[w.rules.home(id)]).value;
      w.rules.home(found.releaseId) == w.rules.home(id) && PointerValidates(w, runtime, releases, Some(Names(found.releaseId)))
  {
    assert w.Checks(releases[w.rules.home(id)]);
  }

  class ReleaseStore {
    const w: Platform
    const p: Rules := w.rules
    const runtime: string
    const bundled: Tree
    const steps: nat -> Step
    var clock: nat
    // How many steps did not work so far, and how the last one ended.
    ghost var failures: nat
    ghost var last: Step
    var releases: map<Path, Tree>
    var staging: map<string, Tree>
    var pointer: Option<Pointer>
    var previous: Option<Pointer>

    constructor (w: Platform, runtime: string, bundled: Tree, steps: nat -> Step,
                 releases: map<Path, Tree>, staging: map<string, Tree>, pointer: Option<Pointer>)
      ensures this.w == w && this.runtime == runtime && this.bundled == bundled && this.steps == steps
      ensures this.releases == releases && this.staging == staging && this.pointer == pointer
    {
      this.w, this.runtime, this.bundled, this.steps, this.clock := w, runtime, bundled, steps, 0;
      this.failures, this.last := 0, Works;
      this.releases, this.staging, this.pointer, this.previous := releases, staging, pointer, None;
    }

    method Tick() returns (s: Step)
      modifies this`clock, this`failures, this`last
      ensures NothingFails() ==> AllWork(old(failures))
      ensures s == last == steps(old(clock)) && clock == old(clock) + 1
      ensures failures == old(failures) + if s.Works? then 0 else 1
    {
      s := steps(clock);
      clock := clock + 1;
      last, failures := s, failures + if s.Works? then 0 else 1;
    }

    ghost predicate NothingFails() {
      forall n :: steps(n).Works?
    }

    /** The last step ended like this, and it is the first that did not work. */
    ghost predicate StoppedAt(before: nat, s: Step)
      reads this`failures, this`last
    {
      failures == before + 1 && s == last && !s.Works?
    }

    /** The last step failed or crashed, and so does what was to be done. */
    ghost predicate Halted(before: nat, r: Outcome)
      reads this`failures, this`last
    {
      StoppedAt(before, last) && r == Ended(last)
    }

    ghost predicate AllWork(before: nat)
      reads this`failures
    {
      failures == before
    }

    /** The extraction loop. */
    method Extract(m: Manifest, es: seq<ZipEntry>, name: string) returns (s: Step)
      requires name in staging && staging[name] == map[]
      modifies this`staging, this`clock, this`failures, this`last
      ensures NothingFails() ==> AllWork(old(failures))
      ensures name in staging && staging - {name} == old(staging) - {name}
      ensures s.Works? ==> Unpack(p, m, es, {}, 0, map[]) == Some(staging[name])
      // It goes on until a step fails, or an entry is refused.
      ensures s.Works? ==> AllWork(old(failures))
      ensures !s.Works? ==> StoppedAt(old(failures), s) || (s.Fails? && AllWork(old(failures)) && Unpack(p, m, es, {}, 0, map[]).None?)
    {
      var names: set<string>, expanded: nat, i := {}, 0, 0;
      ghost var since := failures;
      while i < |es|
        invariant AllWork(since)
        invariant 0 <= i <= |es|
        invariant name in staging && staging - {name} == old(staging) - {name}
        invariant Unpack(p, m, es[i..], names, expanded, staging[name]) == Unpack(p, m, es, {}, 0, map[])
      {
        var e := es[i];
        assert es[i..][1..] == es[i + 1..];
        i := i + 1;
        if IsFolder(e) { continue; }
        if p.folded(e.name) in names { return Fails; }
        names := names + {p.folded(e.name)};
        if !IsListed(p, m, e.name) || e.symlink { return Fails; }
        expanded := expanded + e.length;
        if expanded > MAX_EXPANDED { return Fails; }
        s := Tick();
        if !s.Works? { return; }
        if e.content.None? || p.key(e.name) in staging[name] || Blocked(staging[name], p.key(e.name)) { return Fails; }
        staging := staging[name := staging[name][p.key(e.name) := e.content.value]];
      }
      s := Works;
    }

    /** The finally block: a staging directory left behind is deleted unless the process is gone. */
    method CleanUp(name: string, r: Outcome) returns (r': Outcome)
      modifies this`staging, this`clock, this`failures, this`last
      ensures NothingFails() ==> AllWork(old(failures))
      ensures r.Crashed? || name !in old(staging) ==> r' == r && staging == old(staging) && AllWork(old(failures)) && last == old(last)
      ensures !r.Crashed? && name in old(staging) ==>
                && r' == (if last.Works? then r else Ended(last)) && (name !in staging <==> last.Works?)
                && failures == old(failures) + if last.Works? then 0 else 1
      ensures staging - {name} == old(staging) - {name}
    {
      r' := r;
      if r.Crashed? || name !in staging { return; }
      var s := Tick();
      match s {
        case Works => staging := staging - {name};
        case Fails => r' := Threw;
        case Crashes => r' := Crashed;
      }
    }

    /** Unpack beside the releases, verify, rename into place. */
    method StageArchive(archive: Option<seq<ZipEntry>>, name: string) returns (r: Outcome)
      requires w.Sane() && Sound(w, releases, pointer) && name !in staging
      modifies this
      ensures NothingFails() ==> AllWork(old(failures))
      ensures Sound(w, releases, pointer) && pointer == old(pointer) && previous == old(previous)
      ensures Keeps(old(releases), releases)
      ensures !r.Done? ==> releases == old(releases)
      ensures r.Done? ==> Staged(w, runtime, archive, old(releases), releases, r.release) && r.release.manifest.runtimeId == runtime
      // Done only if every step worked; refused for a step that failed, or for what the archive or the store is.
      ensures r.Done? ==> AllWork(old(failures)) && CanStage(w, runtime, archive, old(releases))
      ensures r.Threw? && CanStage(w, runtime, archive, old(releases)) ==> !AllWork(old(failures))
      ensures r.Crashed? ==> failures > old(failures) && last.Crashes?
      // The staging directory stays behind only if the last step failed.
      ensures staging - {name} == old(staging)
      ensures failures >= old(failures) && (name in staging ==> failures > old(failures) && !last.Works?)
    {
      r := Stage(archive, name);
      r := CleanUp(name, r);
    }

    method Stage(archive: Option<seq<ZipEntry>>, name: string) returns (r: Outcome)
      requires w.Sane() && Sound(w, releases, pointer) && name !in staging
      modifies this`releases, this`staging, this`clock, this`failures, this`last
      ensures NothingFails() ==> AllWork(old(failures))
      ensures Sound(w, releases, pointer)
      ensures Keeps(old(releases), releases)
      ensures !r.Done? ==> releases == old(releases)
      ensures r.Done? ==> Staged(w, runtime, archive, old(releases), releases, r.release)
      ensures r.Done? && name in staging ==> releases == old(releases)
      ensures failures >= old(failures) && (r.Done? ==> AllWork(old(failures)) && CanStage(w, runtime, archive, old(releases)))
      ensures !r.Done? ==> Halted(old(failures), r) || (r.Threw? && AllWork(old(failures)) && !CanStage(w, runtime, archive, old(releases)))
      ensures staging - {name} == old(staging)
    {
      var s, m := Unzip(archive, name);
      if !s.Works? { return Ended(s); }
      r := Place(name, m);
    }

    /** Everything up to the verified staging directory. */
    method Unzip(archive: Option<seq<ZipEntry>>, name: string) returns (s: Step, m: Manifest)
      requires w.Sane() && name !in staging
      modifies this`staging, this`clock, this`failures, this`last
      ensures NothingFails() ==> AllWork(old(failures))
      ensures s.Works? ==>
        && Stageable(w, runtime, archive) && name in staging
        && staging[name] == TreeOf(p, Members(archive.value))
        && m == ArchiveManifest(p, archive.value).value && w.check(staging[name]) == Some(m)
      ensures s.Works? ==> AllWork(old(failures))
      ensures !s.Works? ==> StoppedAt(old(failures), s) || (s.Fails? && AllWork(old(failures)) && !Stageable(w, runtime, archive))
      ensures staging - {name} == old(staging)
    {
      m := *;
      s := Fails;
      if archive.None? { return; }
      var es := archive.value;
      var manifest := ArchiveManifest(p, es);
      if manifest.None? { return; }
      m := manifest.value;
      if !IsManifest(p, m) || m.runtimeId != runtime { return; }
      s := UnzipInto(m, es, name);
    }

    /** With the manifest accepted: the new directory, the files, the check. */
    method UnzipInto(m: Manifest, es: seq<ZipEntry>, name: string) returns (s: Step)
      requires w.Sane() && name !in staging && ArchiveManifest(p, es) == Some(m) && IsManifest(p, m) && m.runtimeId == runtime
      modifies this`staging, this`clock, this`failures, this`last
      ensures NothingFails() ==> AllWork(old(failures))
      ensures s.Works? ==>
        && Stageable(w, runtime, Some(es)) && name in staging
        && staging[name] == TreeOf(p, Members(es)) && w.check(staging[name]) == Some(m)
      ensures s.Works? ==> AllWork(old(failures))
      ensures !s.Works? ==> StoppedAt(old(failures), s) || (s.Fails? && AllWork(old(failures)) && !Stageable(w, runtime, Some(es)))
      ensures staging - {name} == old(staging)
    {
      s := Tick();
      if !s.Works? { return; }
      staging := staging[name := map[]];
      s := Extract(m, es, name);
      StageableIff(w, runtime, es, m);
      if !s.Works? { return; }
      if !Validates(w, runtime, staging[name]) { s := Fails; }
    }

    /** A release already in place wins, if it is valid; otherwise the staged one is renamed into place. */
    method Place(name: string, m: Manifest) returns (r: Outcome)
      requires name in staging && Validates(w, runtime, staging[name]) && w.check(staging[name]) == Some(m)
      requires Sound(w, releases, pointer)
      modifies this`releases, this`staging, this`clock, this`failures, this`last
      ensures NothingFails() ==> AllWork(old(failures))
      ensures Sound(w, releases, pointer)
      ensures !r.Done? ==> releases == old(releases)
      ensures r.Done? && name in staging ==> releases == old(releases)
      ensures r.Done? ==> releases == Placed(old(releases), p.home(m.releaseId), old(staging)[name])
      ensures r.Done? ==> Validates(w, runtime, releases[p.home(m.releaseId)])
      ensures r.Done? ==> r.release == CodeRelease(m.releaseId, w.check(releases[p.home(m.releaseId)]).value)
      ensures failures >= old(failures) && (r.Done? ==> AllWork(old(failures)))
      ensures r.Done? || Halted(old(failures), r) ||
              (r.Threw? && AllWork(old(failures)) && p.home(m.releaseId) in releases && !Validates(w, runtime, releases[p.home(m.releaseId)]))
      ensures staging - {name} == old(staging) - {name}
    {
      var directory := p.home(m.releaseId);
      if directory in releases {
        if !Validates(w, runtime, releases[directory]) { return Threw; }
        return Done(CodeRelease(m.releaseId, w.check(releases[directory]).value));
      }
      var s := Tick();
      if !s.Works? { return Ended(s); }
      releases, staging := releases[directory := staging[name]], staging - {name};
      r := Done(CodeRelease(m.releaseId, m));
    }

    /** `CopyDirectory`, file by file. */
    method CopyTree(source: Tree, name: string) returns (s: Step)
      requires name !in staging
      modifies this`staging, this`clock, this`failures, this`last
      ensures NothingFails() ==> AllWork(old(failures))
      ensures s.Works? ==> name in staging && staging[name] == source
      ensures if s.Works? then AllWork(old(failures)) else StoppedAt(old(failures), s)
      ensures staging - {name} == old(staging)
    {
      ghost var since := failures;
      s := Tick();
      if !s.Works? { return; }
      var copy: Tree, rest := map[], source.Keys;
      staging := staging[name := copy];
      while rest != {}
        invariant name in staging && staging[name] == copy && staging - {name} == old(staging)
        invariant rest <= source.Keys && copy.Keys == source.Keys - rest
        invariant forall k :: k in copy ==> copy[k] == source[k]
        invariant AllWork(since)
        decreases rest
      {
        var k :| k in rest;
        s := Tick();
        if !s.Works? { return; }
        copy, rest := copy[k := source[k]], rest - {k};
        staging := staging[name := copy];
      }
      assert copy == source;
      s := Works;
    }

    /** Copy beside the releases, then rename into place. */
    method SeedInto(directory: Path, name: string) returns (s: Step)
      requires directory !in releases && name !in staging
      modifies this`releases, this`staging, this`clock, this`failures, this`last
      ensures NothingFails() ==> AllWork(old(failures))
      ensures releases == if s.Works? then old(releases)[directory := bundled] else old(releases)
      ensures if s.Works? then AllWork(old(failures)) && name !in staging else StoppedAt(old(failures), s)
      ensures staging - {name} == old(staging)
    {
      s := CopyTree(bundled, name);
      if s.Works? { s := Tick(); }
      if s.Works? {
        releases, staging := releases[directory := staging[name]], staging - {name};
      }
    }

    /** The try and finally blocks; `r` is what is to be returned. */
    method SeedAnew(directory: Path, name: string, r: Outcome) returns (r': Outcome)
      requires directory !in releases && name !in staging && r.Done?
      modifies this`releases, this`staging, this`clock, this`failures, this`last
      ensures NothingFails() ==> AllWork(old(failures))
      ensures releases == if r'.Done? then old(releases)[directory := bundled] else old(releases)
      ensures failures >= old(failures) && if r'.Done? then r' == r && AllWork(old(failures)) else failures > old(failures)
      ensures r'.Crashed? ==> last.Crashes?
      ensures staging - {name} == old(staging)
      ensures name in staging ==> !r'.Done? && (last.Crashes? || (failures == old(failures) + 2 && !last.Works?))
    {
      var s := SeedInto(directory, name);
      r' := CleanUp(name, if s.Works? then r else Ended(s));
    }

    /** The first part of `Initialize`: the bundled release becomes a release directory, unless there is one. */
    method Seed(name: string) returns (r: Outcome)
      requires w.Sane() && AllComplete(w, releases) && name !in staging
      modifies this`releases, this`staging, this`clock, this`failures, this`last
      ensures NothingFails() ==> AllWork(old(failures))
      ensures AllComplete(w, releases) && Keeps(old(releases), releases)
      ensures r.Done? ==>
        && Validates(w, runtime, bundled)
        && r.release == CodeRelease(w.check(bundled).value.releaseId, w.check(bundled).value)
        && releases == Placed(old(releases), p.home(r.release.directory), bundled)
      ensures !r.Done? ==> releases == old(releases)
      ensures failures >= old(failures) && (r.Done? ==> AllWork(old(failures)))
      ensures r.Threw? && Validates(w, runtime, bundled) ==> !AllWork(old(failures))
      ensures r.Crashed? ==> failures > old(failures) && last.Crashes?
      ensures staging - {name} == old(staging)
      // The staging directory stays behind only if the process is gone, or the deletion failed too.
      ensures name in staging ==> !r.Done? && (last.Crashes? || (failures == old(failures) + 2 && !last.Works?))
    {
      if !Validates(w, runtime, bundled) { return Threw; }
      var m := w.check(bundled).value;
      var directory := p.home(m.releaseId);
      r := Done(CodeRelease(m.releaseId, m));
      if directory in releases { return; }
      r := SeedAnew(directory, name, r);
    }

    predicate Activatable(release: CodeRelease)
      reads this`releases
    {
      && p.full(release.directory) == p.full(release.manifest.releaseId)
      && PointerValidates(w, runtime, releases, Some(Names(release.manifest.releaseId)))
    }

    method Activate(release: CodeRelease) returns (r: Outcome)
      requires w.Sane() && AllComplete(w, releases)
      modifies this`pointer, this`clock, this`failures, this`last
      ensures NothingFails() ==> AllWork(old(failures))
      ensures r.Done? ==> r.release == release && pointer == Some(Names(release.manifest.releaseId))
      ensures r.Done? ==> p.full(release.directory) == p.full(release.manifest.releaseId)
      ensures r.Done? ==> PointerValidates(w, runtime, releases, pointer) && p.home(release.directory) == p.home(pointer.value.id)
      ensures !r.Done? ==> pointer == old(pointer)
      ensures Sound(w, releases, old(pointer)) ==> Sound(w, releases, pointer)
      // Two steps, the writing and the renaming; without a failure of theirs it is refused only for what the release is.
      ensures r.Done? ==> AllWork(old(failures)) && clock == old(clock) + 2
      ensures r.Done? || Halted(old(failures), r) || (r.Threw? && AllWork(old(failures)) && !Activatable(release))
    {
      if !p.isId(release.manifest.releaseId) || p.full(release.directory) != p.full(release.manifest.releaseId) { return Threw; }
      if p.home(release.directory) !in releases || !Validates(w, runtime, releases[p.home(release.directory)]) { return Threw; }
      // The new pointer is written beside the old one, then renamed over it.
      var s := Tick();
      if !s.Works? { return Ended(s); }
      s := Tick();
      if !s.Works? { return Ended(s); }
      pointer := Some(Names(release.manifest.releaseId));
      r := Done(release);
    }

    method GetRelease(id: string) returns (r: Outcome)
      ensures r.Done? || r.Threw?
      ensures r.Done? <==> PointerValidates(w, runtime, releases, Some(Names(id)))
      ensures r.Done? ==> r.release == CodeRelease(id, w.check(releases[p.home(id)]).value) && r.release.manifest.runtimeId == runtime
    {
      if !p.isId(id) || p.home(id) !in releases || !Validates(w, runtime, releases[p.home(id)]) { return Threw; }
      r := Done(CodeRelease(id, w.check(releases[p.home(id)]).value));
    }

    /** The release the pointer leads to; a pointer that leads nowhere is put aside. */
    method FollowPointer() returns (r: Option<Outcome>)
      requires AllComplete(w, releases)
      modifies this`pointer, this`previous, this`clock, this`failures, this`last
      ensures NothingFails() ==> AllWork(old(failures))
      ensures r.Some? && r.value.Done? ==>
        && PointerValidates(w, runtime, releases, pointer) && pointer == old(pointer)
        && r.value.release == CodeRelease(pointer.value.id, w.check(releases[p.home(pointer.value.id)]).value)
      ensures r.None? ==> pointer.None?
      ensures previous == if r.None? && old(pointer).Some? then old(pointer) else old(previous)
      ensures r.Some? ==> pointer == old(pointer) && old(pointer).Some?
      // What was read decides, if the reading worked; if it failed, or leads nowhere, the file is renamed, if that works.
      ensures failures >= old(failures) && (old(pointer).None? ==> AllWork(old(failures)))
      ensures old(pointer).Some? && AllWork(old(failures)) ==> steps(old(clock)).Works?
      ensures old(pointer).Some? && steps(old(clock)).Works? && old(pointer).value.Misshapen? ==> r == Some(Threw) && AllWork(old(failures))
      ensures r.Some? && r.value.Done? ==> steps(old(clock)).Works? && AllWork(old(failures))
      ensures old(pointer).Some? && steps(old(clock)).Works? && PointerValidates(w, runtime, releases, old(pointer)) ==> r.Some? && r.value.Done?
      ensures old(pointer).Some? && steps(old(clock)).Crashes? ==> r == Some(Crashed)
      ensures r.None? && old(pointer).Some? ==> last.Works? && clock == old(clock) + 2
      ensures r.None? && old(pointer).Some? && AllWork(old(failures)) ==> !PointerValidates(w, runtime, releases, old(pointer))
      ensures r == Some(Crashed) ==> failures > old(failures) && last.Crashes?
      ensures r == Some(Threw) && !old(pointer).value.Misshapen? ==> failures > old(failures) && last.Fails? && clock == old(clock) + 2
    {
      if pointer.None? { return None; }
      var s := Tick();
      if s.Crashes? { return Some(Crashed); }
      if s.Works? {
        match pointer.value {
          case Misshapen => return Some(Threw);
          case Unreadable =>
          case Names(id) =>
            var found := GetRelease(id);
            if found.Done? { return Some(found); }
        }
      }
      s := Tick();
      if !s.Works? { return Some(Ended(s)); }
      previous, pointer := pointer, None;
      r := None;
    }

    method Initialize(name: string) returns (r: Outcome)
      requires w.Sane() && AllComplete(w, releases) && name !in staging
      modifies this
      ensures NothingFails() ==> AllWork(old(failures))
      // Whatever happens: no release is lost, none is incomplete, and the pointer is old, gone or the bundled release.
      ensures AllComplete(w, releases) && Keeps(old(releases), releases)
      ensures Sound(w, old(releases), old(pointer)) ==> Sound(w, releases, pointer)
      ensures pointer == old(pointer) || pointer.None? ||
              (w.check(bundled).Some? && pointer.value.Names? && p.full(pointer.value.id) == p.full(w.check(bundled).value.releaseId))
      ensures staging - {name} == old(staging)
      // A pointer that leads to a valid release stays unless a step failed, and one that does not is put aside, not lost.
      ensures PointerValidates(w, runtime, releases, old(pointer)) && AllWork(old(failures)) ==> pointer == old(pointer)
      ensures previous == old(previous) || previous == old(pointer)
      ensures old(pointer).Some? && pointer != old(pointer) ==> previous == old(pointer)
      // The release returned is the one the active-release file leads to, and the installed runtime accepts it.
      ensures r.Done? ==>
        && PointerValidates(w, runtime, releases, pointer) && p.home(r.release.directory) == p.home(pointer.value.id)
        && r.release.manifest == w.check(releases[p.home(pointer.value.id)]).value && r.release.manifest.runtimeId == runtime
      // Without failures, exactly when this succeeds.
      ensures failures >= old(failures) && (AllWork(old(failures)) ==> (r.Done? <==> CanInitialize(w, runtime, bundled, old(releases), old(pointer))))
      ensures r.Crashed? ==> failures > old(failures) && last.Crashes?
      ensures r.Done? ==> name !in staging
    {
      var seed := Seed(name);
      if !seed.Done? { return seed; }
      var followed := FollowPointer();
      if followed.Some? { return followed.value; }
      r := FallBack(seed.release.directory);
    }

    /** The last lines of `Initialize`: validate the release in this directory and activate it. */
    method FallBack(id: string) returns (r: Outcome)
      requires w.Sane() && AllComplete(w, releases)
      modifies this`pointer, this`clock, this`failures, this`last
      ensures NothingFails() ==> AllWork(old(failures))
      ensures Sound(w, releases, old(pointer)) ==> Sound(w, releases, pointer)
      ensures !r.Done? ==> pointer == old(pointer)
      ensures r.Done? ==>
        && PointerValidates(w, runtime, releases, pointer) && p.full(pointer.value.id) == p.full(id)
        && p.home(r.release.directory) == p.home(pointer.value.id)
        && r.release.manifest == w.check(releases[p.home(pointer.value.id)]).value
      ensures failures >= old(failures) && (r.Done? ==> AllWork(old(failures)))
      ensures r.Done? || Halted(old(failures), r) || (r.Threw? && AllWork(old(failures)))
      ensures AllWork(old(failures)) ==> (r.Done? <==>
        PointerValidates(w, runtime, releases, Some(Names(id))) && p.full(w.check(releases[p.home(id)]).value.releaseId) == p.full(id))
    {
      var found := GetRelease(id);
      if !found.Done? { return found; }
      FoundIsNamed(w, runtime, releases, id);
      r := Activate(found.release);
    }

    function Ended(s: Step): Outcome {
      if s.Crashes? then Crashed else Threw
    }
  }

  /** A directory that exists is never replaced. */
  function Placed(before: map<Path, Tree>, d: Path, tree: Tree): (after: map<Path, Tree>)
    ensures d in after
  {
    if d in before then before else before[d := tree]
  }

  /** The bundled release is valid, and either the pointer or the bundled release's own directory leads to a valid one. */
  predicate CanInitialize(w: Platform, runtime: string, bundled: Tree, releases: map<Path, Tree>, pointer: Option<Pointer>) {
    && Validates(w, runtime, bundled)
    && var id := w.check(bundled).value.releaseId;
       var seeded := Placed(releases, w.rules.home(id), bundled);
       && pointer != Some(Misshapen)
       && (PointerValidates(w, runtime, seeded, pointer)
           || (PointerValidates(w, runtime, seeded, Some(Names(id)))
               && w.rules.full(w.check(seeded[w.rules.home(id)]).value.releaseId) == w.rules.full(id)))
  }

  predicate Keeps(before: map<Path, Tree>, after: map<Path, Tree>) {
    forall d :: d in before ==> d in after && after[d] == before[d]
  }

  /** The directory an archive's release belongs in. */
  function DirectoryOf(p: Rules, archive: Option<seq<ZipEntry>>): Path {
    if archive.Some? && ArchiveManifest(p, archive.value).Some?
    then p.home(ArchiveManifest(p, archive.value).value.releaseId) else []
  }

  /** Without failures: the archive is right, and a release already in its place is valid. */
  predicate CanStage(w: Platform, runtime: string, archive: Option<seq<ZipEntry>>, releases: map<Path, Tree>) {
    && Stageable(w, runtime, archive)
    && (DirectoryOf(w.rules, archive) in releases ==> Validates(w, runtime, releases[DirectoryOf(w.rules, archive)]))
  }

  /** The archive's tree is in its directory, unless a valid release was there before; that one is returned. */
  predicate Staged(w: Platform, runtime: string, archive: Option<seq<ZipEntry>>,
                   before: map<Path, Tree>, after: map<Path, Tree>, release: CodeRelease)
  {
    && Stageable(w, runtime, archive)
    && var d := DirectoryOf(w.rules, archive);
       && after == Placed(before, d, TreeOf(w.rules, Members(archive.value)))
       && Validates(w, runtime, after[d])
       && release == CodeRelease(ArchiveManifest(w.rules, archive.value).value.releaseId, w.check(after[d]).value)
  }

  /**
   What staging returns is the archive's own release unless one with another manifest was in its directory,
   and that one's id leads there too.
   */
  lemma StagedIsOwnIff(w: Platform, runtime: string, archive: Option<seq<ZipEntry>>,
                       before: map<Path, Tree>, after: map<Path, Tree>, release: CodeRelease)
    requires w.Sane() && AllComplete(w, before) && Staged(w, runtime, archive, before, after, release)
    ensures var m, d := ArchiveManifest(w.rules, archive.value).value, DirectoryOf(w.rules, archive);
      && (release.manifest == m <==> (d in before ==> w.check(before[d]) == Some(m)))
      && w.rules.home(release.manifest.releaseId) == w.rules.home(m.releaseId)
  {
    StagedManifest(w, archive.value);
  }

  /** An archive whose manifest is accepted can be staged exactly when unpacking it gives a complete release, which is then the manifest's. */
  lemma StageableIff(w: Platform, runtime: string, es: seq<ZipEntry>, m: Manifest)
    requires w.Sane() && ArchiveManifest(w.rules, es) == Some(m) && IsManifest(w.rules, m) && m.runtimeId == runtime
    ensures var r := Unpack(w.rules, m, es, {}, 0, map[]);
      && (Stageable(w, runtime, Some(es)) <==> r.Some? && Complete(w, r.value))
      && (r.Some? ==> Acceptable(w.rules, m, Members(es)) && r.value == TreeOf(w.rules, Members(es)))
      && (r.Some? ==> (Validates(w, runtime, r.value) <==> Complete(w, r.value)))
      && (r.Some? && Complete(w, r.value) ==> w.check(r.value) == Some(m))
  {
    UnpackIsTree(w.rules, m, es);
    if Acceptable(w.rules, m, Members(es)) { StagedManifest(w, es); }
  }

  lemma UnpackIsTree(p: Rules, m: Manifest, es: seq<ZipEntry>)
    requires p.Sane()
    ensures var r := Unpack(p, m, es, {}, 0, map[]);
      && (r.Some? <==> Acceptable(p, m, Members(es)))
      && (r.Some? ==> r.value == TreeOf(p, Members(es)))
  {
    UnpackAccepts(p, m, es, []);
    assert NamesOf(p, []) == {};
    assert [] + Members(es) == Members(es);
  }
}
