/**
 Publishing an update and reading it back: `publish_cos.py` and the consistency gate of
 `App.CheckAllUpdatesAsync`.

 The bucket maps keys to bytes.  Two mutable, signed documents name the rest by key, hash
 and size; `publish` uploads what they name first and the documents last.  The publisher's
 ghost history holds every state the bucket was ever in, so a client that reads the two
 documents at different moments reads two of its elements.
 */
module Publishing {
  import opened Wrappers

  /** A reference to an immutable object. */
  datatype Ref = Ref(key: string, sha256: string, size: nat)

  datatype Latest = Latest(version: string, releaseId: string, code: Ref)

  datatype Catalog = Catalog(version: string, artifacts: seq<Ref>)

  type Bucket = map<string, Bytes>

  const LATEST := "windows/latest.json"
  const CATALOG := "windows/catalog.json"

  /** The hash, and the signed documents: reading one checks its signature. */
  datatype Signer = Signer(
    sha: Bytes -> string,
    signLatest: Latest -> Bytes,
    readLatest: Bytes -> Option<Latest>,
    signCatalog: Catalog -> Bytes,
    readCatalog: Bytes -> Option<Catalog>)
  {
    ghost predicate Sane() {
      && (forall a, b :: sha(a) == sha(b) ==> a == b)
      && (forall l :: readLatest(signLatest(l)) == Some(l))
      && (forall c :: readCatalog(signCatalog(c)) == Some(c))
    }
  }

  function LatestOf(g: Signer, b: Bucket): Option<Latest> {
    if LATEST in b then g.readLatest(b[LATEST]) else None
  }

  function CatalogOf(g: Signer, b: Bucket): Option<Catalog> {
    if CATALOG in b then g.readCatalog(b[CATALOG]) else None
  }

  /** The object behind a reference has the listed hash and size. */
  predicate Present(g: Signer, b: Bucket, r: Ref) {
    r.key in b && |b[r.key]| == r.size && g.sha(b[r.key]) == r.sha256
  }

  /** The references the two documents make. */
  function Live(g: Signer, b: Bucket): (refs: set<Ref>) {
    (if LatestOf(g, b).Some? then {LatestOf(g, b).value.code} else {}) +
    (if CatalogOf(g, b).Some? then set r | r in CatalogOf(g, b).value.artifacts else {})
  }

  /** Everything a client is told to download can be downloaded. */
  ghost predicate Consistent(g: Signer, b: Bucket) {
    forall r :: r in Live(g, b) ==> Present(g, b, r)
  }

  /** Any key but the two documents'. */
  predicate IsObjectKey(key: string) {
    key != LATEST && key != CATALOG
  }

  /** Storing an object keeps the documents truthful exactly when no document expects something else under its key. */
  lemma UploadKeepsConsistencyIff(g: Signer, b: Bucket, key: string, content: Bytes)
    requires Consistent(g, b) && IsObjectKey(key)
    ensures Consistent(g, b[key := content]) <==>
            forall r :: r in Live(g, b) && r.key == key ==> r.size == |content| && r.sha256 == g.sha(content)
  {
    var c := b[key := content];
    assert Live(g, c) == Live(g, b);
    forall r | r in Live(g, b)
      ensures Present(g, c, r) <==> (r.key == key ==> r.size == |content| && r.sha256 == g.sha(content))
    {
      assert Present(g, b, r);
    }
  }

  /** Nothing stored is ever replaced, the two documents aside. */
  predicate Grows(b: Bucket, c: Bucket) {
    forall k :: k in b && IsObjectKey(k) ==> k in c && c[k] == b[k]
  }

  /** The documents only name objects. */
  ghost predicate NamesObjects(g: Signer, b: Bucket) {
    forall r :: r in Live(g, b) ==> IsObjectKey(r.key)
  }

  /** Each state extends all earlier ones, and in each every live reference is served. */
  ghost predicate Reliable(g: Signer, history: seq<Bucket>) {
    && (forall i :: 0 <= i < |history| ==> Consistent(g, history[i]) && NamesObjects(g, history[i]))
    && (forall i, j :: 0 <= i <= j < |history| ==> Grows(history[i], history[j]))
  }

  lemma ReliableLonger(g: Signer, history: seq<Bucket>, b: Bucket)
    requires Reliable(g, history) && history != [] && Grows(history[|history| - 1], b)
    requires Consistent(g, b) && NamesObjects(g, b)
    ensures Reliable(g, history + [b])
  {
    var longer := history + [b];
    forall i, j | 0 <= i <= j < |longer| ensures Grows(longer[i], longer[j]) {
      if j == |history| && i < |history| {
        assert Grows(history[i], history[|history| - 1]);
      }
    }
  }

  // ---- the client ----

  /** What the client decides to download, from a catalog and a latest document read at two moments. */
  function Accept(catalog: Option<Catalog>, latest: Option<Latest>): Option<seq<Ref>> {
    if catalog.Some? && latest.Some? && latest.value.version == catalog.value.version
    then Some(catalog.value.artifacts + [latest.value.code]) else None
  }

  /** Whatever the client accepts can be downloaded from then on, at any later moment of any run. */
  lemma AcceptedPlanIsServed(g: Signer, history: seq<Bucket>, i: nat, j: nat, k: nat)
    requires Reliable(g, history) && i <= j <= k < |history|
    ensures var catalog, latest := CatalogOf(g, history[i]), LatestOf(g, history[j]);
      Accept(catalog, latest).Some? ==>
        && catalog.value.version == latest.value.version
        && forall r :: r in Accept(catalog, latest).value ==> Present(g, history[k], r)
  {
    var catalog, latest := CatalogOf(g, history[i]), LatestOf(g, history[j]);
    if Accept(catalog, latest).Some? {
      forall r | r in Accept(catalog, latest).value ensures Present(g, history[k], r) {
        if r in catalog.value.artifacts {
          assert r in Live(g, history[i]) && Present(g, history[i], r);
          assert Grows(history[i], history[k]);
        } else {
          assert r in Live(g, history[j]) && Present(g, history[j], r);
          assert Grows(history[j], history[k]);
        }
      }
    }
  }

  // ---- the publisher ----

  /** How one upload or request ends: an upload can fail after it took effect, or leave other bytes and report success. */
  datatype Step = Works | Fails | FailsLate | Garbles(content: Bytes)

  /**
   What an upload of `content` may leave under `key`: that, or other bytes, which no signature makes a
   document.  Bytes already stored under an object key are not damaged by storing them again.
   */
  predicate MayLeave(g: Signer, b: Bucket, key: string, content: Bytes, left: Bytes) {
    left == content ||
    ((IsObjectKey(key) ==> key !in b) && (key == LATEST ==> g.readLatest(left).None?) && (key == CATALOG ==> g.readCatalog(left).None?))
  }

  predicate Reports(s: Step) { s.Works? || s.Garbles? }

  datatype Release = Release(version: string, releaseId: string, archive: Bytes, installer: Option<Installer>)

  datatype Installer = Installer(name: string, content: Bytes)

  function CodeKey(releaseId: string): (key: string)
    ensures IsObjectKey(key)
  {
    var key := "windows/releases/Momoi-Code-" + releaseId + ".zip";
    assert key[8] == 'r' && LATEST[8] == 'l' && CATALOG[8] == 'c';
    key
  }

  function InstallerKey(name: string): (key: string)
    ensures IsObjectKey(key)
  {
    var key := "windows/installers/" + name;
    assert key[8] == 'i' && LATEST[8] == 'l' && CATALOG[8] == 'c';
    key
  }

  lemma KeysApart(releaseId: string, name: string)
    ensures CodeKey(releaseId) != InstallerKey(name)
  {
    assert CodeKey(releaseId)[8] == 'r' && InstallerKey(name)[8] == 'i';
  }

  /** The key is free, or already holds these very bytes. */
  predicate Unspent(b: Bucket, key: string, content: Bytes) {
    key in b ==> b[key] == content
  }

  /** The latest document of a release. */
  function Announcement(g: Signer, r: Release): Latest {
    Latest(r.version, r.releaseId, Ref(CodeKey(r.releaseId), g.sha(r.archive), |r.archive|))
  }

  predicate Announces(g: Signer, b: Bucket, r: Release) {
    LatestOf(g, b) == Some(Announcement(g, r))
  }

  /** The document leads to this release, and to its archive. */
  predicate Offers(l: Latest, b: Bucket, r: Release) {
    l.version == r.version && l.releaseId == r.releaseId && l.code.key in b && b[l.code.key] == r.archive
  }

  /** The catalog on display has the version announced with `r`. */
  predicate InStep(g: Signer, b: Bucket, r: Release) {
    CatalogOf(g, b).Some? && CatalogOf(g, b).value.version == r.version
  }

  function Concat(chunks: seq<Bytes>): Bytes {
    if chunks == [] then [] else Concat(chunks[..|chunks| - 1]) + chunks[|chunks| - 1]
  }

  /** What may be uploaded: objects under keys of their own, and documents whose references are there. */
  ghost predicate MayUpload(g: Signer, b: Bucket, key: string, content: Bytes) {
    && (IsObjectKey(key) ==> Unspent(b, key, content))
    && (key == LATEST ==> forall l :: g.readLatest(content) == Some(l) ==> IsObjectKey(l.code.key) && Present(g, b, l.code))
    && (key == CATALOG ==> forall c, r :: g.readCatalog(content) == Some(c) && r in c.artifacts ==> IsObjectKey(r.key) && Present(g, b, r))
  }

  /** Whatever an upload leaves, the documents stay truthful. */
  lemma UploadIsTruthful(g: Signer, b: Bucket, key: string, content: Bytes, left: Bytes)
    requires Consistent(g, b) && NamesObjects(g, b) && MayUpload(g, b, key, content) && MayLeave(g, b, key, content, left)
    ensures Grows(b, b[key := left]) && Consistent(g, b[key := left]) && NamesObjects(g, b[key := left])
  {
    var c := b[key := left];
    forall r | r in Live(g, c) ensures Present(g, c, r) && IsObjectKey(r.key) {
      if r in Live(g, b) { assert Present(g, b, r); }
    }
  }

  class Publisher {
    const g: Signer
    const steps: nat -> Step
    /** How a response's bytes arrive. */
    const arrivals: (nat, Bytes) -> seq<Bytes>
    /** The file names an installer may have. */
    const installerNames: string -> bool
    var clock: nat
    var bucket: Bucket
    ghost var history: seq<Bucket>

    ghost predicate Valid()
      reads this
    {
      && g.Sane() && (forall n, bytes :: Concat(arrivals(n, bytes)) == bytes)
      && history != [] && history[|history| - 1] == bucket && Reliable(g, history)
    }

    constructor (g: Signer, steps: nat -> Step, arrivals: (nat, Bytes) -> seq<Bytes>, installerNames: string -> bool, bucket: Bucket)
      requires g.Sane() && (forall n, bytes :: Concat(arrivals(n, bytes)) == bytes)
      requires Consistent(g, bucket) && NamesObjects(g, bucket)
      ensures Valid() && this.bucket == bucket && this.g == g && this.steps == steps && this.installerNames == installerNames
    {
      this.g, this.steps, this.arrivals, this.installerNames := g, steps, arrivals, installerNames;
      this.clock, this.bucket, this.history := 0, bucket, [bucket];
    }

    method Tick() returns (s: Step)
      modifies this`clock
      ensures s == steps(old(clock)) && clock == old(clock) + 1
    {
      s := steps(clock);
      clock := clock + 1;
    }

    ghost predicate NothingFails() {
      forall n :: steps(n).Works?
    }

    /** Every step since then reported success. */
    ghost predicate AllReported(since: nat)
      reads this`clock
    {
      forall k :: since <= k < clock ==> Reports(steps(k))
    }

    predicate WellNamed(r: Release) {
      r.installer.Some? ==> installerNames(r.installer.value.name)
    }

    /** `upload`: success is not yet proof of what is stored. */
    method Upload(key: string, content: Bytes) returns (ok: bool)
      requires Valid() && MayUpload(g, bucket, key, content)
      modifies this
      ensures Valid() && (history == old(history) || history == old(history) + [bucket])
      ensures bucket == old(bucket) ||
              (key in bucket && MayLeave(g, old(bucket), key, content, bucket[key]) && bucket == old(bucket)[key := bucket[key]])
      // A failure may come before or after it took effect.
      ensures clock == old(clock) + 1 && (ok <==> Reports(steps(old(clock))))
      ensures steps(old(clock)).Fails? ==> bucket == old(bucket)
      ensures steps(old(clock)).Works? || steps(old(clock)).FailsLate? ==> bucket == old(bucket)[key := content]
    {
      var s := Tick();
      ok := Reports(s);
      if !s.Fails? {
        var left := if s.Garbles? && MayLeave(g, bucket, key, content, s.content) then s.content else content;
        UploadIsTruthful(g, bucket, key, content, left);
        ReliableLonger(g, history, bucket[key := left]);
        bucket := bucket[key := left];
        history := history + [bucket];
      }
    }

    /** `verify_remote`: the size and the digest of what is served, piece by piece, against those of the local file. */
    method VerifyRemote(key: string, local: Bytes) returns (ok: bool)
      requires Valid()
      modifies this`clock
      ensures ok <==> steps(old(clock)).Works? && key in bucket && bucket[key] == local
      ensures clock == old(clock) + 1
    {
      var s := Tick();
      if !s.Works? || key !in bucket { return false; }
      var chunks := arrivals(clock, bucket[key]);
      var digested: Bytes, size := [], 0;
      for i := 0 to |chunks|
        invariant digested == Concat(chunks[..i]) && size == |digested|
      {
        assert chunks[..i + 1][..i] == chunks[..i];
        digested, size := digested + chunks[i], size + |chunks[i]|;
      }
      assert chunks[..|chunks|] == chunks;
      ok := size == |local| && g.sha(digested) == g.sha(local);
    }

    /** Upload, then read back. */
    method Put(key: string, content: Bytes) returns (ok: bool)
      requires Valid() && MayUpload(g, bucket, key, content)
      modifies this
      ensures Valid() && (history == old(history) || history == old(history) + [bucket])
      ensures bucket - {key} == old(bucket) - {key}
      ensures ok ==> bucket == old(bucket)[key := content]
      ensures bucket == old(bucket) || (key in bucket && MayLeave(g, old(bucket), key, content, bucket[key]))
      ensures NothingFails() ==> ok
      ensures clock > old(clock) && (ok ==> AllReported(old(clock)) && clock == old(clock) + 2)
    {
      ok := Upload(key, content);
      if !ok { return; }
      ok := VerifyRemote(key, content);
    }

    /** `sync_catalog`: check every component, then move the catalog to the new version. */
    method SyncCatalog(version: string) returns (ok: bool)
      requires Valid()
      modifies this
      ensures Valid() && (history == old(history) || history == old(history) + [bucket])
      ensures ok ==> CatalogOf(g, bucket).Some? && CatalogOf(g, bucket).value.version == version
      ensures ok ==> CatalogOf(g, old(bucket)).Some? && CatalogOf(g, bucket).value.artifacts == CatalogOf(g, old(bucket)).value.artifacts
      ensures LatestOf(g, bucket) == LatestOf(g, old(bucket))
      ensures forall k :: IsObjectKey(k) ==> Same(bucket, old(bucket), k)
      // A catalog of this version is left alone; any other is changed only after a look at each of its components.
      ensures ok ==> AllReported(old(clock))
      ensures CatalogOf(g, old(bucket)).Some? && CatalogOf(g, old(bucket)).value.version == version ==> bucket == old(bucket)
      ensures CatalogOf(g, bucket) != CatalogOf(g, old(bucket)) ==>
                && CatalogOf(g, old(bucket)).Some?
                && clock > old(clock) + 1 + |CatalogOf(g, old(bucket)).value.artifacts|
                && forall k :: old(clock) <= k <= old(clock) + |CatalogOf(g, old(bucket)).value.artifacts| ==> steps(k).Works?
      ensures NothingFails() && CatalogOf(g, old(bucket)).Some? ==> ok
    {
      ghost var since := clock;
      var s := Tick();
      if !s.Works? || CatalogOf(g, bucket).None? { return false; }
      var catalog := CatalogOf(g, bucket).value;
      if catalog.version == version { return true; }
      for i := 0 to |catalog.artifacts|
        invariant Valid() && history == old(history) && bucket == old(bucket)
        invariant forall r :: r in catalog.artifacts[..i] ==> Present(g, bucket, r)
        invariant clock == since + 1 + i && forall k :: since <= k < clock ==> steps(k).Works?
      {
        s := Tick();
        assert catalog.artifacts[i] in Live(g, bucket);
        if !s.Works? || !Present(g, bucket, catalog.artifacts[i]) { return false; }
      }
      assert forall r :: r in catalog.artifacts ==> r in Live(g, bucket);
      ghost var b := bucket;
      ok := Put(CATALOG, g.signCatalog(Catalog(version, catalog.artifacts)));
      SameElsewhere(bucket, b, CATALOG);
      assert Same(bucket, b, LATEST);
    }

    method Publish(r: Release) returns (ok: bool)
      requires Valid()
      // Object keys are never reused for different bytes.
      requires Unspent(bucket, CodeKey(r.releaseId), r.archive)
      requires r.installer.Some? ==> Unspent(bucket, InstallerKey(r.installer.value.name), r.installer.value.content)
      modifies this
      // Every state on the way, and the one it stops in, is truthful.
      ensures Valid() && old(history) <= history
      // In every state that announces the release for the first time the catalog is in step.
      ensures forall i :: |old(history)| <= i < |history| && Announces(g, history[i], r) ==>
                Announces(g, old(bucket), r) || InStep(g, history[i], r)
      // Done: the release is announced, and a client that reads both documents now accepts it.
      ensures ok ==> Announces(g, bucket, r) && InStep(g, bucket, r) && Accept(CatalogOf(g, bucket), LatestOf(g, bucket)).Some?
      // What that client learns is this release, and what it downloads is this archive.
      ensures ok ==> LatestOf(g, bucket).Some? && Offers(LatestOf(g, bucket).value, bucket, r)
      ensures ok ==> forall i :: r.installer == Some(i) ==>
                InstallerKey(i.name) in bucket && bucket[InstallerKey(i.name)] == i.content
      // The components are the ones announced before.
      ensures ok ==> CatalogOf(g, old(bucket)).Some? && CatalogOf(g, bucket).value.artifacts == CatalogOf(g, old(bucket)).value.artifacts
      // Not done: the latest document is the old one, the new one, or unreadable.
      ensures LatestOf(g, bucket) == LatestOf(g, old(bucket)) || Announces(g, bucket, r) || LatestOf(g, bucket).None?
      ensures ok ==> WellNamed(r) && AllReported(old(clock))
      ensures NothingFails() && CatalogOf(g, old(bucket)).Some? && WellNamed(r) ==> ok
    {
      ok := PutObjects(r);
      if !ok { return; }
      ghost var b := bucket;
      ok := SyncCatalog(r.version);
      assert Same(bucket, b, CodeKey(r.releaseId));
      if !ok { return; }
      ok := Announce(r);
    }

    /** The latest document, last of all. */
    method Announce(r: Release) returns (ok: bool)
      requires Valid() && CodeKey(r.releaseId) in bucket && bucket[CodeKey(r.releaseId)] == r.archive
      modifies this
      ensures Valid() && (history == old(history) || history == old(history) + [bucket])
      ensures CatalogOf(g, bucket) == CatalogOf(g, old(bucket))
      ensures ok ==> Announces(g, bucket, r) && Offers(LatestOf(g, bucket).value, bucket, r)
      ensures forall k :: IsObjectKey(k) ==> Same(bucket, old(bucket), k)
      ensures LatestOf(g, bucket) == LatestOf(g, old(bucket)) || Announces(g, bucket, r) || LatestOf(g, bucket).None?
      ensures clock >= old(clock) && (ok ==> AllReported(old(clock)))
      ensures NothingFails() ==> ok
    {
      ghost var b := bucket;
      ok := Put(LATEST, g.signLatest(Announcement(g, r)));
      SameElsewhere(bucket, b, LATEST);
      assert Same(bucket, b, CATALOG) && Same(bucket, b, CodeKey(r.releaseId));
    }

    /** The immutable objects, before any document names them. */
    method PutObjects(r: Release) returns (ok: bool)
      requires Valid() && Unspent(bucket, CodeKey(r.releaseId), r.archive)
      requires r.installer.Some? ==> Unspent(bucket, InstallerKey(r.installer.value.name), r.installer.value.content)
      modifies this
      ensures Valid() && old(history) <= history
      ensures LatestOf(g, bucket) == LatestOf(g, old(bucket)) && CatalogOf(g, bucket) == CatalogOf(g, old(bucket))
      ensures forall i :: |old(history)| <= i < |history| ==> LatestOf(g, history[i]) == LatestOf(g, old(bucket))
      ensures ok ==> CodeKey(r.releaseId) in bucket && bucket[CodeKey(r.releaseId)] == r.archive
      ensures ok ==> WellNamed(r) && forall i :: r.installer == Some(i) ==>
                InstallerKey(i.name) in bucket && bucket[InstallerKey(i.name)] == i.content
      ensures clock >= old(clock) && (ok ==> AllReported(old(clock)))
      ensures NothingFails() && WellNamed(r) ==> ok
    {
      ghost var b := bucket;
      ok := Put(CodeKey(r.releaseId), r.archive);
      SameAt(bucket, b, CodeKey(r.releaseId), LATEST);
      SameAt(bucket, b, CodeKey(r.releaseId), CATALOG);
      if !ok || r.installer.None? { return; }
      if !installerNames(r.installer.value.name) { return false; }
      var key := InstallerKey(r.installer.value.name);
      KeysApart(r.releaseId, r.installer.value.name);
      SameAt(bucket, b, CodeKey(r.releaseId), key);
      ghost var c := bucket;
      ok := Put(key, r.installer.value.content);
      SameAt(bucket, c, key, LATEST);
      SameAt(bucket, c, key, CATALOG);
      SameAt(bucket, c, key, CodeKey(r.releaseId));
    }
  }
}
