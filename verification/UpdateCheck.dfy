/**
 Looking for updates: `App.CheckAllUpdatesAsync`, and what its plan leads to.

 The check compares the signed catalog with what is installed, downloads an archive for
 each component that is due, stages the code, and writes a plan that names them.  Whatever
 fails, what a plan on disk names was downloaded and staged; it is verified too unless two
 archives share a file.  The last theorem follows a plan through its restarts: the next
 check finds nothing to do exactly when every archive carried the id announced for it.
 */
module UpdateChecks {
  import opened Wrappers
  import opened Paths
  import opened PendingPlans

  datatype Artifact = Artifact(size: nat, sha256: string)

  /** The signed catalog: what it announces, and the archives it names. */
  datatype Offer = Offer(version: string, announced: Catalog, shell: Artifact, napCat: Artifact, asr: Artifact)

  /** The signed latest document. */
  datatype Code = Code(version: string, releaseId: string, runtimeId: string)

  /** What is installed, the id beside the QQ component, and whether the settings choose the local ASR. */
  datatype Local = Local(installed: Installed, pair: Option<string>, asrSelected: bool)

  /** A plan on disk: the copy of the catalog it refers to, the directory of its archives, and which of them it names. */
  datatype Todo = Todo(offer: Offer, directory: nat, plan: Plan)

  /** Files of the update directories. */
  type Files = map<(nat, string), Bytes>

  // ---- what is due ----

  /** The QQ component's id: the marker's, or else the one beside the component. */
  function PairOf(l: Local): string {
    if l.installed.napCat.Some? then l.installed.napCat.value else if l.pair.Some? then l.pair.value else ""
  }

  predicate Due(c: Catalog, l: Local, k: Kind) {
    match k
    case ShellZip => ShellDiffers(c, l.installed.shell)
    case NapCatInstaller => PairOf(l) != c.napCat
    case AsrInstaller => c.asr.Some? && (l.installed.asr.Some? || l.asrSelected) && l.installed.asr != c.asr
  }

  function PlanOf(c: Catalog, code: string, l: Local): Plan {
    Plan(Due(c, l, ShellZip), Due(c, l, NapCatInstaller), Due(c, l, AsrInstaller), if l.installed.release != code then Some(code) else None)
  }

  predicate UpToDate(c: Catalog, code: string, l: Local) {
    PlanOf(c, code, l) == Plan(false, false, false, None)
  }

  // ---- the archives of a plan ----

  function Named(plan: Plan): set<Kind> {
    (if plan.shell then {ShellZip} else {}) + (if plan.napCat then {NapCatInstaller} else {}) + (if plan.asr then {AsrInstaller} else {})
  }

  function ArtifactOf(o: Offer, k: Kind): Artifact {
    match k case ShellZip => o.shell case NapCatInstaller => o.napCat case AsrInstaller => o.asr
  }

  function IdOf(c: Catalog, k: Kind): string {
    match k
    case ShellZip => c.shell.id
    case NapCatInstaller => c.napCat
    case AsrInstaller => if c.asr.Some? then c.asr.value else ""
  }

  function Extension(k: Kind): string {
    if k.ShellZip? then ".zip" else ".exe"
  }

  /** An archive is stored under its id, in the case the file system compares. */
  function Place(fold: Casing, o: Offer, directory: nat, k: Kind): (nat, string) {
    (directory, FoldName(fold, IdOf(o.announced, k) + Extension(k)))
  }

  predicate IsVerified(sha: Bytes -> string, a: Artifact, content: Bytes) {
    |content| == a.size && sha(content) == a.sha256
  }

  /** Where archives are stored, and what the catalog says of them. */
  datatype Shelf = Shelf(sha: Bytes -> string, place: Kind -> (nat, string), artifact: Kind -> Artifact)

  function ShelfOf(fold: Casing, sha: Bytes -> string, o: Offer, directory: nat): Shelf {
    Shelf(sha, k => Place(fold, o, directory, k), k => ArtifactOf(o, k))
  }

  /** The file of one component holds the verified archive of another. */
  predicate Serving(h: Shelf, files: Files, j: Kind, k: Kind) {
    h.place(j) == h.place(k) && h.place(k) in files && IsVerified(h.sha, h.artifact(j), files[h.place(k)])
  }

  /** The file holds the verified archive of one of these components. */
  ghost predicate Holds(h: Shelf, ks: set<Kind>, files: Files, k: Kind) {
    exists j :: j in ks && Serving(h, files, j, k)
  }

  /** So does the file of each of them. */
  ghost predicate Stored(h: Shelf, ks: set<Kind>, files: Files) {
    forall k {:trigger Holds(h, ks, files, k)} :: k in ks ==> Holds(h, ks, files, k)
  }

  /** Each file holds its own component's verified archive. */
  ghost predicate AllVerified(h: Shelf, ks: set<Kind>, files: Files) {
    forall k :: k in ks ==> Serving(h, files, k, k)
  }

  lemma StoredNext(h: Shelf, ks: set<Kind>, files: Files, k: Kind, content: Bytes)
    requires Stored(h, ks, files) && IsVerified(h.sha, h.artifact(k), content)
    ensures Stored(h, ks + {k}, files[h.place(k) := content])
  {
    var more := files[h.place(k) := content];
    forall i | i in ks + {k} ensures Holds(h, ks + {k}, more, i) {
      if h.place(i) == h.place(k) {
        assert k in ks + {k} && Serving(h, more, k, i);
      } else {
        assert Holds(h, ks, files, i);
        var j :| j in ks && Serving(h, files, j, i);
        assert j in ks + {k} && Serving(h, more, j, i);
      }
    }
  }

  /** Files elsewhere do not matter. */
  lemma StoredElsewhere(h: Shelf, ks: set<Kind>, files: Files, more: Files)
    requires Stored(h, ks, files) && forall f :: f in files ==> f in more && more[f] == files[f]
    ensures Stored(h, ks, more)
  {
    forall k | k in ks ensures Holds(h, ks, more, k) {
      assert Holds(h, ks, files, k);
      var j :| j in ks && Serving(h, files, j, k);
      assert Serving(h, more, j, k);
    }
  }

  /** No two different archives have one file. */
  predicate Apart(h: Shelf, ks: set<Kind>) {
    forall j, k :: j in ks && k in ks && h.place(j) == h.place(k) ==> h.artifact(j) == h.artifact(k)
  }

  /** What was stored is verified exactly when no two of the archives share a file. */
  lemma VerifiedIffApart(h: Shelf, ks: set<Kind>, files: Files)
    requires Stored(h, ks, files)
    ensures AllVerified(h, ks, files) <==> Apart(h, ks)
  {
    if Apart(h, ks) {
      forall k | k in ks ensures Serving(h, files, k, k) {
        assert Holds(h, ks, files, k);
        var j :| j in ks && Serving(h, files, j, k);
        assert h.artifact(j) == h.artifact(k);
      }
    }
    if AllVerified(h, ks, files) {
      forall j, k | j in ks && k in ks && h.place(j) == h.place(k) ensures h.artifact(j) == h.artifact(k) {
        assert Serving(h, files, j, j) && Serving(h, files, k, k);
      }
    }
  }

  /** Only the two installers can share a file, and do so exactly when their ids are one name to the file system. */
  lemma ApartIff(fold: Casing, sha: Bytes -> string, t: Todo)
    requires fold('e') != fold('p') && (t.plan.asr ==> t.offer.announced.asr.Some?)
    ensures Apart(ShelfOf(fold, sha, t.offer, t.directory), Named(t.plan)) <==>
            (t.plan.napCat && t.plan.asr && FoldName(fold, t.offer.announced.napCat) == FoldName(fold, t.offer.announced.asr.value)
             ==> t.offer.napCat == t.offer.asr)
  {
    var h := ShelfOf(fold, sha, t.offer, t.directory);
    forall j, k | j in Named(t.plan) && k in Named(t.plan) && j != k
      ensures h.place(j) == h.place(k) <==>
              !j.ShellZip? && !k.ShellZip? && FoldName(fold, IdOf(t.offer.announced, j)) == FoldName(fold, IdOf(t.offer.announced, k))
    {
      SameFileIff(fold, IdOf(t.offer.announced, j), Extension(j), IdOf(t.offer.announced, k), Extension(k));
    }
    if t.plan.napCat && t.plan.asr { assert NapCatInstaller in Named(t.plan) && AsrInstaller in Named(t.plan); }
  }

  lemma SameFileIff(fold: Casing, a: string, x: string, b: string, y: string)
    requires |x| == |y| == 4 && (x == y || fold(x[3]) != fold(y[3]))
    ensures FoldName(fold, a + x) == FoldName(fold, b + y) <==> FoldName(fold, a) == FoldName(fold, b) && x == y
  {
    var p, q := FoldName(fold, a + x), FoldName(fold, b + y);
    if p == q {
      assert |a| == |p| - 4 == |b|;
      assert fold(x[3]) == p[|a| + 3] == q[|b| + 3] == fold(y[3]);
      forall i | 0 <= i < |a| ensures FoldName(fold, a)[i] == FoldName(fold, b)[i] { assert p[i] == q[i]; }
    }
    if FoldName(fold, a) == FoldName(fold, b) && x == y {
      assert |a| == |FoldName(fold, a)| == |b|;
      forall i | 0 <= i < |p| ensures p[i] == q[i] {
        if i < |a| { assert FoldName(fold, a)[i] == FoldName(fold, b)[i]; }
      }
    }
  }

  // ---- the check ----

  function Concat(pieces: seq<Bytes>): Bytes {
    if pieces == [] then [] else Concat(pieces[..|pieces| - 1]) + pieces[|pieces| - 1]
  }

  datatype Outcome = Planned(code: Code) | Current | Declined | Upgrading(code: Code, install: Code) | Failed | Died | Busy

  /** How the check ends when nothing fails, and the user agrees or does not. */
  function Expected(o: Offer, code: Code, install: Code, runtime: string, l: Local, agreed: bool): Outcome {
    if code.version != o.version then Failed
    else if l.installed.release != code.releaseId && code.runtimeId != runtime then
      if install.version != code.version || install.runtimeId != code.runtimeId then Failed
      else if agreed then Upgrading(code, install) else Declined
    else if UpToDate(o.announced, code.releaseId, l) then Current
    else if agreed then Planned(code) else Declined
  }

  class Updates {
    const fold: Casing
    const sha: Bytes -> string
    const runtime: string
    // The environment: how each step ends, the documents and archives served at each moment, and the user.
    const steps: nat -> Step
    const offers: nat -> Option<Offer>
    const codes: nat -> Option<Code>
    const installers: nat -> Option<Code>
    const served: (nat, Artifact) -> seq<Bytes>
    const agrees: nat -> bool
    var clock: nat
    // How many steps did not work so far, and how the last one ended.
    ghost var failures: nat
    ghost var last: Step
    var local: Local
    var files: Files
    var staged: set<string>
    var plan: Option<Todo>
    var busy: bool

    constructor (fold: Casing, sha: Bytes -> string, runtime: string, steps: nat -> Step, offers: nat -> Option<Offer>,
                 codes: nat -> Option<Code>, installers: nat -> Option<Code>, served: (nat, Artifact) -> seq<Bytes>,
                 agrees: nat -> bool, local: Local, staged: set<string>)
      ensures Sound() && plan.None? && files == map[] && !busy && this.local == local && this.staged == staged
      ensures this.fold == fold && this.sha == sha
      ensures this.runtime == runtime && this.steps == steps && this.offers == offers && this.codes == codes
      ensures this.installers == installers && this.served == served && this.agrees == agrees
    {
      this.fold, this.sha, this.runtime, this.steps, this.offers := fold, sha, runtime, steps, offers;
      this.codes, this.installers, this.served, this.agrees := codes, installers, served, agrees;
      this.clock, this.local, this.files, this.staged, this.plan, this.busy := 0, local, map[], staged, None, false;
      this.failures, this.last := 0, Works;
    }

    /** What a plan on disk names was downloaded, and its release staged. */
    ghost predicate Sound()
      reads this
    {
      plan.Some? ==>
        && Stored(ShelfOf(fold, sha, plan.value.offer, plan.value.directory), Named(plan.value.plan), files)
        && (plan.value.plan.code.Some? ==> plan.value.plan.code.value in staged)
    }

    /** Every archive a plan on disk names is the one the catalog describes. */
    ghost predicate Verified()
      reads this
    {
      plan.Some? ==> AllVerified(ShelfOf(fold, sha, plan.value.offer, plan.value.directory), Named(plan.value.plan), files)
    }

    ghost predicate NothingFails() {
      forall n :: steps(n).Works?
    }

    /** Whenever this archive is asked for, it is served. */
    ghost predicate Delivers(a: Artifact) {
      forall n :: IsVerified(sha, a, Concat(served(n, a)))
    }

    /** Nothing fails, and these documents are served, with the archives the catalog describes. */
    ghost predicate Serves(o: Offer, code: Code, install: Code) {
      && NothingFails() && (forall k :: Delivers(ArtifactOf(o, k)))
      && forall n :: offers(n) == Some(o) && codes(n) == Some(code) && installers(n) == Some(install)
    }

    /** The user's answer, whenever asked. */
    ghost predicate Answers(agreed: bool) {
      forall n :: agrees(n) == agreed
    }

    /** The user was asked, and every step worked or the last one was the first that did not. */
    ghost predicate Asked(r: Outcome, before: nat)
      reads this`failures, this`last
    {
      && (r.Declined? ==> exists n :: !agrees(n)) && (r.Planned? || r.Upgrading? ==> exists n :: agrees(n))
      && (r.Planned? || r.Current? || r.Declined? || r.Upgrading? ==> failures == before)
      && (failures > before ==> failures == before + 1 && !last.Works? && r == Ended(last))
      && (r.Died? ==> failures > before)
    }

    /** The documents an outcome rests on were read, and go together. */
    ghost predicate Founded(r: Outcome)
      reads this
    {
      && (r.Planned? ==> plan.Some? && Fits(plan.value, r.code)
                         && (exists n :: codes(n) == Some(r.code)) && (exists n :: offers(n) == Some(plan.value.offer)))
      && (r.Upgrading? ==> r.install.version == r.code.version && r.install.runtimeId == r.code.runtimeId != runtime
                           && r.code.releaseId != local.installed.release
                           && (exists n :: codes(n) == Some(r.code)) && (exists n :: installers(n) == Some(r.install)))
    }

    method Try() returns (s: Step)
      modifies this`clock, this`failures, this`last
      ensures s == last == steps(old(clock)) && clock == old(clock) + 1
      ensures failures == old(failures) + if s.Works? then 0 else 1
    {
      s := steps(clock);
      clock := clock + 1;
      last, failures := s, failures + if s.Works? then 0 else 1;
    }

    /** The last step did not work, as the first since then, and that is the result. */
    ghost predicate StoppedAt(before: nat, s: Step)
      reads this`failures, this`last
    {
      failures == before + 1 && s == last && !s.Works?
    }

    /** The pieces of a response, up to the size the catalog gives; their hash is compared at the end. */
    method Receive(a: Artifact) returns (s: Step, content: Bytes)
      modifies this`clock, this`failures, this`last
      ensures s.Works? ==> IsVerified(sha, a, content) && failures == old(failures)
      ensures NothingFails() ==> failures == old(failures) && (Delivers(a) ==> s.Works?)
      ensures !s.Works? ==> StoppedAt(old(failures), s) || (s.Fails? && failures == old(failures))
      // Each piece is one step, and none is asked for once the size is passed.
      ensures steps(old(clock)).Works? ==>
                var pieces, read := served(old(clock) + 1, a), clock - old(clock) - 1;
                && 0 <= read <= |pieces| && (s.Works? ==> read == |pieces|)
                && (read > 0 ==> |Concat(pieces[..read - 1])| <= a.size)
    {
      content := [];
      s := Try();
      if !s.Works? { return; }
      var pieces, i := served(clock, a), 0;
      ghost var since := clock;
      while i < |pieces|
        invariant 0 <= i <= |pieces| && content == Concat(pieces[..i]) && |content| <= a.size
        invariant clock == since + i && failures == old(failures)
        invariant i > 0 ==> |Concat(pieces[..i - 1])| <= a.size
      {
        s := Try();
        if !s.Works? { return; }
        assert pieces[..i + 1][..i] == pieces[..i];
        ConcatOfPrefix(pieces, i + 1);
        content, i := content + pieces[i], i + 1;
        if |content| > a.size { return Fails, content; }
      }
      assert pieces[..i] == pieces;
      s := if IsVerified(sha, a, content) then Works else Fails;
    }

    method Download(o: Offer, directory: nat, k: Kind) returns (s: Step, ghost content: Bytes)
      modifies this`files, this`clock, this`failures, this`last
      ensures s.Works? ==> IsVerified(sha, ArtifactOf(o, k), content) && files == old(files)[Place(fold, o, directory, k) := content]
      ensures !s.Works? ==> files == old(files)
      ensures s.Works? ==> failures == old(failures)
      ensures !s.Works? ==> StoppedAt(old(failures), s) || (s.Fails? && failures == old(failures))
      ensures NothingFails() ==> failures == old(failures) && (Delivers(ArtifactOf(o, k)) ==> s.Works?)
    {
      var received;
      s, received := Receive(ArtifactOf(o, k));
      content := received;
      if !s.Works? { return; }
      s := Try();  // the partial file is renamed
      if s.Works? { files := files[Place(fold, o, directory, k) := received]; }
    }

    /** The archives the plan names, one after the other. */
    method DownloadAll(o: Offer, directory: nat, p: Plan) returns (s: Step)
      modifies this`files, this`clock, this`failures, this`last
      ensures s.Works? ==> Stored(ShelfOf(fold, sha, o, directory), Named(p), files)
      ensures forall f :: f in old(files) && f.0 != directory ==> f in files && files[f] == old(files)[f]
      ensures s.Works? ==> failures == old(failures)
      ensures !s.Works? ==> StoppedAt(old(failures), s) || (s.Fails? && failures == old(failures))
      ensures NothingFails() ==> failures == old(failures) && ((forall k :: Delivers(ArtifactOf(o, k))) ==> s.Works?)
    {
      ghost var ks: set<Kind> := {};
      ghost var content;
      s := Works;
      if p.shell {
        ghost var before := files;
        s, content := Download(o, directory, ShellZip);
        if !s.Works? { return; }
        StoredNext(ShelfOf(fold, sha, o, directory), ks, before, ShellZip, content);
        ks := ks + {ShellZip};
      }
      if p.napCat {
        ghost var before := files;
        s, content := Download(o, directory, NapCatInstaller);
        if !s.Works? { return; }
        StoredNext(ShelfOf(fold, sha, o, directory), ks, before, NapCatInstaller, content);
        ks := ks + {NapCatInstaller};
      }
      if p.asr {
        ghost var before := files;
        s, content := Download(o, directory, AsrInstaller);
        if !s.Works? { return; }
        StoredNext(ShelfOf(fold, sha, o, directory), ks, before, AsrInstaller, content);
        ks := ks + {AsrInstaller};
      }
      assert ks == Named(p);
    }

    /** The release is staged before its identity is compared. */
    method Stage(code: string) returns (s: Step)
      modifies this`staged, this`clock, this`failures, this`last
      ensures s.Works? ==> code in staged
      ensures old(staged) <= staged
      ensures if s.Works? then failures == old(failures) && clock == old(clock) + 2 else StoppedAt(old(failures), s)
      ensures NothingFails() ==> failures == old(failures)
    {
      s := Try();
      if !s.Works? { return; }
      staged := staged + {code};
      s := Try();
    }

    function Ended(s: Step): Outcome {
      if s.Dies? then Died else Failed
    }

    /** Everything the plan needs, then the plan itself, by a rename. */
    method Prepare(o: Offer, code: Code, directory: nat, p: Plan) returns (r: Outcome)
      requires Sound() && (forall f :: f in files ==> f.0 != directory)
      modifies this`files, this`staged, this`plan, this`clock, this`failures, this`last
      ensures Sound() && old(staged) <= staged
      ensures r == Planned(code) || r.Failed? || r.Died?
      ensures plan == if r.Planned? then Some(Todo(o, directory, p)) else old(plan)
      ensures forall f :: f in old(files) ==> f in files && files[f] == old(files)[f]
      // Every step it takes must work; otherwise it ends as the step did, or for an archive that is not the one described.
      ensures r.Planned? ==> failures == old(failures)
      ensures !r.Planned? ==> (failures == old(failures) + 1 && !last.Works? && r == Ended(last)) || (r.Failed? && failures == old(failures))
      ensures NothingFails() ==> failures == old(failures) && ((forall k :: Delivers(ArtifactOf(o, k))) ==> r.Planned?)
    {
      var s := Try();  // the copy of the catalog
      if !s.Works? { return Ended(s); }
      ghost var before := files;
      s := DownloadAll(o, directory, p);
      if plan.Some? {
        StoredElsewhere(ShelfOf(fold, sha, plan.value.offer, plan.value.directory), Named(plan.value.plan), before, files);
      }
      if !s.Works? { return Ended(s); }
      if p.code.Some? {
        s := Stage(p.code.value);
        if !s.Works? { return Ended(s); }
      }
      s := Try();  // the plan is written beside its place
      if !s.Works? { return Ended(s); }
      s := Try();  // and renamed
      if !s.Works? { return Ended(s); }
      plan := Some(Todo(o, directory, p));
      r := Planned(code);
    }

    /** A new runtime: the full installer is downloaded and started, and no plan is written. */
    method Upgrade(code: Code) returns (r: Outcome)
      modifies this`clock, this`failures, this`last
      ensures r.Upgrading? || r.Declined? || r.Failed? || r.Died?
      ensures r.Upgrading? ==> r.code == code && (exists n :: installers(n) == Some(r.install))
                               && r.install.version == code.version && r.install.runtimeId == code.runtimeId
      ensures (r.Declined? ==> exists n :: !agrees(n)) && (r.Upgrading? ==> exists n :: agrees(n))
      ensures r.Upgrading? || r.Declined? ==> failures == old(failures)
      ensures r.Upgrading? ==> clock == old(clock) + 3
      ensures r.Died? ==> failures > old(failures)
      ensures NothingFails() ==> failures == old(failures)
      ensures failures > old(failures) ==> failures == old(failures) + 1 && !last.Works? && r == Ended(last)
      ensures forall install, agreed :: NothingFails() && Answers(agreed) && (forall n :: installers(n) == Some(install)) ==>
                r == if install.version != code.version || install.runtimeId != code.runtimeId then Failed
                     else if agreed then Upgrading(code, install) else Declined
    {
      var install := installers(clock);
      var s := Try();
      if !s.Works? { return Ended(s); }
      if install.None? || install.value.version != code.version || install.value.runtimeId != code.runtimeId { return Failed; }
      if !agrees(clock) { return Declined; }
      s := Try();  // the installer's archive
      if !s.Works? { return Ended(s); }
      s := Try();  // the launch
      r := if s.Works? then Upgrading(code, install.value) else Ended(s);
    }

    /** The two documents, of one version. */
    method Read() returns (s: Step, read: Option<(Offer, Code)>)
      modifies this`clock, this`failures, this`last
      ensures s.Works? ==> read.Some? && read.value.0.version == read.value.1.version
      ensures s.Works? ==> (exists n :: offers(n) == Some(read.value.0)) && (exists n :: codes(n) == Some(read.value.1))
      // The settings are asked only where no recogniser is installed.
      ensures s.Works? ==> failures == old(failures) && clock == old(clock) + if local.installed.asr.None? then 3 else 2
      ensures !s.Works? ==> StoppedAt(old(failures), s) || (s.Fails? && failures == old(failures))
      ensures NothingFails() ==> failures == old(failures)
      ensures forall o, code, install :: Serves(o, code, install) ==>
                s == (if o.version == code.version then Works else Fails) && (s.Works? ==> read == Some((o, code)))
    {
      read := None;
      var offer := offers(clock);
      s := Try();
      if !s.Works? { return; }
      if offer.None? { return Fails, None; }
      if local.installed.asr.None? {
        s := Try();  // the settings are asked for the recogniser in use
        if !s.Works? { return; }
      }
      var latest := codes(clock);
      s := Try();
      if !s.Works? { return; }
      if latest.None? || latest.value.version != offer.value.version { return Fails, None; }
      read := Some((offer.value, latest.value));
    }

    method Look(directory: nat) returns (r: Outcome)
      requires Sound() && (forall f :: f in files ==> f.0 != directory) && busy
      modifies this`files, this`staged, this`plan, this`clock, this`failures, this`last
      ensures Sound() && old(staged) <= staged && !r.Busy?
      ensures Asked(r, old(failures))
      ensures r.Declined? || r.Current? ==> files == old(files) && staged == old(staged)
      ensures !r.Planned? ==> plan == old(plan)
      ensures r.Planned? ==> plan.Some? && plan.value.directory == directory
      ensures Founded(r)
      ensures Answers(false) ==> !r.Planned? && !r.Upgrading? && files == old(files) && staged == old(staged)
      ensures forall f :: f in old(files) ==> f in files && files[f] == old(files)[f]
      ensures forall o, code, install, agreed :: Serves(o, code, install) && Answers(agreed) ==>
                r == Expected(o, code, install, runtime, local, agreed)
    {
      var s, read := Read();
      if !s.Works? { return Ended(s); }
      r := Decide(read.value.0, read.value.1, directory);
    }

    /** What the documents say is due, if the user agrees. */
    method Decide(o: Offer, code: Code, directory: nat) returns (r: Outcome)
      requires Sound() && (forall f :: f in files ==> f.0 != directory) && o.version == code.version
      requires (exists n :: codes(n) == Some(code)) && (exists n :: offers(n) == Some(o))
      modifies this`files, this`staged, this`plan, this`clock, this`failures, this`last
      ensures Sound() && old(staged) <= staged && !r.Busy?
      ensures Asked(r, old(failures))
      ensures r.Declined? || r.Current? ==> files == old(files) && staged == old(staged)
      ensures !r.Planned? ==> plan == old(plan)
      ensures r.Planned? ==> plan.Some? && plan.value.directory == directory
      ensures Founded(r)
      ensures Answers(false) ==> !r.Planned? && !r.Upgrading? && files == old(files) && staged == old(staged)
      ensures forall f :: f in old(files) ==> f in files && files[f] == old(files)[f]
      ensures NothingFails() ==> failures == old(failures)
      ensures forall install, agreed :: Serves(o, code, install) && Answers(agreed) ==>
                r == Expected(o, code, install, runtime, local, agreed)
    {
      var p := PlanOf(o.announced, code.releaseId, local);
      if p.code.Some? && code.runtimeId != runtime {
        r := Upgrade(code);
        return;
      }
      if !p.shell && !p.napCat && !p.asr && p.code.None? { return Current; }
      if !agrees(clock) { return Declined; }
      r := Prepare(o, code, directory, p);
    }

    /** The plan is what was due, of documents of one version and for the runtime installed. */
    ghost predicate Fits(t: Todo, code: Code)
      reads this
    {
      && code.version == t.offer.version && t.plan == PlanOf(t.offer.announced, code.releaseId, local)
      && !UpToDate(t.offer.announced, code.releaseId, local)
      && (t.plan.code.Some? ==> code.runtimeId == runtime)
    }

    /** One check, into a new directory. */
    method Check(directory: nat) returns (r: Outcome)
      requires Sound() && (forall f :: f in files ==> f.0 != directory)
      modifies this`files, this`staged, this`plan, this`busy, this`clock, this`failures, this`last
      // Whatever fails: the plan on disk is the old one or a complete new one, and nothing stored before is touched.
      ensures Sound() && old(staged) <= staged
      ensures forall f :: f in old(files) ==> f in files && files[f] == old(files)[f]
      ensures !r.Planned? ==> plan == old(plan)
      ensures r.Planned? ==> plan.Some? && plan.value.directory == directory
      // What is planned or started rests on documents that were read and go together.
      ensures Founded(r)
      ensures r.Planned? ==> (Verified() <==> Apart(ShelfOf(fold, sha, plan.value.offer, directory), Named(plan.value.plan)))
      ensures r.Busy? <==> old(busy)
      // Whatever it ends in takes every step to have worked, but for a failure, which is the last step's or that of what was read.
      ensures !old(busy) ==> Asked(r, old(failures))
      ensures r.Declined? || r.Current? ==> files == old(files) && staged == old(staged)
      ensures !r.Died? ==> busy == old(busy)
      // Against the user's will nothing is downloaded, staged, planned or started.
      ensures Answers(false) ==> !r.Planned? && !r.Upgrading? && files == old(files) && staged == old(staged)
      // Undisturbed, it ends as the documents, the installation and the user say.
      ensures forall o, code, install, agreed :: Serves(o, code, install) && Answers(agreed) && !old(busy) ==>
                r == Expected(o, code, install, runtime, local, agreed)
    {
      if busy { return Busy; }
      busy := true;
      r := Look(directory);
      if !r.Died? { busy := false; }
      if r.Planned? { VerifiedIffApart(ShelfOf(fold, sha, plan.value.offer, directory), Named(plan.value.plan), files); }
    }
  }

  lemma {:induction false} ConcatOfPrefix(pieces: seq<Bytes>, i: nat)
    requires i <= |pieces|
    ensures |Concat(pieces[..i])| <= |Concat(pieces)|
    decreases |pieces|
  {
    if i < |pieces| {
      assert pieces[..|pieces| - 1][..i] == pieces[..i];
      ConcatOfPrefix(pieces[..|pieces| - 1], i);
    } else {
      assert pieces[..i] == pieces;
    }
  }

  // ---- what comes of a plan ----

  /** The archive of this component carries the id announced for it. */
  predicate Carried(c: Catalog, a: Archives, k: Kind) {
    if k.ShellZip? then Carries(c, a) else Matches(c, a, k)
  }

  /** A plan of what is due has pending exactly what is due. */
  lemma DueIsPending(c: Catalog, code: string, l: Local, k: Kind)
    ensures IsPending(c, PlanOf(c, code, l), l.installed, k) <==> Due(c, l, k)
    ensures CodePending(PlanOf(c, code, l), l.installed) <==> l.installed.release != code
  {
  }

  /** What the installation has become; the QQ installer leaves its id beside the component. */
  function After(l: Local, a: Archives, t: State): Local {
    l.(installed := t.installed, pair := if NapCatInstaller in t.launches then Some(a.napCat) else l.pair)
  }

  function PendingKinds(c: Catalog, plan: Plan, i: Installed): seq<Kind> {
    (if IsPending(c, plan, i, ShellZip) then [ShellZip] else []) +
    (if IsPending(c, plan, i, NapCatInstaller) then [NapCatInstaller] else []) +
    (if IsPending(c, plan, i, AsrInstaller) then [AsrInstaller] else [])
  }

  function Installing(c: Catalog, a: Archives, plan: Plan, i: Installed): Installed {
    Installed(if IsPending(c, plan, i, ShellZip) then a.shell else i.shell,
              if IsPending(c, plan, i, NapCatInstaller) then Some(c.napCat) else i.napCat,
              if IsPending(c, plan, i, AsrInstaller) then Some(a.asr) else i.asr,
              if CodePending(plan, i) then plan.code.value else i.release)
  }

  ghost predicate AllCarried(c: Catalog, a: Archives, plan: Plan, i: Installed) {
    forall k :: IsPending(c, plan, i, k) ==> Carried(c, a, k)
  }

  /** With no step failing, the plan installs what is pending, in order, and switches the release. */
  lemma {:induction false} FinishingInstalls(c: Catalog, a: Archives, s: State, n: nat)
    requires s.plan.Some? && n >= Measure(c, s) && AllCarried(c, a, s.plan.value, s.installed)
    ensures Run(c, a, s, Finishing(n)) ==
            State(None, Installing(c, a, s.plan.value, s.installed), s.launches + PendingKinds(c, s.plan.value, s.installed))
    decreases n
  {
    var t := Restart(c, a, s, Finishes);
    assert Finishing(n)[1..] == Finishing(n - 1);
    if t.plan.Some? {
      FinishingInstalls(c, a, t, n - 1);
    } else {
      OverIsOver(c, a, t, Finishing(n - 1));
    }
  }

  lemma {:induction false} OverIsOver(c: Catalog, a: Archives, s: State, es: seq<PendingPlans.Ending>)
    requires s.plan.None?
    ensures Run(c, a, s, es) == s
    decreases |es|
  {
    if es != [] { OverIsOver(c, a, s, es[1..]); }
  }

  /** The component is as it was, or what its archive with another id left of it. */
  predicate Unsettled(c: Catalog, a: Archives, before: Installed, i: Installed, k: Kind) {
    match k
    case ShellZip => ShellDiffers(c, i.shell)
    case NapCatInstaller => i.napCat == before.napCat
    case AsrInstaller => i.asr == before.asr || i.asr == Some(a.asr)
  }

  lemma {:induction false} StaysUnsettled(c: Catalog, a: Archives, before: Installed, s: State, es: seq<PendingPlans.Ending>, k: Kind)
    requires !Carried(c, a, k) && Unsettled(c, a, before, s.installed, k)
    ensures Unsettled(c, a, before, Run(c, a, s, es).installed, k)
    decreases |es|
  {
    if es != [] { StaysUnsettled(c, a, before, Restart(c, a, s, es[0]), es[1..], k); }
  }

  /** A recogniser that is neither installed nor selected is not installed, whatever the catalog offers and however the starts end. */
  lemma UnwantedStaysAway(c: Catalog, a: Archives, code: string, l: Local, es: seq<PendingPlans.Ending>)
    requires l.installed.asr.None? && !l.asrSelected
    ensures var t := Run(c, a, State(Some(PlanOf(c, code, l)), l.installed, []), es);
      t.installed.asr.None? && AsrInstaller !in t.launches
  {
    UnplannedStaysAway(c, a, State(Some(PlanOf(c, code, l)), l.installed, []), es);
  }

  lemma {:induction false} UnplannedStaysAway(c: Catalog, a: Archives, s: State, es: seq<PendingPlans.Ending>)
    requires (s.plan.Some? ==> !s.plan.value.asr) && s.installed.asr.None? && AsrInstaller !in s.launches
    ensures Run(c, a, s, es).installed.asr.None? && AsrInstaller !in Run(c, a, s, es).launches
    decreases |es|
  {
    if es != [] { UnplannedStaysAway(c, a, Restart(c, a, s, es[0]), es[1..]); }
  }

  /** A due component whose archive carries another id is due again after any starts, however they end. */
  lemma MismatchStaysDue(c: Catalog, a: Archives, code: string, l: Local, es: seq<PendingPlans.Ending>, k: Kind)
    requires Due(c, l, k) && !Carried(c, a, k)
    ensures Due(c, After(l, a, Run(c, a, State(Some(PlanOf(c, code, l)), l.installed, []), es)), k)
  {
    StaysUnsettled(c, a, l.installed, State(Some(PlanOf(c, code, l)), l.installed, []), es, k);
  }

  /**
   After enough starts at which no step fails the next check finds nothing to do, if and only if every archive
   due carried the id announced for it.
   */
  lemma NothingDueIff(c: Catalog, a: Archives, code: string, l: Local)
    ensures var s := State(Some(PlanOf(c, code, l)), l.installed, []);
      (exists n: nat :: UpToDate(c, code, After(l, a, Run(c, a, s, Finishing(n))))) <==> forall k :: Due(c, l, k) ==> Carried(c, a, k)
  {
    var s := State(Some(PlanOf(c, code, l)), l.installed, []);
    forall k ensures IsPending(c, PlanOf(c, code, l), l.installed, k) <==> Due(c, l, k) { DueIsPending(c, code, l, k); }
    if forall k :: Due(c, l, k) ==> Carried(c, a, k) {
      FinishingInstalls(c, a, s, Measure(c, s));
      assert UpToDate(c, code, After(l, a, Run(c, a, s, Finishing(Measure(c, s)))));
    } else {
      var k :| Due(c, l, k) && !Carried(c, a, k);
      forall n: nat ensures !UpToDate(c, code, After(l, a, Run(c, a, s, Finishing(n)))) {
        MismatchStaysDue(c, a, code, l, Finishing(n), k);
      }
    }
  }

  /** Four starts are enough, and the installers launched are those of the components due, in order. */
  lemma FourStartsUpdate(c: Catalog, a: Archives, code: string, l: Local)
    requires forall k :: Due(c, l, k) ==> Carried(c, a, k)
    ensures var p := PlanOf(c, code, l);
      var t := Run(c, a, State(Some(p), l.installed, []), Finishing(4));
      t.plan.None? && UpToDate(c, code, After(l, a, t)) && t.launches == PendingKinds(c, p, l.installed)
  {
    var s := State(Some(PlanOf(c, code, l)), l.installed, []);
    forall k ensures IsPending(c, PlanOf(c, code, l), l.installed, k) <==> Due(c, l, k) { DueIsPending(c, code, l, k); }
    FinishingInstalls(c, a, s, 4);
  }
}
