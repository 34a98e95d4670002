/**
 For each property the code does not keep, one concrete input at which it fails.

 The exact conditions are proved where the code is modelled; here they are evaluated.  The
 methods call the modelled code on a concrete disk or store.
 */
module Counterexamples {
  import opened Wrappers
  import Paths
  import Disks
  import Archives
  import AudioRoute
  import Channels
  import ChatMerges
  import CodeSwitch
  import CxxStrings
  import Downloader
  import LiveLogs
  import PendingPlans
  import Publishing
  import ReleaseStores
  import ShellApply
  import ShellPackages
  import Snapshots
  import Timelines
  import UpdateChecks
  import Witnesses

  // ---- messages ----

  /** "a", an empty line, "b": accepted as a string, refused as the message it became. */
  lemma BlankLineInAString()
    ensures var once := Channels.Normalize(Channels.JStr("a\n\nb"), Witnesses.SomeStr);
      once.Ok? && Channels.Normalize(once.value, Witnesses.SomeStr) == Err(Channels.BlankLines)
  {
    var text := "a\n\nb";
    assert Channels.Trimmed(text);
    Channels.TrimmedStays(text);
    assert Channels.BlankBetween(text, 1, 2);
    assert Channels.HasBlankLine(text);
    Channels.StringTwice(text, Witnesses.SomeStr);
  }

  // ---- the timeline ----

  /** One call that took a second and has no readable time: no stretch of time is tiled. */
  lemma CallWithoutATime()
    ensures var g := Timelines.TrajectoryGroup([Timelines.Call(None, 0.0, 1000.0, 0)], []);
      !Timelines.Continuous(Timelines.SegmentsOf(g), g.start)
  {
    var c := Timelines.Call(None, 0.0, 1000.0, 0);
    assert Timelines.Sort([c]) == [c];
    var steps := Timelines.StepsOf([c]);
    var times: seq<Option<real>> := [None];
    assert [] + Timelines.StartsOf(steps) == times && Timelines.Known(times) == [];
    assert c in [c] && Timelines.Undated([c]);
    Timelines.TimelineTiles([c], []);
  }

  // ---- the plan ----

  /** A catalog that announces build "b" of 2.0.0 and a shell archive that carries build "a". */
  lemma ArchiveOfAnotherBuild(n: nat)
    ensures var v := PendingPlans.Version(2, 0, 0);
      var c := PendingPlans.Catalog(PendingPlans.Identity(v, "b"), "q", None);
      var a := PendingPlans.Archives(PendingPlans.Identity(v, "a"), "q", "s");
      var i := PendingPlans.Installed(PendingPlans.Identity(PendingPlans.Version(1, 0, 0), "a"), Some("q"), None, "r");
      var s := PendingPlans.State(Some(PendingPlans.Plan(true, false, false, None)), i, []);
      var t := PendingPlans.Run(c, a, s, PendingPlans.Finishing(n));
      t.plan.Some? && |t.launches| == n
  {
    var v := PendingPlans.Version(2, 0, 0);
    var c := PendingPlans.Catalog(PendingPlans.Identity(v, "b"), "q", None);
    var a := PendingPlans.Archives(PendingPlans.Identity(v, "a"), "q", "s");
    var i := PendingPlans.Installed(PendingPlans.Identity(PendingPlans.Version(1, 0, 0), "a"), Some("q"), None, "r");
    PendingPlans.WrongIdentityLoops(c, a, PendingPlans.State(Some(PendingPlans.Plan(true, false, false, None)), i, []), n);
  }

  // ---- the check ----

  function TwoInstallers(version: string, napCat: string, asr: string, x: string, y: string): UpdateChecks.Offer {
    var shell := PendingPlans.Identity(PendingPlans.Version(2, 0, 0), x);
    UpdateChecks.Offer(version, PendingPlans.Catalog(shell, napCat, Some(asr)),
                       UpdateChecks.Artifact(1, x), UpdateChecks.Artifact(1, x), UpdateChecks.Artifact(1, y))
  }

  /** An installation with the announced shell and release, without the two components, which the settings ask for. */
  function WithoutComponents(o: UpdateChecks.Offer, release: string): UpdateChecks.Local {
    UpdateChecks.Local(PendingPlans.Installed(o.announced.shell, None, None, release), None, true)
  }

  /** One byte has the one hash, all else the other. */
  function OneOfTwo(x: string, y: string): Bytes -> string {
    b => if b == [1] then x else y
  }

  /** The one byte for the one hash, another for the other. */
  function Byte(x: string): (nat, UpdateChecks.Artifact) -> seq<Bytes> {
    (_, a: UpdateChecks.Artifact) => [[if a.sha256 == x then 1 else 2]]
  }

  lemma BytesAreRight(o: UpdateChecks.Offer, n: nat, k: PendingPlans.Kind, x: string, y: string)
    requires x != y && UpdateChecks.ArtifactOf(o, k) in {UpdateChecks.Artifact(1, x), UpdateChecks.Artifact(1, y)}
    ensures var a := UpdateChecks.ArtifactOf(o, k); UpdateChecks.IsVerified(OneOfTwo(x, y), a, UpdateChecks.Concat(Byte(x)(n, a)))
  {
    var byte: Bytes := [if UpdateChecks.ArtifactOf(o, k).sha256 == x then 1 else 2];
    assert [byte][..0] == [] && UpdateChecks.Concat([byte]) == [] + byte;
    assert byte[0] == 1 <==> byte == [1];
  }

  lemma InstallersApart(t: UpdateChecks.Todo, sha: Bytes -> string, version: string, napCat: string, asr: string, x: string, y: string)
    requires t.offer == TwoInstallers(version, napCat, asr, x, y) && t.plan == PendingPlans.Plan(false, true, true, None) && x != y
    ensures UpdateChecks.Apart(UpdateChecks.ShelfOf(Witnesses.Plain(), sha, t.offer, t.directory), UpdateChecks.Named(t.plan)) <==> napCat != asr
  {
    UpdateChecks.ApartIff(Witnesses.Plain(), sha, t);
    Witnesses.PlainNames(napCat);
    Witnesses.PlainNames(asr);
  }

  /** A check that finds both installers due: what it leaves is verified unless they have one id. */
  method CheckBoth(napCat: string, asr: string, x: string, y: string, code: UpdateChecks.Code) returns (u: UpdateChecks.Updates)
    requires napCat != "" && x != y
    ensures u.plan.Some? && u.plan.value.plan == PendingPlans.Plan(false, true, true, None)
    ensures u.Verified() <==> napCat != asr
  {
    var o := TwoInstallers(code.version, napCat, asr, x, y);
    u := new UpdateChecks.Updates(
      Witnesses.Plain(), OneOfTwo(x, y), code.runtimeId, _ => PendingPlans.Works, _ => Some(o), _ => Some(code), _ => Some(code),
      Byte(x), _ => true, WithoutComponents(o, code.releaseId), {});
    forall n, k
      ensures var a := UpdateChecks.ArtifactOf(o, k); UpdateChecks.IsVerified(u.sha, a, UpdateChecks.Concat(u.served(n, a)))
    {
      BytesAreRight(o, n, k, x, y);
    }
    assert u.Serves(o, code, code) && u.Answers(true);
    var r := u.Check(0);
    InstallersApart(u.plan.value, u.sha, code.version, napCat, asr, x, y);
  }

  /** Both installers under the id "x": the plan names an archive that is not the one the catalog describes. */
  method SharedFile() returns (u: UpdateChecks.Updates)
    ensures !u.Verified()
  {
    assert "a"[0] != "b"[0];
    u := CheckBoth("x", "x", "a", "b", UpdateChecks.Code("2", "r", "rt"));
  }

  // ---- the bucket ----

  /** The archive of the announced release is replaced by one other byte. */
  lemma ReusedKey()
    ensures var g := Witnesses.SomeSigner();
      var announced := g.signLatest(Publishing.Latest("1", "r", Publishing.Ref("k", g.sha([1]), 1)));
      var b: Publishing.Bucket := map[Publishing.LATEST := announced, "k" := [1]];
      Publishing.Consistent(g, b) && !Publishing.Consistent(g, b["k" := [2]])
  {
    Witnesses.SomeSignerIsSane();
    SignerWithReusedKey(Witnesses.SomeSigner());
  }

  lemma SignerWithReusedKey(g: Publishing.Signer)
    requires g.Sane()
    ensures var announced := g.signLatest(Publishing.Latest("1", "r", Publishing.Ref("k", g.sha([1]), 1)));
      var b: Publishing.Bucket := map[Publishing.LATEST := announced, "k" := [1]];
      Publishing.Consistent(g, b) && !Publishing.Consistent(g, b["k" := [2]])
  {
    var r := Publishing.Ref("k", g.sha([1]), 1);
    var b: Publishing.Bucket := map[Publishing.LATEST := g.signLatest(Publishing.Latest("1", "r", r)), "k" := [1]];
    assert |"k"| == 1 && |Publishing.LATEST| == 19 && |Publishing.CATALOG| == 20;
    assert Publishing.LatestOf(g, b) == Some(Publishing.Latest("1", "r", r));
    assert Publishing.Live(g, b) == {r} && Publishing.Present(g, b, r);
    var one: Bytes, two: Bytes := [1], [2];
    assert one[0] != two[0];
    Publishing.UploadKeepsConsistencyIff(g, b, "k", two);
  }

  // ---- audio ----

  /** Routed from "old" to "new" under a backup. */
  function Routed(): AudioRoute.World {
    var own := seq(AudioRoute.SLOTS, _ => "old");
    var desired := seq(AudioRoute.SLOTS, _ => "new");
    AudioRoute.World(desired, Some(AudioRoute.Backup("QQ.exe", AudioRoute.Items(own, desired))), own)
  }

  /** The user picks the routed device itself: the restore will take it away. */
  lemma TheRoutedDeviceChosen()
    ensures AudioRoute.Shaped(Routed()) && AudioRoute.Settled(Routed())
    ensures var w := Routed(); !AudioRoute.Settled(w.(current := w.current[0 := "new"], own := w.own[0 := "new"]))
  {
    var w := Routed();
    assert "new"[0] != "old"[0];
    assert forall k :: 0 <= k < AudioRoute.SLOTS ==> w.backup.value.items[k] == AudioRoute.Preference(k, "old", "new");
    AudioRoute.UserChoiceSurvivesUnlessRouted(w, 0, "new");
  }

  /** The user picks "mine" after the value was recorded and before it is overwritten: the choice is lost. */
  lemma AChoiceBetweenReadingAndWriting()
    ensures var own := seq(AudioRoute.SLOTS, _ => "old")[0 := "mine"];
      var w := Routed().(current := own, own := own);
      AudioRoute.Settled(w) && !AudioRoute.Settled(w.(current := w.current[0 := "new"]))
  {
    var own := seq(AudioRoute.SLOTS, _ => "old")[0 := "mine"];
    var w := Routed().(current := own, own := own);
    assert "mine"[0] != "new"[0] && "old"[0] != "new"[0] && "mine"[0] != "old"[0];
    assert forall k :: 0 <= k < AudioRoute.SLOTS ==> w.backup.value.items[k] == AudioRoute.Preference(k, "old", "new");
    AudioRoute.RoutingIsSafeIffRecordIsFresh(w, 0);
  }

  // ---- the log ----

  function Repeat<T>(n: nat, x: T): (xs: seq<T>)
    ensures |xs| == n
  {
    seq(n, _ => x)
  }

  /** One line more than the log holds, and the window misses the first. */
  lemma LinesBetweenTwoRefreshes()
    ensures var line := LiveLogs.Format("12:00:00.000", "QQ", "stdout", "ready");
      var stream := Repeat(LiveLogs.MAX_ENTRIES + 1, line);
      LiveLogs.Unread(stream, 0) != stream
  {
    TooManyLines(LiveLogs.Format("12:00:00.000", "QQ", "stdout", "ready"));
  }

  lemma TooManyLines(line: string)
    ensures LiveLogs.Unread(Repeat(LiveLogs.MAX_ENTRIES + 1, line), 0) != Repeat(LiveLogs.MAX_ENTRIES + 1, line)
  {
    var stream := Repeat(LiveLogs.MAX_ENTRIES + 1, line);
    assert stream[0..] == stream;
    LiveLogs.NothingMissedIffItFits(LiveLogs.View(stream, 0, [], "", 0, 0));
  }

  /** Only a source name of half a million characters, which no caller passes, pushes out its own line. */
  lemma OverlongSource(stamp: string, name: string, line: string)
    ensures LiveLogs.Trim([] + [LiveLogs.Format(stamp, Repeat(LiveLogs.MAX_CHARACTERS, 's'), name, line)]) == []
  {
    LiveLogs.LineIsKept([], stamp, Repeat(LiveLogs.MAX_CHARACTERS, 's'), name, line);
  }

  // ---- string records ----

  /** A long record of length zero: the copier returns the empty string, the reader rejects it. */
  lemma LongEmptyString(memory: CxxStrings.Memory)
    ensures var raw := CxxStrings.Encode(1, 8) + CxxStrings.Encode(0, 8) + CxxStrings.Encode(0x1000, 8);
      CxxStrings.CopyOf(raw, memory) == Some([]) && CxxStrings.ReadOf(raw, memory, 4096).None?
  {
    CxxStrings.WordRoundTrip(0);
    CxxStrings.WordRoundTrip(0x1000);
    CxxStrings.LowByte(1, 8);
    LongEmptyRecord(CxxStrings.Encode(1, 8), CxxStrings.Encode(0, 8), CxxStrings.Encode(0x1000, 8), memory);
  }

  lemma LongEmptyRecord(flag: Bytes, length: Bytes, pointer: Bytes, memory: CxxStrings.Memory)
    requires |flag| == |length| == |pointer| == 8 && flag[0] == 1
    requires CxxStrings.Decode(length) == 0 && CxxStrings.Decode(pointer) == 0x1000
    ensures CxxStrings.CopyOf(flag + length + pointer, memory) == Some([]) && CxxStrings.ReadOf(flag + length + pointer, memory, 4096).None?
  {
    var raw := flag + length + pointer;
    CxxStrings.ThreeWords(flag, length, pointer, raw);
    CxxStrings.ReadersAgree(raw, memory, 4096);
  }

  // ---- chat pages ----

  /** Two pages with different records of one id: the last one merged wins. */
  lemma PagesThatDisagree()
    ensures var a, b := ChatMerges.Record([1], 0.0, "a"), ChatMerges.Record([1], 0.0, "b");
      ChatMerges.Screen([[a], [b]]) != ChatMerges.Screen([[b], [a]])
  {
    var a, b := ChatMerges.Record([1], 0.0, "a"), ChatMerges.Record([1], 0.0, "b");
    assert "a"[0] != "b"[0];
    OneThenTheOther(a, b);
    OneThenTheOther(b, a);
    assert ChatMerges.Latest([a, b], b) && !ChatMerges.Latest([b, a], b);
    ChatMerges.PagesConvergeIff([[a], [b]], [[b], [a]]);
  }

  lemma OneThenTheOther(a: ChatMerges.Record, b: ChatMerges.Record)
    requires a != b && a.id == b.id
    ensures ChatMerges.Concat([[a], [b]]) == [a, b]
    ensures ChatMerges.Latest([a, b], b) && !ChatMerges.Latest([a, b], a)
  {
    assert [[a], [b]][..1] == [[a]] && [[a]][..0] == [];
    assert ChatMerges.Concat([[a]]) == [] + [a] == [a];
    assert [a, b][1] == b;
  }

  // ---- the shell ----

  /** An installation in `app`, with one file to update and the code's own place for its temporary. */
  function App(name: string): ShellApply.Layout {
    var l := ShellApply.Layout(Witnesses.Plain(), ["app"], ["app", "data", "p"], ["app", "data", "b"], []);
    l.(temporaries := l.Temporaries([ShellApply.Entry(name, "h")], ["x"]))
  }

  predicate IsFileName(name: string) {
    && |name| > 8 && '/' !in name && '\\' !in name && ':' !in name
    && name[|name| - 1] != '.' && name[|name| - 1] != ' '
  }

  lemma AppFiles(name: string)
    requires IsFileName(name)
    ensures var l := App(name);
      && l.Admits(name) && l.Target(name) == ["app", name] && l.Backup(name) == ["app", "data", "b", name]
      && l.Payload(name) == ["app", "data", "p", "payload", name]
      && l.temporaries == [["app", name + ".update-" + "x"]]
  {
    var l, beside := App(name), name + ".update-" + "x";
    PlainFile(name);
    PlainFile(beside);
    PlainWord("data");
    PlainWord("payload");
    PlainWord("runtime");
    PlainWord("models");
    PlainWord("releases");
    Paths.SafeNameStaysBelow(l.fold, l.install, name);
    Paths.SafeNameStaysBelow(l.fold, l.backup, name);
    Paths.SafeNameStaysBelow(l.fold, l.package + ["payload"], name);
    Paths.SafeNameStaysBelow(l.fold, l.install, beside);
    assert l.Temporary(name, "x") == ["app"] + [beside] == ["app", beside];
    assert l.temporaries == [l.Temporary(name, "x")];
  }

  lemma PlainWord(word: string)
    ensures Paths.FoldName(Witnesses.Plain(), word) == word
  {
  }

  lemma PlainFile(name: string)
    requires IsFileName(name)
    ensures Paths.IsSafe(name) && Paths.Split(name, '/') == [name] && Paths.Parts(Witnesses.Plain(), name) == [name]
    ensures Paths.FoldName(Witnesses.Plain(), name) == name
  {
    Paths.OnePart(name);
    Witnesses.PlainParts(name);
  }

  lemma AppIsSound(name: string)
    requires IsFileName(name)
    ensures App(name).Sound([ShellApply.Entry(name, "h")])
  {
    var l, es, tags := App(name), [ShellApply.Entry(name, "h")], ["x"];
    Witnesses.PlainKeepsMarks();
    PlainWord("data");
    assert l.backup[..1] == l.install && l.package[..1] == l.install;
    assert |l.Named(name)| == |name| && |l.Named(name + ShellApply.SUFFIX + "x")| == |name| + 9;
    ShellApply.OwnLayoutIsSound(l, es, tags);
  }

  lemma AppDirectories(l: ShellApply.Layout)
    requires l.fold == Witnesses.Plain() && l.install == ["app"] && l.package == ["app", "data", "p"] && l.backup == ["app", "data", "b"]
    ensures l.Based() && l.InData(l.package) && !Paths.Nested(l.backup, l.package) && l.backup != l.package
  {
    Witnesses.PlainKeepsMarks();
    PlainWord("data");
    assert l.backup[..1] == l.install && l.package[..1] == l.install;
    assert l.backup[2] == "b" && l.package[2] == "p";
  }

  lemma NovelTag(l: ShellApply.Layout, name: string, tags: seq<string>)
    requires l.fold == Witnesses.Plain() && |tags| > 0 && tags[0] == "x"
    ensures ShellApply.Novel(l, [ShellApply.Entry(name, "h")], tags)
  {
    assert |l.Named(name)| == |name| && |l.Named(name + ShellApply.SUFFIX + "x")| == |name| + 9;
  }

  function OneFile(name: string): ShellPackages.Rules {
    ShellPackages.ShellRules(App(name), _ => "h", _ => Some([ShellApply.Entry(name, "h")]))
  }

  /** Whatever archive of one file an existing installation is given, it is prepared for it. */
  lemma SomeInstallationIsPrepared(name: string, zip: seq<Archives.ZipEntry>)
    requires IsFileName(name)
    ensures ShellPackages.Proper(OneFile(name))
    ensures ShellPackages.Prepared(OneFile(name), zip, Repeat(Archives.MAX_ENTRIES, "x"), map[["app", name] := [1]])
  {
    var l, es, tags := App(name), [ShellApply.Entry(name, "h")], Repeat(Archives.MAX_ENTRIES, "x");
    Witnesses.PlainKeepsMarks();
    ShellPackages.ShellRulesAreProper(l, _ => "h", _ => Some([ShellApply.Entry(name, "h")]));
    OneFileIsPrepared(OneFile(name), name, zip, tags);
  }

  lemma OneFileIsPrepared(r: ShellPackages.Rules, name: string, zip: seq<Archives.ZipEntry>, tags: seq<string>)
    requires IsFileName(name) && r.l == App(name) && forall b :: r.parse(b) == Some([ShellApply.Entry(name, "h")])
    requires |tags| >= Archives.MAX_ENTRIES && tags[0] == "x" && forall tag :: tag in tags ==> Paths.IsTail(tag)
    ensures ShellPackages.Prepared(r, zip, tags, map[["app", name] := [1]])
  {
    var es, f := [ShellApply.Entry(name, "h")], map[["app", name] := [1]];
    AppDirectories(r.l);
    NovelTag(ShellPackages.LayoutFor(r, es, tags), name, tags);
    OneTemporary(r.l, name, tags, f);
    forall other: seq<ShellApply.Entry> | ShellPackages.ManifestOf(r, zip) == Some(other) ensures other == es {}
    ShellPackages.OwnLayoutIsPrepared(r, zip, tags, f);
  }

  lemma OneTemporary(l: ShellApply.Layout, name: string, tags: seq<string>, f: Disks.Files)
    requires IsFileName(name) && l == App(name) && |tags| > 0 && tags[0] == "x" && f == map[["app", name] := [1]]
    ensures forall t :: t in l.Temporaries([ShellApply.Entry(name, "h")], tags) ==> t !in f
    ensures forall p :: p in f ==> !Paths.Under(l.package, p) && !Paths.Under(l.backup, p)
  {
    AppFiles(name);
    var t := l.Temporary(name, "x");
    assert l.temporaries == [t];
    assert t == ["app", name + ".update-" + "x"] && |t[1]| > |name|;
  }

  /** An update of one file that was not there: nothing fails, and it is rolled back, with nothing left of it. */
  method FreshInstall() returns (r: ShellApply.Outcome, disk: Disks.Disk)
    ensures r == ShellApply.RolledBack(0, false, false)
    ensures disk.files == Downloaded(map[], "Momoi.exe")
  {
    r, disk := Update(map[], "Momoi.exe");
  }

  /** The same update where the file was there is applied. */
  method SecondInstall() returns (r: ShellApply.Outcome)
    ensures r.Applied?
  {
    r := UpdateOver("Momoi.exe");
  }

  method UpdateOver(name: string) returns (r: ShellApply.Outcome)
    requires IsFileName(name)
    ensures r.Applied?
  {
    var disk;
    r, disk := Update(map[["app", name] := [1]], name);
  }

  /** The new file of an update in its package, beside what is installed. */
  function Downloaded(installed: Disks.Files, name: string): Disks.Files {
    installed[App(name).Payload(name) := [7]]
  }

  method Update(installed: Disks.Files, name: string) returns (r: ShellApply.Outcome, disk: Disks.Disk)
    requires IsFileName(name) && forall p :: p in installed ==> p == ["app", name]
    ensures r.Applied? <==> ["app", name] in installed
    ensures !r.Applied? ==> r == ShellApply.RolledBack(0, false, false) && disk.files == Downloaded(installed, name)
  {
    AppFiles(name);
    AppIsSound(name);
    var l := App(name);
    var es := [ShellApply.Entry(name, "h")];
    disk := new Disks.Disk(Downloaded(installed, name), _ => Disks.Fine);
    ghost var before := disk.files;
    UnusedSoFar(l, name, before);
    r := ShellApply.ApplyShell(disk, l, _ => "h", _ => [], es, ["x"]);
    NoFailures(disk.faults, Disks.IsFine, 0, disk.clock);
    assert l.Checked(before, _ => "h", es[0]);
    assert ShellApply.Replaces(l, es, before) <==> ["app", name] in installed by { assert es[0] in es; }
    if r.RolledBack? { NothingLeft(l, es, before, disk.files); }
  }

  /** Nothing was saved, and every other file is back: the disk is what it was. */
  lemma NothingLeft(l: ShellApply.Layout, es: seq<ShellApply.Entry>, before: Disks.Files, after: Disks.Files)
    requires l.Unused(before) && !ShellApply.Replaces(l, es, before) && ShellApply.OnlyCopies(l, es, before, after, false)
    requires forall t :: t in l.temporaries ==> t !in after
    requires forall p :: !l.Scratch(p) ==> Same(after, before, p)
    ensures after == before
  {
    forall p ensures Same(after, before, p) { assert l.Scratch(p) ==> p !in before && p !in after; }
    assert after.Keys == before.Keys by { forall p ensures p in after <==> p in before { assert Same(after, before, p); } }
    assert forall p :: p in after ==> after[p] == before[p];
  }

  /** The process dies at the nth operation on the disk, for any n: the installed file is in place, or in the backup. */
  method DiesAt(n: nat, name: string) returns (disk: Disks.Disk)
    requires IsFileName(name) && name != "backup.json"
    ensures var p, saved := ["app", name], ["app", "data", "b", name];
      (p in disk.files && disk.files[p] == [1]) || (saved in disk.files && disk.files[saved] == [1])
  {
    AppFiles(name);
    AppIsSound(name);
    PlainWord("backup.json");
    var l, es := App(name), [ShellApply.Entry(name, "h")];
    disk := new Disks.Disk(map[["app", name] := [1], l.Payload(name) := [7]], k => if k < n then Disks.Fine else Disks.Refused);
    UnusedSoFar(l, name, disk.files);
    var r := ShellApply.ApplyShell(disk, l, _ => "h", _ => [], es, ["x"]);
    assert es[0] in es && l.RecordTwin()[1] == "backup.json" != l.Target(name)[1];
  }

  lemma UnusedSoFar(l: ShellApply.Layout, name: string, f: Disks.Files)
    requires IsFileName(name) && l == App(name) && forall p :: p in f ==> p == ["app", name] || p == l.Payload(name)
    ensures l.Unused(f)
  {
    AppFiles(name);
    assert |l.temporaries[0][1]| > |name|;
    assert l.Payload(name)[2] == "p" && l.backup[2] == "b";
    assert !Paths.Under(l.backup, l.Payload(name)) by { assert l.Payload(name)[..3][2] == "p"; }
  }

  /**
   A file named `backup.json` is replaced, and the record's write leaves nothing in its place: walking back
   over the one change loses that file.
   */
  lemma ReplacedBackupJson()
    ensures Spoiled("backup.json")
  {
    PlainWord("backup.json");
    ReplacedRecordName("backup.json");
  }

  ghost predicate Spoiled(name: string) {
    var l, es, target := App(name), [ShellApply.Entry(name, "h")], ["app", name];
    var before: Disks.Files := map[target := [1]];
    var c := ShellApply.Change(target, l.Record(), true);
    var f := before[l.Record() := [1]][target := [2]];
    && ShellApply.Placed(l, es, [c]) && ShellApply.Accounted(l, before, f, [c])
    && !(forall p :: !l.Scratch(p) ==> Same(ShellApply.Undo(f[l.Record() := []], [c]), before, p))
  }

  lemma ReplacedRecordName(name: string)
    requires IsFileName(name) && App(name).Named("backup.json") == name
    ensures Spoiled(name)
  {
    var l, es, target := App(name), [ShellApply.Entry(name, "h")], ["app", name];
    AppFiles(name);
    AppIsSound(name);
    var before: Disks.Files := map[target := [1]];
    assert l.Record() == ["app", "data", "b", name] && l.RecordTwin() == target;
    var c := ShellApply.Change(target, l.Record(), true);
    var f := before[l.Record() := [1]][target := [2]];
    forall p ensures ShellApply.First([c], p) == if p == target then Some(c) else None {
      assert [c][1..] == [];
    }
    assert Paths.Under(l.backup, l.Record()) by { assert l.Record()[..3] == l.backup; }
    ShellApply.RecordSpoilsItsTwin(l, es, before, f, [c], []);
  }

  /** The whole update from an archive: the file that was installed is the one the archive holds. */
  method ArchiveInstalls() returns (r: ShellApply.Outcome, disk: Disks.Disk)
    ensures r.Applied? && ["app", "Momoi.exe"] in disk.files && disk.files[["app", "Momoi.exe"]] == [7]
  {
    var name := "Momoi.exe";
    var rules := ShellPackages.ShellRules(App(name), OnlySeven, _ => Some([ShellApply.Entry(name, "h")]));
    Witnesses.PlainKeepsMarks();
    ShellPackages.ShellRulesAreProper(App(name), OnlySeven, rules.parse);
    assert rules.manifest[0] == 's' && rules.prefix[0] == 'p';
    r, disk := InstallArchive(rules, name);
  }

  function OnlySeven(b: Bytes): string { if b == [7] then "h" else "" }

  function OneFileArchive(r: ShellPackages.Rules, name: string): seq<Archives.ZipEntry> {
    [Archives.ZipEntry(r.manifest, false, 1, Some([0])), Archives.ZipEntry(r.prefix + name, false, 1, Some([7]))]
  }

  method InstallArchive(r: ShellPackages.Rules, name: string) returns (outcome: ShellApply.Outcome, disk: Disks.Disk)
    requires IsFileName(name) && r.l == App(name) && r.program == name && r.sha == OnlySeven && ShellPackages.Proper(r)
    requires r.manifest != "" && r.prefix != "" && r.manifest[0] != r.prefix[0] && forall b :: r.parse(b) == Some([ShellApply.Entry(name, "h")])
    ensures outcome.Applied? && ["app", name] in disk.files && disk.files[["app", name]] == [7]
  {
    var zip, tags := OneFileArchive(r, name), Repeat(Archives.MAX_ENTRIES, "x");
    disk := new Disks.Disk(Installed(name), _ => Disks.Fine);
    ghost var before := disk.files;
    OneFileIsPrepared(r, name, zip, tags);
    OneFileIsExtractable(r, name);
    OneFileIsReplaced(r, name);
    outcome := InstallOver(disk, r, zip, tags, [ShellApply.Entry(name, "h")]);
    NoFailures(disk.faults, Disks.IsFine, 0, disk.clock);
    SevenIsInstalled(r, name, before, disk.files);
  }

  function Installed(name: string): Disks.Files { map[["app", name] := [1]] }

  /** Where nothing fails, an archive that can be extracted is applied if it replaces something. */
  method InstallOver(disk: Disks.Disk, r: ShellPackages.Rules, zip: seq<Archives.ZipEntry>, tags: seq<string>, ghost es: seq<ShellApply.Entry>)
    returns (outcome: ShellApply.Outcome)
    requires ShellPackages.Proper(r) && ShellPackages.Prepared(r, zip, tags, disk.files) && ShellPackages.Extractable(r, zip)
    requires ShellPackages.ManifestOf(r, zip) == Some(es) && ShellApply.Replaces(r.l, es, disk.files)
    requires disk.Valid() && forall p :: p in disk.files ==> !Paths.Under(r.l.package, p)
    modifies disk
    ensures disk.Valid() && disk.failures >= old(disk.failures)
    ensures disk.failures == old(disk.failures) ==> outcome.Applied? && ShellPackages.Updated(r, es, old(disk.files), disk.files)
  {
    outcome := ShellPackages.InstallShell(disk, r, _ => [], zip, tags);
    assert outcome.Rejected? ==> disk.failures > old(disk.failures);
    assert outcome.RolledBack? ==> ShellApply.Blamed(outcome, true) <= disk.failures - old(disk.failures);
  }

  lemma OneFileIsReplaced(r: ShellPackages.Rules, name: string)
    requires IsFileName(name) && r.l == App(name)
    ensures ShellApply.Replaces(r.l, [ShellApply.Entry(name, "h")], Installed(name))
    ensures forall p :: p in Installed(name) ==> !Paths.Under(r.l.package, p)
  {
    AppFiles(name);
    assert ShellApply.Entry(name, "h") in [ShellApply.Entry(name, "h")];
  }

  lemma SevenIsInstalled(r: ShellPackages.Rules, name: string, before: Disks.Files, after: Disks.Files)
    requires IsFileName(name) && r.l == App(name) && r.sha == OnlySeven
    requires ShellPackages.Updated(r, [ShellApply.Entry(name, "h")], before, after)
    ensures ["app", name] in after && after[["app", name]] == [7]
  {
    AppFiles(name);
    assert ShellApply.Entry(name, "h") in [ShellApply.Entry(name, "h")];
    assert "h" != "";
  }

  lemma OneFileIsMember(r: ShellPackages.Rules, name: string)
    requires r.manifest != "" && r.prefix != "" && r.manifest[0] != r.prefix[0]
    ensures var zip := OneFileArchive(r, name);
      && ShellPackages.Members(r, zip) == [zip[1]] && Archives.GetEntry(zip, r.manifest) == Some(zip[0])
      && ShellPackages.IsPayload(r, zip[1]) && ShellPackages.NameOf(r, zip[1]) == name
  {
    var zip := OneFileArchive(r, name);
    assert zip[..|zip| - 1] == [zip[0]] && [zip[0]][..0] == [];
    assert zip[1].name[0] == r.prefix[0] && zip[1].name[|r.prefix|..] == name;
    assert ShellPackages.Members(r, [zip[0]]) == [] by { assert ShellPackages.Members(r, []) == []; }
  }

  lemma OneFileIsFine(r: ShellPackages.Rules, name: string, e: Archives.ZipEntry)
    requires r.l.Admits(name) && r.sha == OnlySeven && e.content == Some([7]) && e.length == 1 && !e.symlink
    requires ShellPackages.IsPayload(r, e) && ShellPackages.NameOf(r, e) == name
    ensures ShellPackages.Fine(r, [ShellApply.Entry(name, "h")], [e])
    ensures ShellPackages.ListedNames(r, [ShellApply.Entry(name, "h")]) <= ShellPackages.NamesOf(r, [e])
  {
    assert Archives.TotalLength([e]) == 1 by { assert [e][..0] == []; }
    assert e in [e];
  }

  lemma OneFileIsExtractable(r: ShellPackages.Rules, name: string)
    requires IsFileName(name) && r.l == App(name) && r.program == name && r.sha == OnlySeven
    requires r.manifest != "" && r.prefix != "" && r.manifest[0] != r.prefix[0] && forall b :: r.parse(b) == Some([ShellApply.Entry(name, "h")])
    ensures ShellPackages.ManifestOf(r, OneFileArchive(r, name)) == Some([ShellApply.Entry(name, "h")])
    ensures ShellPackages.Extractable(r, OneFileArchive(r, name))
  {
    var es := [ShellApply.Entry(name, "h")];
    AppFiles(name);
    OneFileIsMember(r, name);
    OneFileIsFine(r, name, OneFileArchive(r, name)[1]);
    assert es[0] in es && ShellPackages.IsManifest(r, es);
  }

  // ---- the download ----

  /** Two bytes, of which the first answer breaks off after one. */
  function BreaksOnce(n: nat, offset: nat): Downloader.Response {
    if n == 0 then Downloader.Answer(200, None, Some(2), [[1]], Downloader.Broken)
    else if offset == 1 then Downloader.Answer(206, Some(Downloader.ContentRange("bytes", 1, 1, 2)), Some(1), [[2]], Downloader.EndOfBody)
    else Downloader.Answer(200, None, Some(2), [[1, 2]], Downloader.EndOfBody)
  }

  lemma BreaksOnceServes(n: nat, offset: nat)
    ensures Downloader.Serves([1, 2], offset, BreaksOnce(n, offset)) && !Downloader.Interrupts(BreaksOnce(n, offset))
    ensures n > 0 && offset < 2 ==> Downloader.Completes([1, 2], offset, BreaksOnce(n, offset))
  {
    var one: Bytes, two: Bytes, both: Bytes := [1], [2], [1, 2];
    assert Downloader.Concat([one]) == one + Downloader.Concat([]) == one;
    assert Downloader.Concat([two]) == two + Downloader.Concat([]) == two;
    assert Downloader.Concat([both]) == both + Downloader.Concat([]) == both;
    assert both[1..] == two && one <= both;
  }

  /** A download that breaks off once is resumed and completed. */
  method BrokenDownload() returns (r: Downloader.Outcome, d: Downloader.ArtifactDownloader)
    ensures r == Downloader.Path && d.cached == Some([1, 2])
  {
    assert |"h"| == 1;
    r, d := DownloadPair(BreaksOnce, "h");
  }

  method DownloadPair(server: (nat, nat) -> Downloader.Response, hash: string) returns (r: Downloader.Outcome, d: Downloader.ArtifactDownloader)
    requires hash != "" && forall n: nat, offset: nat :: server(n, offset) == BreaksOnce(n, offset)
    ensures r == Downloader.Path && d.cached == Some([1, 2])
  {
    var content: Bytes := [1, 2];
    d := new Downloader.ArtifactDownloader(b => if b == [1, 2] then hash else "", Downloader.Artifact(2, hash), server,
                                           _ => false, _ => true, None, None);
    forall n: nat, offset: nat
      ensures Downloader.Serves(content, offset, server(n, offset)) && !Downloader.Interrupts(server(n, offset))
      ensures n > 0 && offset < 2 ==> Downloader.Completes(content, offset, server(n, offset))
    {
      BreaksOnceServes(n, offset);
    }
    assert d.CompletesAt(content, 1) && d.Resumes(content, None);
    r := d.DownloadAsync([], content);
  }

  // ---- the snapshot ----

  /** The marker of a snapshot was cut off at its first byte: nothing is lost, and the recovery does not complete. */
  method CutMarker() returns (ok: bool)
    ensures !ok
  {
    Witnesses.SomeHostIsSane();
    SomeHostIsSeparate();
    ok := CutMarkerOf(Witnesses.SomeHost(), Snapshots.Locations(["providers.json"], ["momoi.db"]), ["backup"]);
  }

  method CutMarkerOf(host: Snapshots.Host, at: Snapshots.Locations, dest: Paths.Path) returns (ok: bool)
    requires host.Sane() && host.locate([]) == Some(at) && Snapshots.Separate(host, at, dest)
    ensures !ok
  {
    var marker := Snapshots.Saved(dest, Snapshots.JSON);
    Snapshots.InDirectory(dest, Snapshots.JSON);
    EmptyIsNoDocument(host);
    var files: Disks.Files := map[host.config := [], marker := []];
    var disk := new Disks.Disk(files, _ => Disks.Fine);
    var app := new CodeSwitch.App(disk, host, {"old"}, _ => true, _ => false, (_, f) => f, true, "old");
    ghost var data := Snapshots.View(host, disk.files);
    assert host.config in Snapshots.Touched(host, at) && host.config != marker;
    ok := app.Recover("old", dest, data);
  }

  /** The same program, where nothing fails: it is updated. */
  method UpdateWorks() returns (r: CodeSwitch.Outcome)
    ensures r.Updated?
  {
    Witnesses.SomeHostIsSane();
    SomeHostIsSeparate();
    r := UpdateOf(Witnesses.SomeHost(), Snapshots.Locations(["providers.json"], ["momoi.db"]), ["backup"]);
  }

  method UpdateOf(host: Snapshots.Host, at: Snapshots.Locations, dest: Paths.Path) returns (r: CodeSwitch.Outcome)
    requires host.Sane() && host.locate([]) == Some(at) && Snapshots.Separate(host, at, dest)
    ensures r.Updated?
  {
    var disk := new Disks.Disk(map[host.config := []], _ => Disks.Fine);
    var app := new CodeSwitch.App(disk, host, {"old", "new"}, _ => true, _ => false, (_, f) => f, true, "old");
    assert host.config in Snapshots.Touched(host, at);
    assert "old"[0] != "new"[0];
    r := app.UpdateAsync("new", dest, false);
    NoFailures(app.steps, CodeSwitch.Works, 0, app.clock);
    NoFailures(disk.faults, Disks.IsFine, 0, disk.clock);
  }

  /** The same program, where the one step that fails is the start of the new backend: the old release runs again. */
  method UpdateFails() returns (r: CodeSwitch.Outcome, app: CodeSwitch.App)
    ensures r == CodeSwitch.RolledBack(true) && app.backend == Some("old") && app.panel == Some("old") && app.bridge
  {
    Witnesses.SomeHostIsSane();
    SomeHostIsSeparate();
    r, app := FailedStart(Witnesses.SomeHost(), Snapshots.Locations(["providers.json"], ["momoi.db"]), ["backup"], "old", "new");
  }

  method FailedStart(host: Snapshots.Host, at: Snapshots.Locations, dest: Paths.Path, previous: string, next: string)
    returns (r: CodeSwitch.Outcome, app: CodeSwitch.App)
    requires host.Sane() && host.locate([]) == Some(at) && Snapshots.Separate(host, at, dest) && previous != next
    ensures r == CodeSwitch.RolledBack(true) && app.backend == Some(previous) && app.panel == Some(previous) && app.bridge
  {
    var disk := new Disks.Disk(map[host.config := []], _ => Disks.Fine);
    app := new CodeSwitch.App(disk, host, {previous, next}, n => n != 4, _ => false, (_, f) => f, true, previous);
    assert host.config in Snapshots.Touched(host, at);
    r := app.UpdateAsync(next, dest, false);
    OnlyOne(app.steps, CodeSwitch.Works, 0, 4, app.clock);
    NoFailures(disk.faults, Disks.IsFine, 0, disk.clock);
  }

  lemma EmptyIsNoDocument(h: Snapshots.Host)
    requires h.Sane()
    ensures h.decode([]).None?
  {
    var m, n := Snapshots.Metadata([], [""], false), Snapshots.Metadata([], [""], true);
    assert h.decode(h.encode(m)) == Some(m) && h.decode(h.encode(n)) == Some(n);
    assert Disks.IsTorn(h.encode(m), []) || Disks.IsTorn(h.encode(n), []);
  }

  lemma SomeHostIsSeparate()
    ensures var h, at := Witnesses.SomeHost(), Snapshots.Locations(["providers.json"], ["momoi.db"]);
      h.locate([]) == Some(at) && Snapshots.Separate(h, at, ["backup"])
  {
    HostFiles(Witnesses.SomeHost());
  }

  lemma HostFiles(h: Snapshots.Host)
    requires h.config == ["config.json"]
    ensures Snapshots.Separate(h, Snapshots.Locations(["providers.json"], ["momoi.db"]), ["backup"])
  {
    var config, providers, database := "config.json", "providers.json", "momoi.db";
    assert config[0] == 'c' && providers[0] == 'p' && database[0] == 'm';
    SeparateByName(h, config, providers, database, "backup");
  }

  /** Files of one component each, told apart by their first character. */
  lemma SeparateByName(h: Snapshots.Host, config: string, providers: string, database: string, dest: string)
    requires h.config == [config] && config != "" && providers != "" && database != ""
    requires config[0] != providers[0] && config[0] != database[0] && providers[0] != database[0]
    ensures Snapshots.Separate(h, Snapshots.Locations([providers], [database]), [dest])
  {
    var at := Snapshots.Locations([providers], [database]);
    assert Snapshots.Wal(at.database) == [database + "-wal"] && Snapshots.Shm(at.database) == [database + "-shm"];
    assert (database + "-wal")[0] == database[0] && (database + "-shm")[0] == database[0];
    assert |database + "-wal"| > |database| && |database + "-shm"| > |database|;
  }

  // ---- the pointer ----

  lemma {:induction false} SplitTwo(a: string, b: string)
    requires '/' !in a && '/' !in b
    ensures Paths.Split(a + "/" + b, '/') == [a, b]
  {
    var whole := a + "/" + b;
    if a == "" {
      Paths.OnePart(b);
      assert whole[0] == '/' && whole[1..] == b;
    } else {
      SplitTwo(a[1..], b);
      assert whole[0] == a[0] && a[0] in a && whole[1..] == a[1..] + "/" + b;
      assert [a[0]] + a[1..] == a;
    }
  }

  lemma RelativeTwo(file: string)
    requires IsFileName(file)
    ensures ReleaseStores.IsRelative("app" + "/" + file)
  {
    var name := "app" + "/" + file;
    SplitTwo("app", file);
    assert name[..4] == "app/" && name[4..] == file;
    assert forall i :: 4 <= i < |name| ==> name[i] == file[i - 4];
  }

  function OneManifest(entry: string, id: string): ReleaseStores.Manifest {
    ReleaseStores.Manifest(1, id, "1", "rt", map[entry := "h"])
  }

  /** Windows, where every file has one hash, and parses to the first manifest if it is empty, else to the second. */
  function TwoManifests(m: ReleaseStores.Manifest, other: ReleaseStores.Manifest): ReleaseStores.Rules {
    ReleaseStores.Windows(Witnesses.Plain(), _ => "h", b => Some(if b == [] then m else other), _ => true)
  }

  ghost predicate HasTwo(w: ReleaseStores.Platform, m: ReleaseStores.Manifest, other: ReleaseStores.Manifest) {
    var p := w.rules;
    && w.Sane() && HasPlaces(p) && p.isId(m.releaseId) && p.isId(other.releaseId)
    && (forall b :: p.sha(b) == "h") && (forall s :: p.isHash(s))
    && (forall b :: p.parse(b) == Some(if b == [] then m else other))
  }

  /** The two names every release has are files beside each other. */
  predicate HasPlaces(p: ReleaseStores.Rules) {
    && p.relative(p.entryPoint) && !ReleaseStores.IsFolderName(p.entryPoint)
    && !Paths.Nested(p.key(p.manifestName), p.key(p.entryPoint))
  }

  lemma FileAndFolder(file: string, folder: string, inside: string)
    requires IsFileName(file) && IsFileName(inside) && |folder| == 3 && '/' !in folder
    requires Paths.IsSafe(folder + "/" + inside)
    ensures !Paths.Nested(Paths.Resolve(Witnesses.Plain(), [], file), Paths.Resolve(Witnesses.Plain(), [], folder + "/" + inside))
  {
    PlainFile(file);
    SplitTwo(folder, inside);
    PlainWord(folder);
    Paths.SafeNameStaysBelow(Witnesses.Plain(), [], file);
    Paths.SafeNameStaysBelow(Witnesses.Plain(), [], folder + "/" + inside);
    assert |Paths.Resolve(Witnesses.Plain(), [], folder + "/" + inside)[0]| == 3;
  }

  lemma EntryIsRelative(p: ReleaseStores.Rules, file: string, folder: string, inside: string)
    requires p.manifestName == file && p.entryPoint == folder + "/" + inside
    requires IsFileName(file) && IsFileName(inside) && folder == "app" && p.relative == ReleaseStores.IsRelative
    requires forall n :: p.key(n) == Paths.Resolve(Witnesses.Plain(), [], n)
    ensures HasPlaces(p)
  {
    RelativeTwo(inside);
    FileAndFolder(file, folder, inside);
    assert p.entryPoint[|p.entryPoint| - 1] == inside[|inside| - 1];
  }

  lemma EntryNames()
    ensures IsFileName("release.json") && IsFileName("backend_entry.py")
    ensures "app" + "/" + "backend_entry.py" == "app/backend_entry.py"
  {
  }

  lemma WindowsEntry(p: ReleaseStores.Rules, m: ReleaseStores.Manifest, other: ReleaseStores.Manifest)
    requires p == TwoManifests(m, other)
    ensures HasPlaces(p)
  {
    EntryNames();
    EntryIsRelative(p, p.manifestName, "app", "backend_entry.py");
  }

  lemma TwoManifestsAreHad(w: ReleaseStores.Platform, m: ReleaseStores.Manifest, other: ReleaseStores.Manifest)
    requires w == Witnesses.PlatformOf(TwoManifests(m, other))
    requires ReleaseStores.IsReleaseId(m.releaseId) && ReleaseStores.IsReleaseId(other.releaseId)
    ensures HasTwo(w, m, other)
  {
    Witnesses.PlainKeepsMarks();
    ReleaseStores.WindowsIsSane(Witnesses.Plain(), _ => "h", b => Some(if b == [] then m else other), _ => true);
    Witnesses.PlatformIsSane(w.rules);
    WindowsEntry(w.rules, m, other);
  }

  /** The manifest and the one file it lists. */
  function OneTree(p: ReleaseStores.Rules, manifest: Bytes): ReleaseStores.Tree {
    map[p.key(p.manifestName) := manifest, p.key(p.entryPoint) := []]
  }

  lemma OneIsManifest(p: ReleaseStores.Rules, m: ReleaseStores.Manifest)
    requires m == OneManifest(p.entryPoint, m.releaseId) && p.isId(m.releaseId) && p.relative(p.entryPoint) && p.isHash("h")
    ensures ReleaseStores.IsManifest(p, m)
  {
  }

  lemma OneTreeIsComplete(w: ReleaseStores.Platform, m: ReleaseStores.Manifest, other: ReleaseStores.Manifest, manifest: Bytes)
    requires HasTwo(w, m, other)
    requires m == OneManifest(w.rules.entryPoint, m.releaseId) && other == OneManifest(w.rules.entryPoint, other.releaseId)
    ensures w.check(OneTree(w.rules, manifest)) == Some(if manifest == [] then m else other)
  {
    OneIsManifest(w.rules, if manifest == [] then m else other);
    assert w.Checks(OneTree(w.rules, manifest));
  }

  /**
   The first start with an active-release file that is JSON of another shape fails, though without one, or
   with an unreadable one, it succeeds.
   */
  lemma MisshapenPointer(w: ReleaseStores.Platform, m: ReleaseStores.Manifest)
    requires w == Witnesses.PlatformOf(TwoManifests(m, m)) && m == OneManifest(w.rules.entryPoint, "seed")
    ensures FailsMisshapen(w, OneTree(w.rules, []))
  {
    TwoManifestsAreHad(w, m, m);
    FirstStart(w, m);
  }

  ghost predicate FailsMisshapen(w: ReleaseStores.Platform, bundled: ReleaseStores.Tree) {
    && w.Sane() && ReleaseStores.CanInitialize(w, "rt", bundled, map[], None)
    && ReleaseStores.CanInitialize(w, "rt", bundled, map[], Some(ReleaseStores.Unreadable))
    && !ReleaseStores.CanInitialize(w, "rt", bundled, map[], Some(ReleaseStores.Misshapen))
  }

  lemma FirstStart(w: ReleaseStores.Platform, m: ReleaseStores.Manifest)
    requires HasTwo(w, m, m) && m == OneManifest(w.rules.entryPoint, m.releaseId)
    ensures FailsMisshapen(w, OneTree(w.rules, []))
  {
    OneTreeIsComplete(w, m, m, []);
  }

  /** An archive of the second manifest and its one file. */
  function OneArchive(p: ReleaseStores.Rules): seq<Archives.ZipEntry> {
    [Archives.ZipEntry(p.manifestName, false, 1, Some([1])), Archives.ZipEntry(p.entryPoint, false, 0, Some([]))]
  }

  lemma TwoMembers(a: Archives.ZipEntry, b: Archives.ZipEntry)
    requires !ReleaseStores.IsFolder(a) && !ReleaseStores.IsFolder(b)
    ensures ReleaseStores.Members([a, b]) == [a, b]
  {
    assert [a, b][1..] == [b] && [b][1..] == [];
    assert ReleaseStores.Members([b]) == [b] + ReleaseStores.Members([]) == [b];
  }

  lemma OneArchiveIsStageable(w: ReleaseStores.Platform, m: ReleaseStores.Manifest, other: ReleaseStores.Manifest)
    requires HasTwo(w, m, other)
    requires m == OneManifest(w.rules.entryPoint, m.releaseId) && other == OneManifest(w.rules.entryPoint, other.releaseId)
    ensures ReleaseStores.ArchiveManifest(w.rules, OneArchive(w.rules)) == Some(other)
    ensures ReleaseStores.Stageable(w, "rt", Some(OneArchive(w.rules)))
  {
    var p, es := w.rules, OneArchive(w.rules);
    assert ReleaseStores.IsManifest(p, other) && p.relative(p.entryPoint);
    TwoMembers(es[0], es[1]);
    assert es[..1] == [es[0]] && [es[0]][..0] == [];
    assert ReleaseStores.TreeOf(p, [es[0]]) == map[p.key(p.manifestName) := [1]];
    assert Archives.TotalLength(es) == Archives.TotalLength([es[0]]) + 0 == 1;
    assert ReleaseStores.TreeOf(p, es) == OneTree(p, [1]);
    OneTreeIsComplete(w, m, other, [1]);
  }

  lemma OtherAnswers(w: ReleaseStores.Platform, m: ReleaseStores.Manifest, other: ReleaseStores.Manifest)
    requires HasTwo(w, m, other) && m != other && w.rules.home(m.releaseId) == w.rules.home(other.releaseId)
    requires m == OneManifest(w.rules.entryPoint, m.releaseId) && other == OneManifest(w.rules.entryPoint, other.releaseId)
    ensures Answers(w, m, other)
  {
    OneArchiveIsStageable(w, m, other);
    OneTreeIsComplete(w, m, other, []);
  }

  /** Where the first release is in place, an archive of the second is staged, and the first is returned. */
  ghost predicate Answers(w: ReleaseStores.Platform, m: ReleaseStores.Manifest, other: ReleaseStores.Manifest) {
    var archive := Some(OneArchive(w.rules));
    var before := map[w.rules.home(m.releaseId) := OneTree(w.rules, [])];
    && ReleaseStores.AllComplete(w, before) && ReleaseStores.ArchiveManifest(w.rules, archive.value) == Some(other)
    && ReleaseStores.CanStage(w, "rt", archive, before)
    && forall after, r :: ReleaseStores.Staged(w, "rt", archive, before, after, r) ==> r.manifest == m
  }

  /** "1.0." is a second id of the directory of "1.0": staging it where that release is in place gives "1.0" back. */
  lemma DottedId(w: ReleaseStores.Platform, m: ReleaseStores.Manifest, other: ReleaseStores.Manifest)
    requires w == Witnesses.PlatformOf(TwoManifests(m, other))
    requires m == OneManifest(w.rules.entryPoint, "1.0") && other == OneManifest(w.rules.entryPoint, "1.0.")
    ensures w.Sane() && m.releaseId != other.releaseId && Answers(w, m, other)
  {
    var plain, dotted := "1.0", "1.0.";
    assert plain[0] == '1' && plain[1] == '.' && plain[2] == '0';
    assert dotted[0] == '1' && dotted[1] == '.' && dotted[2] == '0' && dotted[3] == '.';
    assert dotted[..3] == plain;
    assert Paths.TrimEnd(plain) == plain && Paths.TrimEnd(dotted) == Paths.TrimEnd(plain);
    TwoManifestsAreHad(w, m, other);
    ReleaseStores.IdsShareADirectoryIff(Witnesses.Plain(), plain, dotted);
    OtherAnswers(w, m, other);
  }
}
