/**
 A multi-restart update plan: `App.ResumeUpdatesAsync` and `ComponentUpdateWorker.RunAsync`.

 At every start the first pending component of the plan is handed to a worker, which
 installs it and starts the program again; when none is pending the code is switched and
 the plan deleted.  A failed step renames the plan so that it cannot repeat.  `Restart` is
 one such start on values, given how it ended; the class derives that ending from steps
 that may each fail or never return, and from the rename, which may fail too.  The
 theorems are about every sequence of starts: how many installers a plan can launch, in
 which order, and when it is over.
 */
module PendingPlans {
  import opened Wrappers

  datatype Version = Version(major: nat, minor: nat, patch: nat)

  predicate Older(a: Version, b: Version) {
    || a.major < b.major
    || (a.major == b.major && a.minor < b.minor)
    || (a.major == b.major && a.minor == b.minor && a.patch < b.patch)
  }

  /** Versions are totally ordered, the major number first, the patch last. */
  lemma VersionsAreOrdered(a: Version, b: Version, c: Version)
    ensures !(Older(a, b) && Older(b, a)) && (Older(a, b) || Older(b, a) || a == b)
    ensures Older(a, b) && Older(b, c) ==> Older(a, c)
    ensures Older(a, a.(patch := a.patch + 1 + b.patch))
    ensures Older(a, b.(major := a.major, minor := a.minor + 1 + b.minor))
    ensures Older(a, b.(major := a.major + 1 + b.major))
  {
  }

  datatype Identity = Identity(version: Version, id: string)

  /** What the signed catalog announces. */
  datatype Catalog = Catalog(shell: Identity, napCat: string, asr: Option<string>)

  /** What the archives of the plan install. */
  datatype Archives = Archives(shell: Identity, napCat: string, asr: string)

  /** Which archives the plan carries, and the release to switch to. */
  datatype Plan = Plan(shell: bool, napCat: bool, asr: bool, code: Option<string>)

  /** The running shell, the QQ marker, the id of the ASR component, and the active release. */
  datatype Installed = Installed(shell: Identity, napCat: Option<string>, asr: Option<string>, release: string)

  datatype Kind = ShellZip | NapCatInstaller | AsrInstaller

  datatype State = State(plan: Option<Plan>, installed: Installed, launches: seq<Kind>)

  /**
   How one start ends: everything it attempts works; a step fails and the plan is set aside; or the plan
   stays although the start is over, because the machine stopped, the worker could not read its request or
   the rename failed.  The last two can come before or after the installer was launched and its component,
   or the release, was in place.
   */
  datatype Ending = Finishes | Breaks(launched: bool, applied: bool) | Stops(launched: bool, applied: bool)

  predicate ShellDiffers(c: Catalog, shell: Identity) {
    Older(shell.version, c.shell.version) || (shell.version == c.shell.version && shell.id != c.shell.id)
  }

  predicate IsPending(c: Catalog, plan: Plan, i: Installed, k: Kind) {
    match k
    case ShellZip => plan.shell && ShellDiffers(c, i.shell)
    case NapCatInstaller => plan.napCat && i.napCat != Some(c.napCat)
    case AsrInstaller => plan.asr && c.asr.Some? && i.asr != c.asr
  }

  /** The component a start launches the installer for. */
  function Next(c: Catalog, plan: Plan, i: Installed): Option<Kind> {
    if IsPending(c, plan, i, ShellZip) then Some(ShellZip)
    else if IsPending(c, plan, i, NapCatInstaller) then Some(NapCatInstaller)
    else if IsPending(c, plan, i, AsrInstaller) then Some(AsrInstaller)
    else None
  }

  predicate CodePending(plan: Plan, i: Installed) {
    plan.code.Some? && i.release != plan.code.value
  }

  function Install(c: Catalog, a: Archives, i: Installed, k: Kind): Installed {
    match k
    case ShellZip => i.(shell := a.shell)
    case NapCatInstaller => i.(napCat := Some(c.napCat))
    case AsrInstaller => i.(asr := Some(a.asr))
  }

  /** The worker's comparison after an installer ran; it compares nothing for the shell. */
  predicate Matches(c: Catalog, a: Archives, k: Kind) {
    match k
    case ShellZip => true
    case NapCatInstaller => a.napCat == c.napCat
    case AsrInstaller => c.asr == Some(a.asr)
  }

  /** A QQ or ASR archive of another id makes the worker fail, before the QQ marker is written. */
  function Effective(c: Catalog, a: Archives, k: Kind, e: Ending): Ending {
    if Matches(c, a, k) then e
    else
      match e
      case Finishes => Breaks(true, k.AsrInstaller?)
      case Breaks(launched, applied) => Breaks(launched, applied && k.AsrInstaller?)
      case Stops(launched, applied) => Stops(launched, applied && k.AsrInstaller?)
  }

  predicate Launched(e: Ending) {
    e.Finishes? || e.launched
  }

  predicate Applied(e: Ending) {
    e.Finishes? || e.applied
  }

  function Restart(c: Catalog, a: Archives, s: State, e: Ending): State {
    if s.plan.None? then s
    else
      match Next(c, s.plan.value, s.installed)
      case Some(k) =>
        var f := Effective(c, a, k, e);
        State(if f.Breaks? then None else s.plan,
              if Launched(f) && Applied(f) then Install(c, a, s.installed, k) else s.installed,
              if Launched(f) then s.launches + [k] else s.launches)
      case None =>
        State(if e.Stops? then s.plan else None,
              if Applied(e) && CodePending(s.plan.value, s.installed) then s.installed.(release := s.plan.value.code.value) else s.installed,
              s.launches)
  }

  function Run(c: Catalog, a: Archives, s: State, es: seq<Ending>): State
    decreases |es|
  {
    if es == [] then s else Run(c, a, Restart(c, a, s, es[0]), es[1..])
  }

  lemma {:induction false} RunLonger(c: Catalog, a: Archives, s: State, es: seq<Ending>, e: Ending)
    ensures Run(c, a, s, es + [e]) == Restart(c, a, Run(c, a, s, es), e)
    decreases |es|
  {
    if es == [] {
      assert [] + [e] == [e] && [e][1..] == [];
    } else {
      assert (es + [e])[1..] == es[1..] + [e];
      RunLonger(c, a, Restart(c, a, s, es[0]), es[1..], e);
    }
  }

  // ---- termination ----

  function PendingCount(c: Catalog, plan: Plan, i: Installed): nat {
    One(IsPending(c, plan, i, ShellZip)) + One(IsPending(c, plan, i, NapCatInstaller)) + One(IsPending(c, plan, i, AsrInstaller))
  }

  /** The plan itself plus its pending components. */
  function Measure(c: Catalog, s: State): nat {
    if s.plan.None? then 0 else 1 + PendingCount(c, s.plan.value, s.installed)
  }

  /** Installing the shell archive ends the shell's turn: it carries what the catalog announces, or more. */
  predicate Carries(c: Catalog, a: Archives) {
    !ShellDiffers(c, a.shell)
  }

  function Stalls(es: seq<Ending>): (n: nat)
    ensures n <= |es|
  {
    if es == [] then 0 else One(es[0].Stops?) + Stalls(es[1..])
  }

  lemma {:induction false} StallsOfSum(es: seq<Ending>, e: Ending)
    ensures Stalls(es + [e]) == Stalls(es) + One(e.Stops?)
  {
    if es == [] {
      assert [] + [e] == [e] && [e][1..] == [];
    } else {
      assert (es + [e])[1..] == es[1..] + [e];
      StallsOfSum(es[1..], e);
    }
  }

  /** Every start that is not cut off makes progress; one that is cut off loses none. */
  lemma RestartProgresses(c: Catalog, a: Archives, s: State, e: Ending)
    requires Carries(c, a) && s.plan.Some?
    ensures Measure(c, Restart(c, a, s, e)) <= Measure(c, s)
    ensures !e.Stops? ==> Measure(c, Restart(c, a, s, e)) < Measure(c, s)
  {
  }

  /** A plan with k pending components launches at most k installers, and one more for each start cut off. */
  lemma {:induction false} LaunchesAreBounded(c: Catalog, a: Archives, s: State, es: seq<Ending>)
    requires Carries(c, a)
    ensures s.launches <= Run(c, a, s, es).launches
    ensures |Run(c, a, s, es).launches| + (if Run(c, a, s, es).plan.Some? then Measure(c, Run(c, a, s, es)) else 1)
            <= |s.launches| + (if s.plan.Some? then Measure(c, s) else 1) + Stalls(es)
    decreases |es|
  {
    if es != [] {
      LaunchesAreBounded(c, a, Restart(c, a, s, es[0]), es[1..]);
    }
  }

  /** After as many uninterrupted starts as the measure says, the plan is over. */
  lemma {:induction false} PlanEnds(c: Catalog, a: Archives, s: State, es: seq<Ending>)
    requires Carries(c, a) && |es| - Stalls(es) >= Measure(c, s)
    ensures Run(c, a, s, es).plan.None?
    decreases |es|
  {
    if es != [] {
      if s.plan.Some? { RestartProgresses(c, a, s, es[0]); }
      PlanEnds(c, a, Restart(c, a, s, es[0]), es[1..]);
    }
  }

  /** At most three launches and four starts for an uninterrupted plan. */
  lemma AtMostThreeLaunches(c: Catalog, a: Archives, plan: Plan, i: Installed, es: seq<Ending>)
    requires Carries(c, a) && Stalls(es) == 0
    ensures |Run(c, a, State(Some(plan), i, []), es).launches| <= 3
    ensures |es| >= 4 ==> Run(c, a, State(Some(plan), i, []), es).plan.None?
  {
    LaunchesAreBounded(c, a, State(Some(plan), i, []), es);
    if |es| >= 4 { PlanEnds(c, a, State(Some(plan), i, []), es); }
  }

  // ---- order ----

  function Rank(k: Kind): nat {
    match k case ShellZip => 0 case NapCatInstaller => 1 case AsrInstaller => 2
  }

  /** Launches so far never went back, and everything ranked below the last one is done. */
  ghost predicate InOrder(c: Catalog, s: State) {
    && (forall i, j :: 0 <= i < j < |s.launches| ==> Rank(s.launches[i]) <= Rank(s.launches[j]))
    && (s.plan.Some? && s.launches != [] ==>
          forall k: Kind :: Rank(k) < Rank(s.launches[|s.launches| - 1]) ==> !IsPending(c, s.plan.value, s.installed, k))
  }

  lemma {:induction false} LaunchesAreOrdered(c: Catalog, a: Archives, s: State, es: seq<Ending>)
    requires Carries(c, a) && InOrder(c, s)
    ensures InOrder(c, Run(c, a, s, es))
    decreases |es|
  {
    if es != [] {
      RestartKeepsOrder(c, a, s, es[0]);
      LaunchesAreOrdered(c, a, Restart(c, a, s, es[0]), es[1..]);
    }
  }

  lemma RestartKeepsOrder(c: Catalog, a: Archives, s: State, e: Ending)
    requires Carries(c, a) && InOrder(c, s)
    ensures InOrder(c, Restart(c, a, s, e))
  {
    var t := Restart(c, a, s, e);
    if t.launches != s.launches {
      var k := t.launches[|t.launches| - 1];
      assert t.launches == s.launches + [k];
      assert s.launches != [] ==> Rank(s.launches[|s.launches| - 1]) <= Rank(k);
    }
  }

  /** The step the start came to failed, and the plan was set aside for it. */
  predicate Broke(c: Catalog, a: Archives, s: State, e: Ending)
    requires s.plan.Some?
  {
    match Next(c, s.plan.value, s.installed)
    case Some(k) => Effective(c, a, k, e).Breaks?
    case None => e.Breaks?
  }

  /** The release changes only in a start at which no component is pending; a plan that goes without a failure leaves nothing pending. */
  lemma CodeComesLast(c: Catalog, a: Archives, s: State, e: Ending)
    ensures Restart(c, a, s, e).installed.release != s.installed.release ==>
              s.plan.Some? && PendingCount(c, s.plan.value, s.installed) == 0
    ensures s.plan.Some? && Restart(c, a, s, e).plan.None? && !Broke(c, a, s, e) ==>
              var t := Restart(c, a, s, e);
              PendingCount(c, s.plan.value, t.installed) == 0 && !CodePending(s.plan.value, t.installed)
  {
  }

  // ---- exactly when a plan ends ----

  /** n starts at which no step fails. */
  function Finishing(n: nat): seq<Ending> {
    seq(n, _ => Finishes)
  }

  /** A shell archive that does not carry the catalog's identity is installed at every start, for ever. */
  lemma {:induction false} WrongIdentityLoops(c: Catalog, a: Archives, s: State, n: nat)
    requires s.plan.Some? && IsPending(c, s.plan.value, s.installed, ShellZip) && !Carries(c, a)
    ensures var t := Run(c, a, s, Finishing(n));
      t.plan == s.plan && |t.launches| == |s.launches| + n && IsPending(c, s.plan.value, t.installed, ShellZip)
    decreases n
  {
    if n > 0 {
      assert Finishing(n)[1..] == Finishing(n - 1);
      WrongIdentityLoops(c, a, Restart(c, a, s, Finishes), n - 1);
    }
  }

  /** With no step failing, a plan ends if and only if its shell archive, where one is due, carries the catalog's identity. */
  lemma PlanEndsIffIdentityCarried(c: Catalog, a: Archives, s: State)
    requires s.plan.Some?
    ensures (exists n: nat :: Run(c, a, s, Finishing(n)).plan.None?) <==>
            (IsPending(c, s.plan.value, s.installed, ShellZip) ==> Carries(c, a))
  {
    if IsPending(c, s.plan.value, s.installed, ShellZip) && !Carries(c, a) {
      forall n: nat ensures Run(c, a, s, Finishing(n)).plan.Some? {
        WrongIdentityLoops(c, a, s, n);
      }
    } else {
      FinishingEnds(c, a, s, Measure(c, s));
    }
  }

  lemma {:induction false} FinishingEnds(c: Catalog, a: Archives, s: State, n: nat)
    requires n >= Measure(c, s)
    requires s.plan.Some? && IsPending(c, s.plan.value, s.installed, ShellZip) ==> Carries(c, a)
    ensures Run(c, a, s, Finishing(n)).plan.None?
    decreases n
  {
    if n > 0 {
      assert Finishing(n)[1..] == Finishing(n - 1);
      FinishingEnds(c, a, Restart(c, a, s, Finishes), n - 1);
    }
  }

  // ---- the code ----

  datatype Step = Works | Fails | Dies

  class Desktop {
    const catalog: Catalog
    const archives: Archives
    // The environment: how each step ends, and at which of them the program is free to resume, the worker's
    // request can be read, the plan can be renamed, and the code update switches the release.
    const steps: nat -> Step
    const free: nat -> bool
    const requests: nat -> bool
    const renames: nat -> bool
    const switches: nat -> bool
    var clock: nat
    var asks: nat
    // Files: the plan, the plan set aside, the ids the installers leave, the marker; and the shell and release in use.
    var plan: Option<Plan>
    var failed: Option<Plan>
    var shell: Identity
    var pairId: string
    var napCatMarker: Option<string>
    var asrId: Option<string>
    var release: string
    // Everything since the plan was written.
    ghost var launches: seq<Kind>
    ghost const start: State
    ghost var endings: seq<Ending>

    constructor (catalog: Catalog, archives: Archives, steps: nat -> Step, free: nat -> bool, requests: nat -> bool,
                 renames: nat -> bool, switches: nat -> bool, plan: Plan, pairId: string, installed: Installed)
      ensures this.catalog == catalog && this.archives == archives && this.steps == steps && this.free == free
      ensures this.requests == requests && this.renames == renames && this.switches == switches
      ensures Valid() && start == Now() == State(Some(plan), installed, []) && endings == []
    {
      this.catalog, this.archives, this.steps, this.free := catalog, archives, steps, free;
      this.requests, this.renames, this.switches, this.clock, this.asks := requests, renames, switches, 0, 0;
      this.plan, this.failed, this.pairId := Some(plan), None, pairId;
      shell, napCatMarker, asrId, release := installed.shell, installed.napCat, installed.asr, installed.release;
      launches, endings, start := [], [], State(Some(plan), installed, []);
    }

    ghost function Components(): Installed
      reads this
    {
      Installed(shell, napCatMarker, asrId, release)
    }

    ghost function Now(): State
      reads this
    {
      State(plan, Components(), launches)
    }

    ghost predicate Valid()
      reads this
    {
      Now() == Run(catalog, archives, start, endings)
    }

    /** The machine stays on, requests can be read, and the plan can be renamed. */
    ghost predicate Uninterrupted() {
      forall n :: !steps(n).Dies? && free(n) && requests(n) && renames(n)
    }

    ghost predicate NothingFails() {
      Uninterrupted() && forall n :: steps(n).Works? && switches(n)
    }

    method Try() returns (s: Step)
      modifies this`clock
      ensures s == steps(old(clock)) && clock == old(clock) + 1
    {
      s := steps(clock);
      clock := clock + 1;
    }

    /** Whether the environment obliges at this moment. */
    method Ask(oracle: nat -> bool) returns (yes: bool)
      modifies this`asks
      ensures yes == oracle(old(asks)) && asks == old(asks) + 1
    {
      yes := oracle(asks);
      asks := asks + 1;
    }

    /** Every step since then worked. */
    ghost predicate AllWork(since: nat)
      reads this`clock
    {
      forall k :: since <= k < clock ==> steps(k).Works?
    }

    /** The steps since then worked up to the last one, which ended like this. */
    ghost predicate StoppedAt(since: nat, s: Step)
      reads this`clock
    {
      clock > since && s == steps(clock - 1) && !s.Works? && forall k :: since <= k < clock - 1 ==> steps(k).Works?
    }

    /** Nothing is done after a step that is the machine's last, and the plan stays. */
    ghost predicate Ceases(since: nat, e: Ending)
      reads this`clock
    {
      && since <= clock && (forall k :: since <= k < clock - 1 ==> !steps(k).Dies?)
      && (clock > since && steps(clock - 1).Dies? ==> e.Stops?)
    }

    /** A step failed: the plan is renamed so that it is not tried again, if it can be. */
    method SetAside(launched: bool, applied: bool) returns (e: Ending)
      requires plan.Some?
      modifies this`plan, this`failed, this`asks
      ensures e == if renames(old(asks)) then Breaks(launched, applied) else Stops(launched, applied)
      ensures plan == (if e.Breaks? then None else old(plan)) && failed == if e.Breaks? then old(plan) else old(failed)
    {
      var renamed := Ask(renames);
      if !renamed { return Stops(launched, applied); }
      failed, plan := plan, None;
      e := Breaks(launched, applied);
    }

    /** How a start ends whose step ended as `s`, which is not `Works`. */
    method GiveUp(s: Step, launched: bool, applied: bool) returns (e: Ending)
      requires plan.Some? && !s.Works?
      modifies this`plan, this`failed, this`asks
      ensures e == if s.Fails? && renames(old(asks)) then Breaks(launched, applied) else Stops(launched, applied)
      ensures plan == (if e.Breaks? then None else old(plan)) && failed == if e.Breaks? then old(plan) else old(failed)
    {
      if s.Dies? { return Stops(launched, applied); }
      e := SetAside(launched, applied);
    }

    /** The elevated process: verify again, install, and for the installers compare what they left; `done` is set once something is installed. */
    method Elevate(kind: Kind) returns (s: Step, done: bool)
      modifies this`shell, this`pairId, this`asrId, this`clock
      ensures s.Works? ==> done && Matches(catalog, archives, kind)
      ensures done ==> (kind.NapCatInstaller? ==> pairId == archives.napCat)
      ensures shell == (if done && kind.ShellZip? then archives.shell else old(shell))
      ensures s.Works? && kind.NapCatInstaller? ==> pairId == catalog.napCat
      ensures s.Works? && kind.AsrInstaller? ==> asrId == catalog.asr
      ensures asrId == if done && kind.AsrInstaller? then Some(archives.asr) else old(asrId)
      // It is installed once the archive was verified and the installer worked, and well installed if that ended well too.
      ensures done <==> steps(old(clock)).Works? && steps(old(clock) + 1).Works?
      ensures if Matches(catalog, archives, kind) || !AllWork(old(clock)) then s.Works? || StoppedAt(old(clock), s) else s.Fails?
      ensures s.Works? ==> AllWork(old(clock))
      ensures clock > old(clock) && (AllWork(old(clock)) ==> done && clock == old(clock) + 3)
    {
      done := false;
      s := Try();  // the archive's size and hash
      if !s.Works? { return; }
      s := Try();  // the installer, or the shell's extraction and replacement
      if !s.Works? { return; }
      done := true;
      match kind {
        case ShellZip => shell := archives.shell;
        case NapCatInstaller => pairId := archives.napCat;
        case AsrInstaller => asrId := Some(archives.asr);
      }
      s := Try();  // the exit
      if !s.Works? { return; }
      if kind.NapCatInstaller? && pairId != catalog.napCat { return Fails, true; }
      if kind.AsrInstaller? && asrId != catalog.asr { return Fails, true; }
    }

    /** The steps before the elevated process is started. */
    function Before(kind: Kind): nat { if kind.ShellZip? then 4 else 3 }

    /** The worker's try block; `applied` tells whether the component no longer counts as pending for its id. */
    method Work(kind: Kind) returns (s: Step, applied: bool)
      modifies this`shell, this`pairId, this`asrId, this`napCatMarker, this`clock
      ensures Components() == if applied then Install(catalog, archives, old(Components()), kind) else old(Components())
      ensures s.Works? ==> applied && Matches(catalog, archives, kind)
      ensures applied && kind.NapCatInstaller? ==> Matches(catalog, archives, kind)
      // Every step counts, and the first that fails is the last.
      ensures clock >= old(clock)
      ensures s.Works? ==> AllWork(old(clock)) && clock == old(clock) + Before(kind) + 4 + (if kind.ShellZip? then 0 else 1)
      ensures s.Works? || StoppedAt(old(clock), s) || (s.Fails? && !Matches(catalog, archives, kind) && AllWork(old(clock)))
      ensures applied ==> forall k :: old(clock) <= k < old(clock) + Before(kind) + 2 ==> steps(k).Works?
      ensures AllWork(old(clock)) ==> (applied <==> !kind.NapCatInstaller? || Matches(catalog, archives, kind))
    {
      applied := false;
      s := Prepare(kind);
      if !s.Works? { return; }
      var done;
      s, done := Elevate(kind);
      applied := done && !kind.NapCatInstaller?;
      if !s.Works? { return; }
      var marked;
      s, marked := Conclude(kind);
      applied := applied || marked;
    }

    /** Verify the catalog and the archive, wait for the program to exit, and try a shell archive's extraction. */
    method Prepare(kind: Kind) returns (s: Step)
      modifies this`clock
      ensures if s.Works? then AllWork(old(clock)) && clock == old(clock) + Before(kind) else StoppedAt(old(clock), s)
    {
      s := Try();  // the catalog's signature
      if !s.Works? { return; }
      s := Try();  // the archive's size and hash
      if !s.Works? { return; }
      s := Try();  // the program's exit
      if !s.Works? { return; }
      if kind.ShellZip? {
        s := Try();  // a first extraction
      }
    }

    /** Compare what an installer left, mark the QQ component, and start the program. */
    method Conclude(kind: Kind) returns (s: Step, marked: bool)
      requires Matches(catalog, archives, kind)
      requires (kind.NapCatInstaller? ==> pairId == catalog.napCat) && (kind.AsrInstaller? ==> asrId == catalog.asr)
      modifies this`napCatMarker, this`clock
      ensures if s.Works? then AllWork(old(clock)) && clock == old(clock) + (if kind.ShellZip? then 1 else 2) else StoppedAt(old(clock), s)
      ensures marked <==> kind.NapCatInstaller? && steps(old(clock)).Works?
      ensures napCatMarker == if marked then Some(catalog.napCat) else old(napCatMarker)
    {
      marked := false;
      if !kind.ShellZip? {
        s := Try();  // the comparison and the marker
        if !s.Works? { return; }
        if kind.NapCatInstaller? && pairId != catalog.napCat { return Fails, false; }
        if kind.AsrInstaller? && asrId != catalog.asr { return Fails, false; }
        if kind.NapCatInstaller? { napCatMarker, marked := Some(catalog.napCat), true; }
      }
      s := Try();  // the program's start
    }

    /** The worker: install one component, and start the program again or set the plan aside. */
    method RunWorker(kind: Kind) returns (e: Ending)
      requires plan.Some?
      modifies this`shell, this`pairId, this`asrId, this`napCatMarker, this`plan, this`failed, this`clock, this`asks
      ensures Launched(e) && Effective(catalog, archives, kind, e) == e
      ensures Components() == if Applied(e) then Install(catalog, archives, old(Components()), kind) else old(Components())
      ensures plan == (if e.Breaks? then None else old(plan)) && failed == if e.Breaks? then old(plan) else old(failed)
      ensures !requests(old(asks)) ==> e == Stops(true, false)
      ensures Ceases(old(clock), e)
      ensures e.Finishes? ==> AllWork(old(clock))
      ensures e.Breaks? ==> renames(old(asks) + 1) && (!AllWork(old(clock)) || !Matches(catalog, archives, kind))
      ensures Uninterrupted() ==> !e.Stops?
      ensures NothingFails() ==> e == Effective(catalog, archives, kind, Finishes)
    {
      var readable := Ask(requests);
      if !readable { return Stops(true, false); }  // without a request there is no plan to rename
      var s, applied := Work(kind);
      if s.Works? { return Finishes; }
      e := GiveUp(s, true, applied);
    }

    /** The release of the plan, if another one is in use; nothing when it is in use now. */
    method SwitchRelease() returns (e: Option<Ending>)
      requires plan.Some?
      modifies this`release, this`plan, this`failed, this`clock, this`asks
      ensures e.None? ==> plan == old(plan) && failed == old(failed) && !CodePending(plan.value, Components())
      ensures e.None? && old(CodePending(plan.value, Components())) ==> release == old(plan).value.code.value
      ensures e.None? && !old(CodePending(plan.value, Components())) ==> release == old(release) && clock == old(clock)
      ensures e.None? ==> clock >= old(clock) && forall k :: old(clock) <= k < clock ==> !steps(k).Dies?
      ensures e.Some? ==> old(CodePending(plan.value, Components())) && !e.value.Finishes? && Ceases(old(clock), e.value)
      ensures e.Some? ==> release == if Applied(e.value) then old(plan).value.code.value else old(release)
      ensures e.Some? ==> plan == (if e.value.Breaks? then None else old(plan)) && failed == if e.value.Breaks? then old(plan) else old(failed)
      ensures e.Some? && Applied(e.value) ==> e.value.Stops?
      ensures release != old(release) ==> steps(old(clock)).Works? && !steps(old(clock) + 1).Fails? && switches(old(asks))
      ensures Uninterrupted() ==> e.None? || !e.value.Stops?
      ensures NothingFails() ==> e.None?
    {
      var todo := plan.value;
      if todo.code.None? || release == todo.code.value { return None; }
      var given;
      var s := Try();  // the staged release
      if !s.Works? { given := GiveUp(s, false, false); return Some(given); }
      s := Try();  // the update, which deals with its own failures
      var switched := Ask(switches);
      if switched && !s.Fails? { release := todo.code.value; }
      if s.Dies? { return Some(Stops(false, switched)); }
      if release != todo.code.value { given := SetAside(false, false); return Some(given); }
      e := None;
    }

    /** The code step: switch the release, then delete the plan. */
    method SwitchCode() returns (e: Ending)
      requires plan.Some?
      modifies this`release, this`plan, this`failed, this`clock, this`asks
      ensures release == if Applied(e) && CodePending(old(plan).value, old(Components())) then old(plan).value.code.value else old(release)
      ensures plan == (if e.Stops? then old(plan) else None) && failed == if e.Breaks? then old(plan) else old(failed)
      ensures Ceases(old(clock), e)
      // It is over only if the release is the plan's and the plan is gone.
      ensures e.Finishes? ==> clock > old(clock) && steps(clock - 1).Works? && !CodePending(old(plan).value, Components())
      ensures old(CodePending(plan.value, Components())) ==>
                (release != old(release) ==> steps(old(clock)).Works? && !steps(old(clock) + 1).Fails? && switches(old(asks)))
      ensures e.Breaks? && !CodePending(old(plan).value, Components()) ==> clock > old(clock) && steps(clock - 1).Fails?
      ensures Uninterrupted() ==> !e.Stops?
      ensures NothingFails() ==> e.Finishes?
    {
      var end := SwitchRelease();
      if end.Some? { return end.value; }
      var s := Try();  // the deletion
      if !s.Works? { e := GiveUp(s, false, true); return; }
      plan := None;
      e := Finishes;
    }

    /** One start of the program with a plan on disk. */
    method ResumeUpdates() returns (e: Ending)
      requires Valid() && plan.Some?
      modifies this
      ensures Valid() && endings == old(endings) + [e]
      ensures Now() == Restart(catalog, archives, old(Now()), e)
      ensures Ceases(old(clock), e)
      ensures failed == if old(plan).Some? && plan.None? && Broke(catalog, archives, old(Now()), e) then old(plan) else old(failed)
      ensures Uninterrupted() ==> !e.Stops?
      ensures NothingFails() ==> Now() == Restart(catalog, archives, old(Now()), Finishes)
      // Over all starts so far: no more installers than components, but for the starts that were cut off.
      ensures Carries(catalog, archives) && start.plan.Some? && start.launches == [] ==> |launches| <= 3 + Stalls(endings)
    {
      e := Resume();
      RunLonger(catalog, archives, start, endings, e);
      endings := endings + [e];
      if Carries(catalog, archives) { LaunchesAreBounded(catalog, archives, start, endings); }
    }

    method Resume() returns (e: Ending)
      requires plan.Some?
      modifies this`plan, this`failed, this`shell, this`pairId, this`napCatMarker, this`asrId, this`release, this`clock, this`asks, this`launches
      ensures Now() == Restart(catalog, archives, old(Now()), e)
      ensures failed == if plan.None? && Broke(catalog, archives, old(Now()), e) then old(plan) else old(failed)
      ensures Ceases(old(clock), e)
      // Nothing happens while the program is busy or the plan cannot be read, and no installer is launched unless the launch works.
      ensures !free(old(asks)) ==> e == Stops(false, false)
      ensures launches != old(launches) || release != old(release) ==>
                free(old(asks)) && steps(old(clock)).Works? && (launches != old(launches) ==> steps(old(clock) + 1).Works?)
      ensures free(old(asks)) && !steps(old(clock)).Works? ==> !e.Finishes? && !Launched(e)
      ensures Uninterrupted() ==> !e.Stops?
      ensures NothingFails() ==> Now() == Restart(catalog, archives, old(Now()), Finishes)
    {
      var idle := Ask(free);
      if !idle { return Stops(false, false); }
      var s := Try();  // the plan and the catalog's signature
      if !s.Works? { e := GiveUp(s, false, false); return; }
      e := Proceed();
    }

    /** The first pending component, or else the code. */
    method Proceed() returns (e: Ending)
      requires plan.Some?
      modifies this`plan, this`failed, this`shell, this`pairId, this`napCatMarker, this`asrId, this`release, this`clock, this`asks, this`launches
      ensures Now() == Restart(catalog, archives, old(Now()), e)
      ensures failed == if plan.None? && Broke(catalog, archives, old(Now()), e) then old(plan) else old(failed)
      ensures Ceases(old(clock), e)
      ensures launches != old(launches) ==> steps(old(clock)).Works?
      ensures Uninterrupted() ==> !e.Stops?
      ensures NothingFails() ==> Now() == Restart(catalog, archives, old(Now()), Finishes)
    {
      var todo := plan.value;
      var shellPending := todo.shell && ShellDiffers(catalog, shell);
      var napCatPending := todo.napCat && napCatMarker != Some(catalog.napCat);
      var asrPending := todo.asr && catalog.asr.Some? && asrId != catalog.asr;
      if shellPending || napCatPending || asrPending {
        var kind := if shellPending then ShellZip else if napCatPending then NapCatInstaller else AsrInstaller;
        e := Launch(kind);
        return;
      }
      e := SwitchCode();
    }

    method Launch(kind: Kind) returns (e: Ending)
      requires plan.Some?
      modifies this`plan, this`failed, this`shell, this`pairId, this`napCatMarker, this`asrId, this`clock, this`asks, this`launches
      ensures launches == (if Launched(e) then old(launches) + [kind] else old(launches))
      ensures Ceases(old(clock), e)
      ensures Launched(e) <==> steps(old(clock)).Works?
      ensures Effective(catalog, archives, kind, e) == e || !Launched(e)
      ensures Components() == if Launched(e) && Applied(e) then Install(catalog, archives, old(Components()), kind) else old(Components())
      ensures plan == (if e.Breaks? then None else old(plan)) && failed == if e.Breaks? then old(plan) else old(failed)
      ensures Uninterrupted() ==> !e.Stops?
      ensures NothingFails() ==> e == Effective(catalog, archives, kind, Finishes)
    {
      var s := Try();
      if !s.Works? { e := GiveUp(s, false, false); return; }
      launches := launches + [kind];
      e := RunWorker(kind);
    }
  }
}
