/**
 Write-ahead undo for the audio preferences of one program: `ApplicationAudioRoute`.

 Six preferences, two flows by three roles, are overwritten under a backup file that is
 written first.  `World` is what outlives a crash, `Event` the smallest changes to it, and
 `Settled` the invariant: restoring now would give the user's own value of every
 preference.  The class keeps a ghost log; every method proves that whatever it did,
 finished, failed or crashed half way, was a legal continuation of that log, so the
 theorems about `Run` cover every history of routing, rerouting, crashing and closing.
 */
module AudioRoute {
  import opened Wrappers

  const SLOTS := 6

  /** One preference: slot `3 * flow + role`, the value found, the value wanted. */
  datatype Preference = Preference(slot: nat, previous: string, desired: string)

  datatype Backup = Backup(executable: string, items: seq<Preference>)

  /** The preferences, the backup file, and the values the user last chose. */
  datatype World = World(current: seq<string>, backup: Option<Backup>, own: seq<string>)

  datatype Event =
    | RestoreItem(slot: nat)
    | DropBackup
    | WriteBackup(executable: string, desired: seq<string>)
    | Route(slot: nat)
    | UserSets(slot: nat, choice: string)

  /** `ShouldRestore` decides; this is the value a preference has after a restore. */
  function Restored(current: string, item: Preference): string {
    if ShouldRestore(current, item) then item.previous else current
  }

  predicate ShouldRestore(current: string, item: Preference) {
    current == item.desired
  }

  function Items(current: seq<string>, desired: seq<string>): (items: seq<Preference>)
    requires |current| == |desired|
    ensures |items| == |current|
  {
    seq(|current|, k requires 0 <= k < |current| => Preference(k, current[k], desired[k]))
  }

  predicate Shaped(w: World) {
    && |w.current| == SLOTS && |w.own| == SLOTS
    && (w.backup.Some? ==>
          && |w.backup.value.items| == SLOTS
          && forall k :: 0 <= k < SLOTS ==> w.backup.value.items[k].slot == k)
  }

  predicate Enabled(w: World, e: Event)
    requires Shaped(w)
  {
    match e
    case RestoreItem(k) => k < SLOTS && w.backup.Some? && ShouldRestore(w.current[k], w.backup.value.items[k])
    case DropBackup => w.backup.Some? &&
                       forall k :: 0 <= k < SLOTS ==> Restored(w.current[k], w.backup.value.items[k]) == w.current[k]
    case WriteBackup(_, desired) => w.backup.None? && |desired| == SLOTS
    case Route(k) => k < SLOTS && w.backup.Some? && w.current[k] == w.backup.value.items[k].previous
    case UserSets(k, v) => k < SLOTS && (w.backup.Some? ==> Restored(v, w.backup.value.items[k]) == v)
  }

  function Apply(w: World, e: Event): (w': World)
    requires Shaped(w) && Enabled(w, e)
    ensures Shaped(w')
  {
    match e
    case RestoreItem(k) => w.(current := w.current[k := w.backup.value.items[k].previous])
    case DropBackup => w.(backup := None)
    case WriteBackup(x, desired) => w.(backup := Some(Backup(x, Items(w.current, desired))))
    case Route(k) => w.(current := w.current[k := w.backup.value.items[k].desired])
    case UserSets(k, v) => w.(current := w.current[k := v], own := w.own[k := v])
  }

  predicate Legal(w: World, es: seq<Event>)
    requires Shaped(w)
    decreases |es|
  {
    es == [] || (Enabled(w, es[0]) && Legal(Apply(w, es[0]), es[1..]))
  }

  function Run(w: World, es: seq<Event>): (w': World)
    requires Shaped(w) && Legal(w, es)
    ensures Shaped(w')
    decreases |es|
  {
    if es == [] then w else Run(Apply(w, es[0]), es[1..])
  }

  lemma {:induction false} RunLonger(w: World, es: seq<Event>, e: Event)
    requires Shaped(w) && Legal(w, es) && Enabled(Run(w, es), e)
    ensures Legal(w, es + [e]) && Run(w, es + [e]) == Apply(Run(w, es), e)
    decreases |es|
  {
    if es == [] {
      assert [e][1..] == [];
    } else {
      RunLonger(Apply(w, es[0]), es[1..], e);
      assert (es + [e])[1..] == es[1..] + [e];
    }
  }

  // ---- what every history keeps ----

  /** Restoring now would leave every preference at the user's own value. */
  predicate Settled(w: World)
    requires Shaped(w)
  {
    forall k :: 0 <= k < SLOTS ==>
      (if w.backup.Some? then Restored(w.current[k], w.backup.value.items[k]) else w.current[k]) == w.own[k]
  }

  lemma EventKeepsSettled(w: World, e: Event)
    requires Shaped(w) && Settled(w) && Enabled(w, e)
    ensures Settled(Apply(w, e))
  {
    var w' := Apply(w, e);
    forall k | 0 <= k < SLOTS
      ensures (if w'.backup.Some? then Restored(w'.current[k], w'.backup.value.items[k]) else w'.current[k]) == w'.own[k]
    {
      assert (if w.backup.Some? then Restored(w.current[k], w.backup.value.items[k]) else w.current[k]) == w.own[k];
    }
  }

  /** Any history from an unrouted start is settled throughout; with no backup left, the user has everything back. */
  lemma {:induction false} HistoryIsSettled(w: World, es: seq<Event>)
    requires Shaped(w) && Settled(w) && Legal(w, es)
    ensures Settled(Run(w, es))
    ensures Run(w, es).backup.None? ==> Run(w, es).current == Run(w, es).own
    decreases |es|
  {
    if es == [] {
      assert w.backup.None? ==> forall k :: 0 <= k < SLOTS ==> w.current[k] == w.own[k];
    } else {
      EventKeepsSettled(w, es[0]);
      HistoryIsSettled(Apply(w, es[0]), es[1..]);
    }
  }

  /** A recorded `previous` is the user's own value, never one the program wrote. */
  lemma RecordedValuesAreTheUsers(w: World, es: seq<Event>, executable: string, desired: seq<string>)
    requires Shaped(w) && Settled(w) && Legal(w, es) && Enabled(Run(w, es), WriteBackup(executable, desired))
    ensures Legal(w, es + [WriteBackup(executable, desired)])
    ensures var w' := Run(w, es + [WriteBackup(executable, desired)]);
      w'.backup.Some? && forall k :: 0 <= k < SLOTS ==> w'.backup.value.items[k].previous == w'.own[k]
  {
    RunLonger(w, es, WriteBackup(executable, desired));
    HistoryIsSettled(w, es);
  }

  // ---- exactly which changes the scheme cannot carry ----

  /** While routed, a choice of the user's survives the restore unless it is the routed device itself. */
  lemma UserChoiceSurvivesUnlessRouted(w: World, k: nat, v: string)
    requires Shaped(w) && Settled(w) && k < SLOTS && w.backup.Some?
    ensures Settled(w.(current := w.current[k := v], own := w.own[k := v])) <==>
            (v != w.backup.value.items[k].desired || v == w.backup.value.items[k].previous)
  {
    var w' := w.(current := w.current[k := v], own := w.own[k := v]);
    assert Restored(w'.current[k], w.backup.value.items[k]) == w'.own[k] <==>
           (v != w.backup.value.items[k].desired || v == w.backup.value.items[k].previous);
    forall j | 0 <= j < SLOTS && j != k ensures Restored(w'.current[j], w.backup.value.items[j]) == w'.own[j] {
      assert Restored(w.current[j], w.backup.value.items[j]) == w.own[j];
    }
  }

  /** Overwriting a preference is safe exactly when the value recorded for it is still the user's. */
  lemma RoutingIsSafeIffRecordIsFresh(w: World, k: nat)
    requires Shaped(w) && Settled(w) && k < SLOTS && w.backup.Some?
    ensures Settled(w.(current := w.current[k := w.backup.value.items[k].desired])) <==>
            w.backup.value.items[k].previous == w.own[k]
  {
    var items := w.backup.value.items;
    var w' := w.(current := w.current[k := items[k].desired]);
    assert Restored(w'.current[k], items[k]) == items[k].previous;
    forall j | 0 <= j < SLOTS && j != k ensures Restored(w'.current[j], items[j]) == w'.own[j] {
      assert Restored(w.current[j], items[j]) == w.own[j];
    }
  }

  // ---- the code ----

  /** How one call into the system, or one file operation, may end; a setting can be ignored without a word. */
  datatype Step = Works | Ignores | InvalidArgument | Fails | Crashes

  /** What the caller is told. */
  function Reported(s: Step): Step {
    if s.Ignores? then Works else s
  }

  predicate IsDone(s: Step) { s.Works? }

  /** What `Inspect` finds: the private program and when it started, another program, or none. */
  datatype Inspection = Private(started: int) | Foreign | Gone

  datatype Outcome = Returned(routed: bool) | Threw(invalidArgument: bool) | Crashed

  const ROLES := 3

  /** Flow 0 plays, flow 1 records; the slots are the three roles of one and then of the other. */
  function FlowOf(slot: nat): nat { slot / ROLES }

  /** How the ids of a flow's endpoints begin. */
  function Endpoints(flow: nat): string {
    if flow == 0 then "{0.0.0.00000000}." else "{0.0.1.00000000}."
  }

  function Interface(flow: nat): string {
    if flow == 0 then "#{e6327cad-dcec-4949-ae8a-991e976a79d2}" else "#{2eef81be-33fa-4800-9670-1cd474972c3f}"
  }

  const DEVICES := "\\\\?\\SWD#MMDEVAPI#"

  /** The device path Windows stores for an endpoint of the given flow. */
  function Pack(id: string, flow: nat): string {
    DEVICES + id + Interface(flow)
  }

  /** The six wanted values. */
  function Wanted(input: string, output: string): (r: seq<string>)
    ensures |r| == SLOTS
  {
    seq(SLOTS, k requires 0 <= k < SLOTS => if k < ROLES then Pack(output, 0) else Pack(input, 1))
  }

  predicate DirectionsMatch(input: string, output: string) {
    Endpoints(1) <= input && Endpoints(0) <= output
  }

  /** The path of an endpoint of this flow, under the interface of this flow. */
  ghost predicate LeadsTo(path: string, flow: nat, id: string) {
    path == DEVICES + id + Interface(flow) && Endpoints(flow) <= id
  }

  /** Each slot gets an endpoint of its own flow: the chosen output where it plays, the chosen input where it records. */
  lemma WantedByFlow(input: string, output: string, k: nat)
    requires DirectionsMatch(input, output) && k < SLOTS
    ensures LeadsTo(Wanted(input, output)[k], FlowOf(k), if FlowOf(k) == 0 then output else input)
  {
    if k < ROLES {
      assert FlowOf(k) == 0 && Wanted(input, output)[k] == Pack(output, 0);
    } else {
      assert FlowOf(k) == 1 && Wanted(input, output)[k] == Pack(input, 1);
    }
  }

  class ApplicationAudioRoute {
    const executable: string
    // Outlives the process: the preferences and the two files.
    var preferences: seq<string>
    var backup: Option<Backup>
    var ready: bool
    // Lost in a crash.
    var routedPid: int
    var routedStart: int
    var input: string
    var output: string
    // The environment: how each step ends, and which processes are the private one.
    const steps: nat -> Step
    const inspections: (nat, int) -> Inspection
    var clock: nat
    var looks: nat
    // The user's choices, and everything that happened since an unrouted start.
    ghost var own: seq<string>
    ghost const start: World
    ghost var log: seq<Event>
    /** How many steps were not done so far, in fact and not only by report. */
    ghost var missed: nat

    ghost function State(): World
      reads this`preferences, this`backup, this`own
    {
      World(preferences, backup, own)
    }

    ghost predicate Counted()
      reads this`clock, this`missed
    {
      missed == Failures(steps, IsDone, 0, clock)
    }

    ghost predicate Valid()
      reads this`preferences, this`backup, this`own, this`log, this`clock, this`missed
    {
      && Counted()
      && Shaped(start) && start.backup.None? && Settled(start)
      && Legal(start, log) && Run(start, log) == State()
      && (backup.Some? ==> backup.value.executable == executable)
    }

    constructor (executable: string, preferences: seq<string>, steps: nat -> Step, inspections: (nat, int) -> Inspection)
      requires |preferences| == SLOTS
      ensures Valid() && State() == World(preferences, None, preferences)
    {
      this.executable, this.preferences, this.backup, this.ready := executable, preferences, None, false;
      this.routedPid, this.routedStart, this.input, this.output := 0, 0, "", "";
      this.steps, this.inspections, this.clock, this.looks := steps, inspections, 0, 0;
      this.own, this.start, this.log, this.missed := preferences, World(preferences, None, preferences), [], 0;
    }

    method Tick() returns (s: Step)
      modifies this`clock, this`missed
      requires Counted()
      ensures Counted() && s == steps(old(clock)) && clock == old(clock) + 1 && missed == old(missed) + One(!IsDone(s))
    {
      s := steps(clock);
      clock, missed := clock + 1, missed + One(!IsDone(s));
    }

    /** `Inspect`: only the private program at its exact path is ever changed. */
    method Inspect(pid: int) returns (i: Inspection)
      modifies this`looks
      ensures i == inspections(old(looks), pid) && looks == old(looks) + 1
      ensures !i.Private? ==> !AlwaysPrivate(pid)
      ensures i.Foreign? ==> !NeverForeign(pid)
    {
      i := inspections(looks, pid);
      looks := looks + 1;
    }

    ghost predicate AllReported(since: nat)
      reads this`clock
    {
      forall k :: since <= k < clock ==> Reported(steps(k)).Works?
    }

    /** Every step since then was reported as done, but perhaps the last. */
    ghost predicate WentOn(since: nat)
      reads this`clock
    {
      forall k :: since <= k < clock - 1 ==> Reported(steps(k)).Works?
    }

    /** How something ends that gives up at the first step that fails, or throws when reading back disagrees. */
    ghost predicate EndsAt(since: nat, r: Outcome)
      reads this`clock
    {
      && clock > since && WentOn(since)
      && r == if Reported(steps(clock - 1)).Works? then Threw(false) else Stopped(Reported(steps(clock - 1)))
    }

    /** Nothing fails, and one of the processes is the private program throughout. */
    ghost predicate Smooth(pids: seq<int>) {
      && (forall n :: steps(n).Works?)
      && (exists p :: p in pids && AlwaysPrivate(p))
    }

    ghost predicate AlwaysPrivate(pid: int) {
      forall n :: inspections(n, pid).Private?
    }

    ghost predicate NeverForeign(pid: int) {
      forall n :: !inspections(n, pid).Foreign?
    }

    lemma NothingMissed()
      requires Counted()
      ensures (forall n :: steps(n).Works?) ==> missed == 0
    {
      NoFailures(steps, IsDone, 0, clock);
    }

    /** The state takes the step `e`, and the log says so. */
    ghost method Record(e: Event)
      requires Valid() && Enabled(State(), e) && (e.WriteBackup? ==> e.executable == executable)
      modifies this`log
      ensures old(log) <= log && Legal(start, log) && Run(start, log) == Apply(State(), e)
    {
      RunLonger(start, log, e);
      log := log + [e];
    }

    /** `Policy.Get`. */
    method Get(slot: nat) returns (s: Step, value: string)
      requires Valid() && slot < SLOTS
      modifies this`clock, this`missed
      ensures Valid() && s == Reported(steps(old(clock))) && clock == old(clock) + 1 && missed == old(missed) + One(!IsDone(steps(old(clock))))
      ensures s.Works? ==> value == preferences[slot]
    {
      s := Tick();
      s := Reported(s);
      value := preferences[slot];
    }

    /** `Policy.Set`, for the reason `e`; only reading back tells whether it took effect. */
    method Set(slot: nat, value: string, ghost e: Event) returns (s: Step)
      requires Valid() && slot < SLOTS && Enabled(State(), e) && !e.WriteBackup?
      requires Apply(State(), e) == State().(current := preferences[slot := value])
      modifies this`preferences, this`clock, this`missed, this`log
      ensures Valid() && old(log) <= log && s == Reported(steps(old(clock))) && clock == old(clock) + 1 && missed == old(missed) + One(!IsDone(steps(old(clock))))
      ensures State() == if steps(old(clock)).Works? then Apply(old(State()), e) else old(State())
    {
      s := Tick();
      if s.Works? {
        Record(e);
        preferences := preferences[slot := value];
      }
      s := Reported(s);
    }

    /** Writing or deleting the backup file, for the reason `e`; the file changes whole or not at all. */
    method SetBackup(value: Option<Backup>, ghost e: Event) returns (s: Step)
      requires Valid() && Enabled(State(), e) && (e.WriteBackup? ==> e.executable == executable)
      requires Apply(State(), e) == State().(backup := value)
      modifies this`backup, this`clock, this`missed, this`log
      ensures Valid() && old(log) <= log && s == Reported(steps(old(clock))) && clock == old(clock) + 1 && missed == old(missed) + One(!IsDone(steps(old(clock))))
      ensures State() == if s.Works? then Apply(old(State()), e) else old(State())
    {
      s := Tick();
      s := Reported(s);
      if s.Works? {
        Record(e);
        backup := value;
      }
    }

    /** The user picks a device in the system's own settings. */
    method UserChooses(slot: nat, choice: string)
      requires Valid() && Enabled(State(), UserSets(slot, choice))
      modifies this
      ensures Valid() && old(log) <= log
      ensures State() == Apply(old(State()), UserSets(slot, choice))
    {
      Record(UserSets(slot, choice));
      preferences := preferences[slot := choice];
      own := own[slot := choice];
    }

    /** The process died and a new one starts: memory is lost, files and preferences are not. */
    method Restart()
      requires Valid()
      modifies this`ready, this`routedPid, this`routedStart, this`input, this`output
      ensures Valid() && State() == old(State())
      ensures !ready && routedPid == routedStart == 0 && input == output == ""
    {
      ready, routedPid, routedStart, input, output := false, 0, 0, "", "";
    }

    /** One turn of the restore loop. */
    method RestoreOne(k: nat) returns (r: Option<Outcome>)
      requires Valid() && k < SLOTS && backup.Some?
      requires forall j :: 0 <= j < k ==> Restored(preferences[j], backup.value.items[j]) == preferences[j]
      modifies this`preferences, this`clock, this`missed, this`log
      ensures Valid() && missed >= old(missed) && old(log) <= log
      ensures r.None? ==>
        State() == if ShouldRestore(old(preferences)[k], backup.value.items[k]) then Apply(old(State()), RestoreItem(k)) else old(State())
      // The first step that fails ends it; reading back what was set is the last one.
      ensures if r.None? then clock > old(clock) && WentOn(old(clock)) && Reported(steps(clock - 1)).Works? else EndsAt(old(clock), r.value)
      ensures r.Some? ==> missed > old(missed)
    {
      var item := backup.value.items[k];
      var s, value := Get(item.slot);
      if !s.Works? { return Some(Stopped(s)); }
      if !ShouldRestore(value, item) { return None; }
      s := Set(item.slot, item.previous, RestoreItem(k));
      if !s.Works? { return Some(Stopped(s)); }
      s, value := Get(item.slot);
      if !s.Works? { return Some(Stopped(s)); }
      if value != item.previous { return Some(Threw(false)); }
      r := None;
    }

    /** `Restore`: put back what is still routed, item by item, then forget the backup. */
    method Restore() returns (r: Outcome)
      requires Valid()
      modifies this`preferences, this`backup, this`clock, this`missed, this`log
      ensures Valid() && missed >= old(missed) && old(log) <= log
      ensures r.Returned? ==> State() == World(own, None, own)
      ensures !r.Returned? ==> backup == old(backup) && EndsAt(old(clock), r) && missed > old(missed)
      ensures clock >= old(clock) && (old(backup).None? ==> r.Returned? && clock == old(clock)) && r != Returned(true)
      ensures r.Returned? ==> AllReported(old(clock))
    {
      HistoryIsSettled(start, log);
      if backup.None? { return Returned(false); }
      ghost var since := clock;
      for k := 0 to SLOTS
        invariant Valid() && missed >= old(missed) && old(log) <= log && backup == old(backup)
        invariant forall j :: 0 <= j < k ==> Restored(preferences[j], backup.value.items[j]) == preferences[j]
        invariant clock >= since && AllReported(since)
      {
        var stop := RestoreOne(k);
        if stop.Some? {
          return stop.value;
        }
      }
      var s := SetBackup(None, DropBackup);
      if !s.Works? { return Stopped(s); }
      HistoryIsSettled(start, log);
      r := Returned(false);
    }

    function Stopped(s: Step): Outcome
    {
      if s.Crashes? then Crashed else Threw(s.InvalidArgument?)
    }

    /** Nothing is routed and nothing recorded. */
    ghost predicate Unrouted()
      reads this`preferences, this`backup, this`own
    {
      State() == World(own, None, own)
    }

    /** Some process was found to be the private one. */
    ghost predicate FoundPrivate(pids: seq<int>) {
      exists p, n :: p in pids && inspections(n, p).Private?
    }

    /** One turn of the loop of `Close`; nothing when this process is not the private one or does not accept the interface. */
    method CloseThrough(pid: int) returns (r: Option<Outcome>)
      requires Valid()
      modifies this`preferences, this`backup, this`routedPid, this`clock, this`looks, this`missed, this`log
      ensures Valid() && missed >= old(missed) && old(log) <= log
      ensures !inspections(old(looks), pid).Private? ==> r.None? && State() == old(State())
      ensures r.Some? && r.value.Returned? ==> r == Some(Returned(true)) && Unrouted()
      ensures r.Some? && !r.value.Returned? ==> missed > old(missed) && r != Some(Threw(true))
      ensures r.None? && inspections(old(looks), pid).Private? ==> missed > old(missed)
    {
      var found := Inspect(pid);
      if !found.Private? { return None; }
      var restored := Restore();
      match restored {
        case Returned(_) => routedPid := 0; r := Some(Returned(true));
        case Threw(true) => r := None;
        case _ => r := Some(restored);
      }
    }

    /** `Close`: restore through the first process that is the private one and accepts the interface. */
    method Close(processes: seq<int>) returns (r: Outcome)
      requires Valid()
      modifies this`preferences, this`backup, this`ready, this`routedPid, this`clock, this`looks, this`missed, this`log
      ensures Valid() && missed >= old(missed) && old(log) <= log && !ready
      ensures r == Returned(true) ==> State() == World(own, None, own)
      ensures backup.Some? ==> r != Returned(true)
      // Nothing to do is done at once, and only the private program is ever touched.
      ensures old(backup).None? ==> r == Returned(true) && State() == old(State())
      ensures !FoundPrivate(processes) ==> State() == old(State())
      // It gives up only for a step that failed, passing over processes that do not accept the interface.
      ensures r.Threw? || r.Crashed? ==> missed > old(missed) && r != Threw(true)
      ensures Smooth(processes) ==> r == Returned(true)
    {
      ready := false;
      HistoryIsSettled(start, log);
      if backup.None? { return Returned(true); }
      for i := 0 to |processes|
        invariant Valid() && missed >= old(missed) && old(log) <= log && !ready
        invariant !FoundPrivate(processes) ==> State() == old(State())
        invariant Smooth(processes) ==> forall j :: 0 <= j < i ==> !AlwaysPrivate(processes[j])
      {
        var turn := CloseThrough(processes[i]);
        NothingMissed();
        if turn.Some? { return turn.value; }
      }
      r := Returned(false);
    }

    /** The process routed last is still there, the same, and routed to these devices. */
    ghost predicate IsRouted(pids: seq<int>, desiredInput: string, desiredOutput: string, i: Inspection)
      reads this
    {
      && routedPid in pids && input == desiredInput && output == desiredOutput
      && i == Private(routedStart) && preferences == Wanted(desiredInput, desiredOutput)
    }

    /** The early return of `Ensure`: the same process is still routed to the same devices. */
    method StillRouted(pids: seq<int>, desiredInput: string, desiredOutput: string) returns (r: Option<Outcome>)
      requires Valid()
      modifies this`clock, this`missed, this`looks
      ensures Valid() && missed >= old(missed) && clock >= old(clock)
      ensures r == Some(Returned(true)) ==> IsRouted(pids, desiredInput, desiredOutput, inspections(old(looks), routedPid))
      ensures r.Some? && r.value.Threw? ==> r == Some(Threw(false))
      ensures r.Some? ==> r.value != Returned(false)
      // It is noticed but for a step that failed; another program in its place is refused.
      ensures IsRouted(pids, desiredInput, desiredOutput, inspections(old(looks), routedPid)) ==>
                r == Some(Returned(true)) || missed > old(missed)
      ensures r.Some? && r != Some(Returned(true)) ==> missed > old(missed) || inspections(old(looks), routedPid).Foreign?
      ensures r.Some? && r != Some(Returned(true)) && missed == old(missed) ==> !NeverForeign(routedPid)
    {
      if routedPid !in pids || input != desiredInput || output != desiredOutput { return None; }
      var found := Inspect(routedPid);
      if found.Foreign? { return Some(Threw(false)); }
      if found.Gone? || found.started != routedStart { return None; }
      ghost var since := clock;
      for k := 0 to SLOTS
        invariant Valid() && missed >= old(missed) && clock == since + k
        invariant preferences[..k] == Wanted(input, output)[..k]
      {
        var s, value := Get(k);
        if s.InvalidArgument? { return None; }
        if !s.Works? { return Some(Stopped(s)); }
        if value != Wanted(input, output)[k] { return None; }
        assert preferences[..k + 1] == preferences[..k] + [preferences[k]];
        assert Wanted(input, output)[..k + 1] == Wanted(input, output)[..k] + [Wanted(input, output)[k]];
      }
      assert preferences == preferences[..SLOTS];
      r := Some(Returned(true));
    }

    /** The six reads that decide whether a process takes part at all. */
    method ReadAll() returns (s: Step, values: seq<string>)
      requires Valid()
      modifies this`clock, this`missed
      ensures Valid() && missed >= old(missed) && old(clock) < clock <= old(clock) + SLOTS
      ensures s.Works? ==> values == preferences && clock == old(clock) + SLOTS
      ensures s == Reported(steps(clock - 1)) && WentOn(old(clock))
      ensures !s.Works? ==> missed > old(missed)
    {
      values := [];
      s := Works;
      ghost var since := clock;
      for k := 0 to SLOTS
        invariant Valid() && missed >= old(missed) && s.Works? && clock == since + k && (k > 0 ==> s == Reported(steps(clock - 1)))
        invariant values == preferences[..k] && AllReported(since)
      {
        var value;
        s, value := Get(k);
        if !s.Works? { return; }
        values := values + [value];
      }
    }

    ghost predicate Routed(desiredInput: string, desiredOutput: string)
      reads this`preferences, this`backup
    {
      preferences == Wanted(desiredInput, desiredOutput) && backup.Some?
    }

    /** Route all six under a fresh backup; a failure restores before it is passed on. */
    method RouteAll(desired: seq<string>) returns (r: Outcome)
      requires Valid() && backup.Some? && |desired| == SLOTS
      requires backup.value.items == Items(preferences, desired)
      modifies this`preferences, this`backup, this`clock, this`missed, this`log
      ensures Valid() && missed >= old(missed) && old(log) <= log && clock > old(clock)
      ensures r.Returned? ==> r == Returned(true) && preferences == desired && backup == old(backup)
      // A crash is the last step; any other single failure is undone.
      ensures CrashesLast(old(clock), r)
      ensures !r.Returned? ==> missed > old(missed)
      ensures r.Threw? && missed == old(missed) + 1 ==> Unrouted()
    {
      var done, s := RouteEach(desired);
      if done { return Returned(true); }
      if s.Crashes? { return Crashed; }
      r := GiveBack(s);
    }

    /** The loop over the six items, up to the first that fails or reads back as something else. */
    method RouteEach(desired: seq<string>) returns (done: bool, s: Step)
      requires Valid() && backup.Some? && |desired| == SLOTS
      requires backup.value.items == Items(preferences, desired)
      modifies this`preferences, this`clock, this`missed, this`log
      ensures Valid() && missed >= old(missed) && old(log) <= log && clock > old(clock)
      ensures done ==> preferences == desired
      ensures s == Reported(steps(clock - 1)) && WentOn(old(clock))
      ensures if done then s.Works? else missed > old(missed)
    {
      var items := backup.value.items;
      ghost var since := clock;
      s := Works;
      for k := 0 to SLOTS
        invariant Valid() && missed >= old(missed) && old(log) <= log && backup == old(backup) && clock >= since && s.Works?
        invariant k > 0 ==> clock > since && s == Reported(steps(clock - 1))
        invariant AllReported(since)
        invariant PartlyRouted(items, desired, k)
      {
        var value;
        s, value := RouteOne(k);
        if !s.Works? || value != items[k].desired {
          return false, s;
        }
      }
      done := true;
    }

    ghost predicate PartlyRouted(items: seq<Preference>, desired: seq<string>, n: nat)
      reads this`preferences
      requires |preferences| == |desired| == |items| == SLOTS
    {
      forall j :: 0 <= j < SLOTS ==> preferences[j] == if j < n then desired[j] else items[j].previous
    }

    /** No step crashed, or the last one did and the outcome says so. */
    ghost predicate CrashesLast(since: nat, r: Outcome)
      reads this`clock
    {
      && (forall k :: since <= k < clock - 1 ==> !steps(k).Crashes?)
      && (r.Crashed? <==> clock > since && steps(clock - 1).Crashes?)
    }

    /** The handler: restore, then pass the failure on, or the restore's own. */
    method GiveBack(s: Step) returns (r: Outcome)
      requires Valid() && !s.Crashes?
      modifies this`preferences, this`backup, this`clock, this`missed, this`log
      ensures Valid() && missed >= old(missed) && old(log) <= log && !r.Returned?
      ensures clock >= old(clock) && CrashesLast(old(clock), r)
      ensures missed == old(missed) ==> Unrouted()
    {
      HistoryIsSettled(start, log);
      r := Restore();
      if r.Returned? { r := Stopped(s); }
    }

    /** Set one item and read it back. */
    method RouteOne(k: nat) returns (s: Step, value: string)
      requires Valid() && backup.Some? && k < SLOTS && preferences[k] == backup.value.items[k].previous
      modifies this`preferences, this`clock, this`missed, this`log
      ensures Valid() && missed >= old(missed) && old(log) <= log
      ensures preferences == old(preferences) || preferences == old(preferences)[k := backup.value.items[k].desired]
      ensures old(clock) < clock <= old(clock) + 2 && s == Reported(steps(clock - 1)) && WentOn(old(clock))
      ensures s.Works? ==> clock == old(clock) + 2 && value == preferences[k]
      ensures !s.Works? || value != backup.value.items[k].desired ==> missed > old(missed)
    {
      value := "";
      s := Set(k, backup.value.items[k].desired, Route(k));
      if s.Works? { s, value := Get(k); }
    }

    /** Read the six values, recovering a previous crash or another device choice before they are recorded. */
    method TakeOriginals() returns (skip: bool, stop: Option<Outcome>, original: seq<string>)
      requires Valid()
      modifies this`preferences, this`backup, this`clock, this`missed, this`log
      ensures Valid() && missed >= old(missed) && old(log) <= log && clock > old(clock)
      ensures !skip && stop.None? ==> backup.None? && original == preferences
      ensures stop.Some? ==> !stop.value.Returned?
      // A process that does not accept the interface is skipped, untouched; without a backup nothing is touched at all.
      ensures skip ==> State() == old(State()) && Reported(steps(clock - 1)).InvalidArgument? && clock <= old(clock) + SLOTS
      ensures old(backup).None? ==> State() == old(State()) && clock <= old(clock) + SLOTS
      ensures stop == Some(Threw(true)) ==> clock > old(clock) + SLOTS
      ensures skip || stop.Some? ==> missed > old(missed)
    {
      skip, stop := false, None;
      var s;
      s, original := ReadAll();
      if s.InvalidArgument? { skip := true; return; }
      if !s.Works? { stop := Some(Stopped(s)); return; }
      if backup.Some? {
        var undone := Restore();
        if !undone.Returned? { stop := Some(undone); return; }
        s, original := ReadAll();
        if !s.Works? { stop := Some(Stopped(s)); }
      }
    }

    /** Write the backup, then route. */
    method RouteUnderBackup(original: seq<string>, desired: seq<string>) returns (r: Outcome)
      requires Valid() && backup.None? && original == preferences && |desired| == SLOTS
      modifies this`preferences, this`backup, this`clock, this`missed, this`log
      ensures Valid() && missed >= old(missed) && old(log) <= log && clock > old(clock)
      ensures r.Returned? ==> r == Returned(true) && preferences == desired && backup.Some?
      ensures !r.Returned? ==> missed > old(missed)
      ensures r.Threw? && missed == old(missed) + 1 ==> Unrouted()
    {
      var saved := Backup.Backup(executable, Items(original, desired));
      HistoryIsSettled(start, log);
      var s := SetBackup(Some(saved), WriteBackup(executable, desired));
      if !s.Works? { return Stopped(s); }
      r := RouteAll(desired);
    }

    /** The file that says which devices are in use. */
    method WriteReady() returns (s: Step)
      requires Valid()
      modifies this`ready, this`clock, this`missed
      ensures Valid() && s == Reported(steps(old(clock))) && clock == old(clock) + 1 && missed == old(missed) + One(!IsDone(steps(old(clock))))
      ensures ready == (s.Works? || old(ready))
    {
      s := Tick();
      s := Reported(s);
      if s.Works? { ready := true; }
    }

    /** One turn of `Ensure`'s loop; nothing when this process does not take part. */
    method RouteProcess(pid: int, desiredInput: string, desiredOutput: string) returns (r: Option<Outcome>)
      requires Valid() && !ready
      modifies this
      ensures Valid() && missed >= old(missed) && old(log) <= log && own == old(own) && clock >= old(clock)
      ensures r == Some(Returned(true)) ==> preferences == Wanted(desiredInput, desiredOutput) && backup.Some?
      ensures r == Some(Returned(true)) ==>
        ready && routedPid == pid && input == desiredInput && output == desiredOutput && inspections(old(looks), pid) == Private(routedStart)
      ensures r != Some(Returned(true)) ==> !ready
      ensures r.Some? ==> r.value != Returned(false)
      // Untouched unless it is the private program and takes part.
      ensures r.None? || !inspections(old(looks), pid).Private? ==> State() == old(State())
      ensures r.Some? ==> inspections(old(looks), pid).Private?
      ensures r.None? && AlwaysPrivate(pid) ==> missed > old(missed)
      ensures r.Some? && r != Some(Returned(true)) ==> missed > old(missed)
      // A single failure leaves either the user's devices or the wanted ones.
      ensures old(backup).None? && r.Some? && r.value.Threw? && missed == old(missed) + 1 ==> Unrouted() || Routed(desiredInput, desiredOutput)
    {
      var found := Inspect(pid);
      if !found.Private? { return None; }
      HistoryIsSettled(start, log);
      var skip, stop, original := TakeOriginals();
      if skip { return None; }
      if stop.Some? { return stop; }
      var routed := RouteAndAnnounce(pid, found.started, original, desiredInput, desiredOutput);
      r := Some(routed);
    }

    /** Route, then say so. */
    method RouteAndAnnounce(pid: int, started: int, original: seq<string>, desiredInput: string, desiredOutput: string) returns (r: Outcome)
      requires Valid() && !ready && backup.None? && original == preferences
      modifies this`preferences, this`backup, this`ready, this`routedPid, this`routedStart, this`input, this`output, this`clock, this`missed, this`log
      ensures Valid() && missed >= old(missed) && old(log) <= log && clock > old(clock) && r != Returned(false)
      ensures r == Returned(true) ==> ready && Routed(desiredInput, desiredOutput)
      ensures r == Returned(true) ==> routedPid == pid && routedStart == started && input == desiredInput && output == desiredOutput
      ensures r != Returned(true) ==> !ready && missed > old(missed)
      ensures r.Threw? && missed == old(missed) + 1 ==> Unrouted() || Routed(desiredInput, desiredOutput)
    {
      r := RouteUnderBackup(original, Wanted(desiredInput, desiredOutput));
      if !r.Returned? { return; }
      routedPid, routedStart, input, output := pid, started, desiredInput, desiredOutput;
      var s := WriteReady();
      if !s.Works? { return Stopped(s); }
      r := Returned(true);
    }

    /** The loop over the processes. */
    method RouteFirst(pids: seq<int>, desiredInput: string, desiredOutput: string) returns (r: Outcome)
      requires Valid() && !ready
      modifies this
      ensures Valid() && missed >= old(missed) && old(log) <= log && own == old(own) && clock >= old(clock)
      ensures !FoundPrivate(pids) || r == Returned(false) ==> State() == old(State())
      ensures r == Returned(true) ==> ready && Routed(desiredInput, desiredOutput)
      ensures r == Returned(true) ==> routedPid in pids && input == desiredInput && output == desiredOutput
      ensures r != Returned(true) ==> !ready
      ensures !r.Returned? ==> missed > old(missed)
      ensures old(backup).None? && r.Threw? && missed == old(missed) + 1 ==> Unrouted() || Routed(desiredInput, desiredOutput)
      ensures Smooth(pids) ==> r == Returned(true)
    {
      ghost var since := clock;
      for i := 0 to |pids|
        invariant Valid() && missed >= old(missed) && old(log) <= log && own == old(own) && !ready && clock >= since && State() == old(State())
        invariant (forall n :: steps(n).Works?) ==> forall j :: 0 <= j < i ==> !AlwaysPrivate(pids[j])
      {
        var turn := RouteProcess(pids[i], desiredInput, desiredOutput);
        NothingMissed();
        if turn.Some? { return turn.value; }
      }
      r := Returned(false);
    }

    /** `Ensure`: route the first process that takes part, undoing whatever an earlier run left. */
    method Ensure(pids: seq<int>, desiredInput: string, desiredOutput: string) returns (r: Outcome)
      requires Valid()
      modifies this
      ensures Valid() && missed >= old(missed) && old(log) <= log && own == old(own)
      ensures r == Returned(true) ==> preferences == Wanted(desiredInput, desiredOutput)
      ensures !DirectionsMatch(desiredInput, desiredOutput) ==> r == Threw(false) && State() == old(State())
      // Still routed: nothing is touched.  Otherwise the private program is, if it takes part, and no other.
      ensures DirectionsMatch(desiredInput, desiredOutput) && old(IsRouted(pids, desiredInput, desiredOutput, inspections(looks, routedPid))) ==>
                (r == Returned(true) && State() == old(State()) && ready == old(ready)) || missed > old(missed)
      ensures !FoundPrivate(pids) || r == Returned(false) ==> State() == old(State())
      ensures r == Returned(true) ==> routedPid in pids && input == desiredInput && output == desiredOutput
      // What is announced as ready is what is routed.
      ensures ready ==> r == Returned(true) || (old(ready) && State() == old(State()))
      ensures r == Returned(true) ==> ready || (State() == old(State()) && !old(ready))
      // A single failure leaves either the user's devices or the wanted ones.
      ensures old(backup).None? && r.Threw? && missed == old(missed) + 1 ==> Unrouted() || Routed(desiredInput, desiredOutput)
      ensures Smooth(pids) && DirectionsMatch(desiredInput, desiredOutput) && NeverForeign(old(routedPid)) ==> r == Returned(true)
    {
      HistoryIsSettled(start, log);
      if !DirectionsMatch(desiredInput, desiredOutput) { return Threw(false); }
      var same := StillRouted(pids, desiredInput, desiredOutput);
      NothingMissed();
      if same.Some? { return same.value; }
      ready := false;
      r := RouteFirst(pids, desiredInput, desiredOutput);
    }
  }
}
