/**
 Switching code and data with rollback: `App.UpdateAsync`.

 The new release's backend may do anything to the user's data before it fails to start.
 The catch block restores the snapshot if there is a readable one, then the pointer.  The
 theorem is about every step at which the update can fail, including the recovery's own.
 */
module CodeSwitch {
  import opened Wrappers
  import opened Paths
  import opened Disks
  import opened Snapshots

  datatype Outcome =
    | Skipped                    // nothing to do, or an update is running
    | Updated
    | RolledBack(restarted: bool)
    | NotStopped                 // the running services could not be stopped
    | Stuck                      // a recovery step failed

  /** The files once a release's backend has started; it leaves the backups alone. */
  function Started(startup: (string, Files) -> Files, release: string, f: Files, dest: Path): Files {
    var g := startup(release, f);
    map p | p in f.Keys + g.Keys && (if Under(dest, p) then p in f else p in g) :: if Under(dest, p) then f[p] else g[p]
  }

  predicate Works(ok: bool) { ok }

  /** A marker that was begun and cannot be read. */
  predicate IsCut(h: Host, f: Files, dest: Path) {
    Saved(dest, JSON) in f && Unmarked(h, f, dest)
  }

  /** The program and its disk at one moment. */
  datatype Moment = Moment(
    pointer: string, release: string, backend: Option<string>, bridge: bool, panel: Option<string>,
    files: Files, handedBack: Option<Files>, clock: nat, mishaps: nat, refused: nat)

  class App {
    const disk: Disk
    const host: Host
    /** Releases whose directories validate; they never change. */
    const valid: set<string>
    /** Whether the nth step that is not a file operation succeeds, and whether the user is leaving at that time. */
    const steps: nat -> bool
    const leaving: nat -> bool
    /** What a release's backend makes of the data when it starts. */
    const startup: (string, Files) -> Files
    /** Whether the message bridge is to run beside the backend. */
    const autoStart: bool
    var clock: nat
    var pointer: string
    var currentRelease: string
    var backend: Option<string>
    var bridge: bool
    var panel: Option<string>
    var updateBusy: bool
    var switching: bool
    /** The files at the moment the previous release was reinstated. */
    ghost var handedBack: Option<Files>
    /** How many steps failed so far. */
    ghost var missed: nat

    constructor (disk: Disk, host: Host, valid: set<string>, steps: nat -> bool, leaving: nat -> bool,
                 startup: (string, Files) -> Files, autoStart: bool, release: string)
      ensures this.disk == disk && this.host == host && this.valid == valid && this.steps == steps && this.leaving == leaving
      ensures pointer == release && currentRelease == release && backend == Some(release) && !updateBusy && !switching
      ensures this.startup == startup && this.autoStart == autoStart && clock == 0 && missed == 0 && (disk.Valid() ==> Valid())
    {
      this.disk, this.host, this.valid, this.steps, this.leaving, this.startup := disk, host, valid, steps, leaving, startup;
      this.autoStart, bridge, panel := autoStart, autoStart, Some(release);
      clock, pointer, currentRelease, backend, updateBusy, switching := 0, release, release, Some(release), false, false;
      handedBack, missed := None, 0;
    }

    ghost predicate Valid()
      reads this`clock, this`missed, disk`clock, disk`failures
    {
      missed == Failures(steps, Works, 0, clock) && disk.Valid()
    }

    method Try() returns (ok: bool)
      requires Valid()
      modifies this`clock, this`missed
      ensures Valid() && ok == steps(old(clock)) && clock == old(clock) + 1 && missed == old(missed) + One(!ok)
    {
      ok := steps(clock);
      clock, missed := clock + 1, missed + One(!ok);
    }

    /** The steps and file operations that failed so far. */
    ghost function Mishaps(): nat
      reads this`missed, disk`failures
    {
      missed + disk.failures
    }

    ghost function Data(): Option<Covered>
      reads disk`files
    {
      View(host, disk.files)
    }

    /** The data is there, or can be had back from the snapshot. */
    ghost predicate IsSafe(f: Files, data: Option<Covered>, dest: Path) {
      View(host, f) == data || (data.Some? && Holds(host, f, dest, data.value))
    }

    /** `StartAsync`: the backend runs whether or not it becomes ready in time; it leaves the backups alone. */
    method StartBackend(release: string, dest: Path) returns (ok: bool)
      requires Valid()
      modifies disk, this`backend, this`clock, this`missed
      ensures Valid()
      ensures backend == Some(release) && disk.files == Started(startup, release, old(disk.files), dest)
      ensures clock == old(clock) + 1 && disk.failures == old(disk.failures) && ok == steps(old(clock)) && missed == old(missed) + One(!ok)
    {
      backend := Some(release);
      disk.files := Started(startup, release, disk.files, dest);
      ok := Try();
    }

    method StopBridge() returns (ok: bool)
      requires Valid()
      modifies this`bridge, this`clock, this`missed
      ensures Valid()
      ensures clock == old(clock) + 1 && ok == steps(old(clock)) && missed == old(missed) + One(!ok) && (ok ==> !bridge)
    {
      ok := Try();
      if ok { bridge := false; }
    }

    /** The steps it takes to show a release. */
    function Shows(): nat { if autoStart then 2 else 1 }

    /** The last steps were those of showing a release. */
    predicate Shown(clock: nat) {
      clock >= Shows() && steps(clock - 1) && (autoStart ==> steps(clock - 2))
    }

    /** The message bridge, if it is to run, and the panel. */
    method ShowRelease(release: string) returns (ok: bool)
      requires !bridge
      requires Valid()
      modifies this`bridge, this`panel, this`clock, this`missed
      ensures Valid()
      ensures ok ==> bridge == autoStart && panel == Some(release)
      ensures clock > old(clock) && (if ok then clock == old(clock) + Shows() && Shown(clock) else !steps(clock - 1))
      ensures !ok ==> panel == old(panel)
      ensures missed == old(missed) + One(!ok)
    {
      if autoStart {
        ok := Try();
        if !ok { return; }
        bridge := true;
      }
      ok := Try();
      if !ok { return; }
      panel := Some(release);
    }

    /** `ReleaseStore.Activate`: validates, then renames the new pointer over the old. */
    method Activate(release: string) returns (ok: bool)
      requires Valid()
      modifies this`pointer, this`clock, this`missed
      ensures Valid()
      ensures pointer == if ok then release else old(pointer)
      ensures ok ==> release in valid
      ensures clock == (if release in valid then old(clock) + 1 else old(clock)) && (release in valid ==> (ok <==> steps(old(clock))))
      ensures missed == old(missed) + One(!ok && release in valid)
    {
      if release !in valid { return false; }
      ok := Try();
      if ok { pointer := release; }
    }

    /** The inner try block. */
    method Switch(next: string, dest: Path, checkpoint: bool) returns (ok: bool)
      requires host.Sane() && backend.None? && !bridge && IsNew(disk.files, dest)
      requires Data().Some? ==> Separate(host, Data().value.at, dest)
      requires Valid()
      modifies disk, this`pointer, this`backend, this`bridge, this`panel, this`currentRelease, this`clock, this`missed
      ensures Valid()
      ensures ok ==> pointer == next && currentRelease == next && backend == Some(next) && bridge == autoStart && panel == Some(next)
      ensures pointer == old(pointer) || pointer == next
      ensures !ok ==> Recoverable(old(Data()), old(pointer), dest)
      // The new release starts on the data as it was.
      ensures ok ==> exists f :: DataKept(host, old(disk.files), f, dest) && disk.files == Started(startup, next, f, dest)
      ensures clock >= old(clock) && missed >= old(missed) && disk.failures >= old(disk.failures)
      ensures !ok && next in valid && old(Data()).Some? ==> Mishaps() > old(Mishaps())
      ensures !ok && old(Data()).Some? && IsCut(host, disk.files, dest) ==> disk.failures > old(disk.failures)
      ensures ok ==> Mishaps() == old(Mishaps()) && clock == old(clock) + 3 + Shows()
    {
      ok := Snapshot(disk, host, dest, checkpoint);
      if !ok { return; }
      ghost var f := disk.files;
      ok := Start(next, dest);
      HoldsStays(host, f, disk.files, dest, old(Data()).value);
      assert !IsCut(host, disk.files, dest);
    }

    /** The new release, once there is a snapshot. */
    method Start(next: string, dest: Path) returns (ok: bool)
      requires !bridge
      requires Valid()
      modifies disk, this`pointer, this`backend, this`bridge, this`panel, this`currentRelease, this`clock, this`missed
      ensures Valid()
      ensures ok ==> pointer == next && currentRelease == next && backend == Some(next) && bridge == autoStart && panel == Some(next)
      ensures ok ==> disk.files == Started(startup, next, old(disk.files), dest)
      ensures pointer == old(pointer) || pointer == next
      ensures disk.files == old(disk.files) || disk.files == Started(startup, next, old(disk.files), dest)
      ensures forall p :: Under(dest, p) ==> Same(disk.files, old(disk.files), p)
      ensures clock >= old(clock) && disk.failures == old(disk.failures) && missed >= old(missed)
      ensures ok ==> clock == old(clock) + 3 + Shows()
      ensures if ok then missed == old(missed) else next in valid ==> missed > old(missed)
    {
      ok := Try();  // the process may be killed, or report failure, after its work is done
      if !ok { return; }
      ok := Activate(next);
      if !ok { return; }
      ok := StartBackend(next, dest);
      if !ok { return; }
      currentRelease := next;
      ok := ShowRelease(next);
    }

    /** What the catch block may count on: a readable snapshot of the data, or data and pointer untouched. */
    ghost predicate Recoverable(data: Option<Covered>, before: string, dest: Path)
      reads this`pointer, disk`files
    {
      if Unmarked(host, disk.files, dest) then Data() == data && pointer == before
      else data.Some? && Holds(host, disk.files, dest, data.value)
    }

    /** The catch block, up to the point where the previous release is the current one again. */
    method Recover(previous: string, dest: Path, ghost data: Option<Covered>) returns (ok: bool)
      requires host.Sane() && previous in valid && Recoverable(data, previous, dest)
      requires data.Some? ==> Separate(host, data.value.at, dest) && host.locate(data.value.config) == Some(data.value.at)
      requires Valid()
      modifies disk, this`pointer, this`backend, this`bridge, this`panel, this`currentRelease, this`clock, this`missed
      ensures Valid()
      ensures ok ==> pointer == previous && currentRelease == previous && backend.None? && !bridge && Data() == data
      ensures !ok ==> IsSafe(disk.files, data, dest) && pointer == old(pointer) && currentRelease == old(currentRelease)
      ensures ok ==> Mishaps() == old(Mishaps())
      // It completes but for a failure of its own, unless the snapshot's marker was cut short while it was written.
      ensures clock >= old(clock) && missed >= old(missed) && disk.failures >= old(disk.failures)
      ensures old(IsCut(host, disk.files, dest)) ==> !ok && disk.files == old(disk.files)
      ensures !ok ==> Mishaps() > old(Mishaps()) || old(IsCut(host, disk.files, dest))
    {
      ok := StopBackend();
      if !ok { return; }
      ok := RestoreData(dest, data);
      if !ok { return; }
      ok := Activate(previous);
      if !ok { return; }
      currentRelease := previous;
    }

    /** The message bridge, and the backend if it runs. */
    method StopBackend() returns (ok: bool)
      requires Valid()
      modifies this`backend, this`bridge, this`clock, this`missed
      ensures Valid()
      ensures ok ==> backend.None? && !bridge && clock == old(clock) + if old(backend).Some? then 2 else 1
      ensures !ok ==> backend == old(backend)
      ensures clock >= old(clock) && missed == old(missed) + One(!ok)
    {
      ok := StopBridge();
      if !ok { return; }
      if backend.Some? {
        ok := Try();
        if !ok { return; }
        backend := None;
      }
    }

    /** The data comes back from the snapshot, if there is one. */
    method RestoreData(dest: Path, ghost data: Option<Covered>) returns (ok: bool)
      requires host.Sane() && (Unmarked(host, disk.files, dest) ==> Data() == data)
      requires !Unmarked(host, disk.files, dest) ==> data.Some? && Holds(host, disk.files, dest, data.value)
      requires data.Some? ==> Separate(host, data.value.at, dest) && host.locate(data.value.config) == Some(data.value.at)
      requires Valid()
      modifies disk, this`clock, this`missed
      ensures Valid()
      ensures ok ==> Data() == data && Mishaps() == old(Mishaps())
      ensures IsSafe(disk.files, data, dest)
      ensures clock >= old(clock) && missed >= old(missed) && disk.failures >= old(disk.failures)
      ensures old(IsCut(host, disk.files, dest)) ==> !ok && disk.files == old(disk.files)
      ensures !ok ==> Mishaps() > old(Mishaps()) || old(IsCut(host, disk.files, dest))
    {
      ok := true;
      if Saved(dest, JSON) in disk.files {
        ok := Restore(disk, host, dest);
        if !ok { return; }
        ok := Try();  // as above
      }
    }

    /** An update to `next` is due and possible. */
    predicate Starts(next: string)
      reads this
    {
      !updateBusy && backend.Some? && !leaving(clock) && next != currentRelease
    }

    ghost function Now(): Moment
      reads this`pointer, this`currentRelease, this`backend, this`bridge, this`panel, this`handedBack, this`clock, this`missed
      reads disk`files, disk`failures
    {
      Moment(pointer, currentRelease, backend, bridge, panel, disk.files, handedBack, clock, Mishaps(), disk.failures)
    }

    /** The previous release and data are handed back, and that release runs on them unless the user is leaving. */
    ghost predicate HandedBack(m: Moment, release: string, data: Option<Covered>, dest: Path) {
      && m.pointer == release && m.release == release
      && m.handedBack.Some? && View(host, m.handedBack.value) == data
      && (m.backend.None? ==> leaving(m.clock) && !m.bridge && m.files == m.handedBack.value)
      && (m.backend.Some? ==> m.backend == Some(release) && m.files == Started(startup, release, m.handedBack.value, dest))
    }

    /** The last steps were those of starting a release and showing it, up to the first that failed. */
    ghost predicate Restarted(m: Moment, ok: bool) {
      m.clock > 0 && if ok then m.clock > Shows() && steps(m.clock - 1 - Shows()) && Shown(m.clock) else !steps(m.clock - 1)
    }

    /** The new release runs, started on the data as it was. */
    ghost predicate Runs(m: Moment, next: string, before: Files, dest: Path) {
      && m.pointer == next && m.release == next && m.backend == Some(next) && m.bridge == autoStart && m.panel == Some(next)
      && exists f :: DataKept(host, before, f, dest) && m.files == Started(startup, next, f, dest)
    }

    /** The failures an ending takes: one for a rollback, one more where the previous release does not start or the recovery does not complete. */
    ghost predicate Blames(r: Outcome, dest: Path, before: Moment, m: Moment) {
      && (r.NotStopped? ==> m.mishaps - before.mishaps >= 1)
      && (r.RolledBack? ==> m.mishaps - before.mishaps >= if r.restarted || m.backend.None? then 1 else 2)
      && (r.Stuck? ==> m.mishaps - before.mishaps >= 2 || (IsCut(host, m.files, dest) && m.refused > before.refused))
    }

    /** How an update ends, the program being as in `before` when it begins and as in `m` when it ends. */
    ghost predicate Ended(r: Outcome, next: string, dest: Path, before: Moment, m: Moment) {
      && !r.Skipped?
      && (r.Updated? ==> Runs(m, next, before.files, dest) && m.mishaps == before.mishaps && m.clock == before.clock + 5 + Shows())
      // Wherever it failed: code and data are the old ones when control is handed back, and it is the old release that starts again.
      && (r.RolledBack? ==> HandedBack(m, before.release, View(host, before.files), dest))
      && (r.RolledBack? && m.backend.Some? ==> Restarted(m, r.restarted))
      && (r == RolledBack(true) ==> m.backend.Some? && m.bridge == autoStart && m.panel == Some(before.release))
      && (r.RolledBack? && (forall n :: n > before.clock ==> leaving(n)) ==> m.backend.None?)
      && (r.NotStopped? <==> !steps(before.clock) || !steps(before.clock + 1))
      && (r.NotStopped? ==> m.pointer == m.release == before.release && m.backend == before.backend && m.files == before.files)
      // A recovery that fails half way loses nothing.
      && (r.Stuck? ==> IsSafe(m.files, View(host, before.files), dest) && (m.pointer == before.release || m.pointer == next))
      // None of these happens without a failure, and one failure is survived unless it cut the snapshot's marker.
      && (next in valid && View(host, before.files).Some? ==> Blames(r, dest, before, m))
    }

    /** One step that fails once the services are stopped, and the old release runs again, on the data as they were. */
    lemma OneFailureIsSurvived(r: Outcome, next: string, dest: Path, before: Moment, m: Moment)
      requires Ended(r, next, dest, before, m) && next in valid && View(host, before.files).Some?
      requires m.mishaps == before.mishaps + 1 && steps(before.clock) && steps(before.clock + 1)
      requires (forall n :: !leaving(n)) && !IsCut(host, m.files, dest)
      ensures r == RolledBack(true) && m.pointer == before.release && m.backend == Some(before.release)
      ensures m.bridge == autoStart && m.panel == Some(before.release)
      ensures exists f :: View(host, f) == View(host, before.files) && m.files == Started(startup, before.release, f, dest)
    {
      assert View(host, m.handedBack.value) == View(host, before.files);
    }

    method UpdateAsync(next: string, dest: Path, checkpoint: bool) returns (r: Outcome)
      requires host.Sane() && IsNew(disk.files, dest)
      requires Data().Some? ==> Separate(host, Data().value.at, dest)
      requires pointer == currentRelease && currentRelease in valid
      requires Valid()
      modifies this, disk
      ensures Valid() && (!old(updateBusy) ==> !updateBusy)
      ensures r.Skipped? <==> !old(Starts(next))
      ensures r.Skipped? ==> disk.files == old(disk.files) && pointer == old(pointer) && backend == old(backend)
      ensures !r.Skipped? ==> Ended(r, next, dest, old(Now()), Now())
    {
      if updateBusy || backend.None? { return Skipped; }
      var gone := leaving(clock);
      if gone || next == currentRelease { return Skipped; }
      updateBusy, switching := true, true;
      r := SwitchOrRollBack(next, dest, checkpoint);
      updateBusy, switching := false, false;
    }

    /** The body of the outer try block. */
    method SwitchOrRollBack(next: string, dest: Path, checkpoint: bool) returns (r: Outcome)
      requires host.Sane() && IsNew(disk.files, dest)
      requires Data().Some? ==> Separate(host, Data().value.at, dest)
      requires pointer == currentRelease && currentRelease in valid && updateBusy && switching
      requires Valid()
      modifies disk, this`pointer, this`backend, this`bridge, this`panel, this`currentRelease, this`clock, this`missed, this`handedBack
      ensures Valid() && Ended(r, next, dest, old(Now()), Now())
    {
      var previous := currentRelease;
      var ok := StopServices();
      if !ok { return NotStopped; }
      r := SwitchOrBack(previous, next, dest, checkpoint);
    }

    /** With the services stopped: the inner try block and its catch block. */
    method SwitchOrBack(previous: string, next: string, dest: Path, checkpoint: bool) returns (r: Outcome)
      requires host.Sane() && IsNew(disk.files, dest) && previous in valid && pointer == previous && backend.None? && !bridge
      requires Data().Some? ==> Separate(host, Data().value.at, dest)
      requires Valid()
      modifies disk, this`pointer, this`backend, this`bridge, this`panel, this`currentRelease, this`clock, this`missed, this`handedBack
      ensures Valid()
      ensures r.Updated? || r.RolledBack? || r.Stuck?
      ensures r.Updated? ==> Runs(Now(), next, old(disk.files), dest) && Mishaps() == old(Mishaps()) && clock == old(clock) + 3 + Shows()
      ensures r.RolledBack? ==> HandedBack(Now(), previous, old(Data()), dest)
      ensures r.RolledBack? && backend.Some? ==> Restarted(Now(), r.restarted)
      ensures r == RolledBack(true) ==> backend.Some? && bridge == autoStart && panel == Some(previous)
      ensures r.RolledBack? && (forall n :: n >= old(clock) ==> leaving(n)) ==> backend.None?
      ensures r.Stuck? ==> IsSafe(disk.files, old(Data()), dest) && (pointer == previous || pointer == next)
      ensures clock >= old(clock) && missed >= old(missed) && disk.failures >= old(disk.failures)
      ensures next in valid && old(Data()).Some? ==> Blames(r, dest, old(Now()), Now())
    {
      ghost var data := Data();
      var ok := Switch(next, dest, checkpoint);
      if ok { return Updated; }
      r := RollBack(previous, next, dest, data);
    }

    method StopServices() returns (ok: bool)
      requires Valid()
      modifies this`backend, this`bridge, this`panel, this`clock, this`missed
      ensures Valid()
      ensures ok <==> steps(old(clock)) && steps(old(clock) + 1)
      ensures ok ==> backend.None? && !bridge && panel.None? && clock == old(clock) + 2
      ensures !ok ==> backend == old(backend)
      ensures clock >= old(clock) && missed == old(missed) + One(!ok)
    {
      panel := None;
      ok := StopBridge();
      if !ok { return; }
      ok := Try();  // the backend
      if !ok { return; }
      backend := None;
    }

    /** The catch block. */
    method RollBack(previous: string, ghost next: string, dest: Path, ghost data: Option<Covered>) returns (r: Outcome)
      requires host.Sane() && previous in valid && Recoverable(data, previous, dest) && (pointer == previous || pointer == next)
      requires data.Some? ==> Separate(host, data.value.at, dest) && host.locate(data.value.config) == Some(data.value.at)
      requires Valid()
      modifies disk, this`pointer, this`backend, this`bridge, this`panel, this`currentRelease, this`clock, this`missed, this`handedBack
      ensures Valid()
      ensures r.RolledBack? || r.Stuck?
      ensures r.RolledBack? ==> HandedBack(Now(), previous, data, dest)
      ensures r.RolledBack? && backend.Some? ==> Restarted(Now(), r.restarted)
      ensures r == RolledBack(true) ==> backend.Some? && bridge == autoStart && panel == Some(previous)
      ensures r.RolledBack? && (forall n :: n >= old(clock) ==> leaving(n)) ==> backend.None?
      ensures r.Stuck? ==> IsSafe(disk.files, data, dest) && (pointer == previous || pointer == next)
      ensures clock >= old(clock) && missed >= old(missed) && disk.failures >= old(disk.failures)
      // It takes a failure of its own not to end with the previous release running.
      ensures r.RolledBack? && !r.restarted && backend.Some? ==> Mishaps() > old(Mishaps())
      ensures r.Stuck? ==>
                Mishaps() > old(Mishaps()) || (old(IsCut(host, disk.files, dest)) && disk.files == old(disk.files))
    {
      var ok := Recover(previous, dest, data);
      if !ok { return Stuck; }
      handedBack := Some(disk.files);
      var gone := leaving(clock);
      if gone { return RolledBack(false); }
      ok := StartAgain(previous, dest);
      r := RolledBack(ok);
    }

    method StartAgain(previous: string, dest: Path) returns (ok: bool)
      requires !bridge
      requires Valid()
      modifies disk, this`backend, this`bridge, this`panel, this`clock, this`missed
      ensures Valid()
      ensures ok ==> bridge == autoStart && panel == Some(previous)
      ensures Restarted(Now(), ok)
      ensures backend == Some(previous) && disk.files == Started(startup, previous, old(disk.files), dest)
      ensures clock >= old(clock) && disk.failures == old(disk.failures) && missed >= old(missed)
      ensures missed == old(missed) + One(!ok)
    {
      ok := StartBackend(previous, dest);
      if !ok { return; }
      ok := ShowRelease(previous);
    }
  }
}
