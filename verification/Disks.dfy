/**
 A disk as a map from files to their bytes, on which any operation may fail.

 `faults` decides, operation by operation, whether the disk obliges; it is arbitrary, so
 what a caller proves about a `Disk` holds for every pattern of failures.  A copy or a
 write that fails may leave a proper prefix at its destination; a rename is atomic.  For the
 disk a process that dies is one whose every later operation is refused: what it leaves is
 what the same run leaves on a disk that refuses everything from that operation on.
*/
module Disks {
  import opened Wrappers
  import opened Paths

  datatype Fault = Fine | Refused | Torn(kept: nat)

  type Files = map<Path, Bytes>

  /** A proper prefix of the content arrived. */
  predicate IsTorn(content: Bytes, left: Bytes) {
    |left| < |content| && left <= content
  }

  function Tear(content: Bytes, kept: nat): Bytes {
    if kept < |content| then content[..kept] else []
  }

  predicate IsFine(f: Fault) { f.Fine? }

  class Disk {
    var files: Files
    var clock: nat
    const faults: nat -> Fault
    /** How many operations the disk did not oblige so far. */
    ghost var failures: nat

    constructor (files: Files, faults: nat -> Fault)
      ensures this.files == files && this.faults == faults && clock == 0 && failures == 0 && Valid()
    {
      this.files, this.clock, this.faults, failures := files, 0, faults, 0;
    }

    ghost predicate Valid()
      reads this`clock, this`failures
    {
      failures == Failures(faults, IsFine, 0, clock)
    }

    method Tick() returns (f: Fault)
      requires Valid()
      modifies this`clock, this`failures
      ensures Valid() && f == faults(old(clock)) && clock == old(clock) + 1 && failures == old(failures) + One(!f.Fine?)
    {
      f := faults(clock);
      clock, failures := clock + 1, failures + One(!f.Fine?);
    }

    method Copy(source: Path, target: Path, overwrite: bool) returns (ok: bool)
      requires Valid()
      modifies this
      ensures Valid() && clock == old(clock) + 1 && failures == old(failures) + One(!faults(old(clock)).Fine?)
      ensures ok <==> faults(old(clock)).Fine? && source in old(files) && (overwrite || target !in old(files))
      ensures ok ==> files == old(files)[target := old(files)[source]]
      ensures SameBut(files, old(files), target)
      ensures target in old(files) ==> target in files
      ensures faults(old(clock)).Refused? ==> files == old(files)
      ensures !overwrite && target in old(files) ==> !ok && files == old(files)
    {
      var f := Tick();
      ok := false;
      if source in files && (overwrite || target !in files) {
        match f {
          case Fine => files := files[target := files[source]]; ok := true;
          case Refused =>
          case Torn(kept) => if files[source] != [] { files := files[target := Tear(files[source], kept)]; }
        }
      }
    }

    method Move(source: Path, target: Path) returns (ok: bool)
      requires Valid()
      modifies this
      ensures Valid() && clock == old(clock) + 1 && failures == old(failures) + One(!faults(old(clock)).Fine?)
      ensures ok <==> faults(old(clock)).Fine? && source in old(files)
      ensures ok ==> files == (old(files) - {source})[target := old(files)[source]]
      ensures !ok ==> files == old(files)
    {
      var f := Tick();
      ok := f.Fine? && source in files;
      if ok { files := (files - {source})[target := files[source]]; }
    }

    method Delete(target: Path) returns (ok: bool)
      requires Valid()
      modifies this
      ensures Valid() && clock == old(clock) + 1 && failures == old(failures) + One(!faults(old(clock)).Fine?)
      ensures ok <==> faults(old(clock)).Fine?
      ensures files == if ok then old(files) - {target} else old(files)
    {
      var f := Tick();
      ok := f.Fine?;
      if ok { files := files - {target}; }
    }

    method Write(target: Path, content: Bytes) returns (ok: bool)
      requires Valid()
      modifies this
      ensures Valid() && clock == old(clock) + 1 && failures == old(failures) + One(!faults(old(clock)).Fine?)
      ensures ok <==> faults(old(clock)).Fine?
      ensures ok ==> files == old(files)[target := content]
      ensures !ok ==> files == old(files) || (target in files && IsTorn(content, files[target]))
      ensures SameBut(files, old(files), target)
      ensures target in old(files) ==> target in files
      ensures faults(old(clock)).Refused? ==> files == old(files)
    {
      var f := Tick();
      ok := f.Fine?;
      match f {
        case Fine => files := files[target := content];
        case Refused =>
        case Torn(kept) => if content != [] { files := files[target := Tear(content, kept)]; }
      }
    }

    /** Creating a directory adds no file; it can still fail. */
    method CreateDirectory() returns (ok: bool)
      requires Valid()
      modifies this`clock, this`failures
      ensures Valid() && clock == old(clock) + 1 && failures == old(failures) + One(!faults(old(clock)).Fine?)
      ensures ok <==> faults(old(clock)).Fine?
    {
      var f := Tick();
      ok := f.Fine?;
    }
  }
}
