/** ZIP archives as the updater sees them: entries in order, each with what reading it gives. */
module Archives {
  import opened Wrappers

  const MAX_ENTRIES := 20000
  const MAX_MANIFEST := 4 * 1024 * 1024

  /** `content` is nothing when the entry cannot be read. */
  datatype ZipEntry = ZipEntry(name: string, symlink: bool, length: nat, content: Option<Bytes>)

  /** `ZipArchive.GetEntry`: the first entry of that name. */
  function GetEntry(es: seq<ZipEntry>, name: string): Option<ZipEntry> {
    if es == [] then None else if es[0].name == name then Some(es[0]) else GetEntry(es[1..], name)
  }

  function TotalLength(ms: seq<ZipEntry>): nat {
    if ms == [] then 0 else TotalLength(ms[..|ms| - 1]) + ms[|ms| - 1].length
  }

  lemma {:induction false} TotalOfPrefix(ms: seq<ZipEntry>, i: nat)
    requires i <= |ms|
    ensures TotalLength(ms[..i]) <= TotalLength(ms)
    decreases |ms|
  {
    if i < |ms| {
      assert ms[..|ms| - 1][..i] == ms[..i];
      TotalOfPrefix(ms[..|ms| - 1], i);
    } else {
      assert ms[..i] == ms;
    }
  }
}
