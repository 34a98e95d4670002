/**
 File names inside update archives, and what Windows makes of them.

 An archive names its files with '/' separators.  The updater refuses the names that
 `IsSafe` refuses, turns '/' into the platform separator and appends the result to a
 directory.  `Resolve` says which file the operating system then opens.  The two theorems
 are that a safe name always stays strictly below the directory it is appended to, and
 that two safe names open the same file exactly when they differ only in letter case.
 */
module Paths {

  /** A file: its components from the drive root, each in the case the file system compares. */
  type Path = seq<string>

  /** The file system's case mapping; any mapping that keeps the marks below apart from letters. */
  type Casing = char -> char

  ghost predicate KeepsMarks(fold: Casing) {
    forall c: char ::
      && (fold(c) == '/' <==> c == '/') && (fold(c) == '\\' <==> c == '\\')
      && (fold(c) == '.' <==> c == '.') && (fold(c) == ' ' <==> c == ' ') && (fold(c) == ':' <==> c == ':')
  }

  function FoldName(fold: Casing, s: string): (r: string)
    ensures |r| == |s|
  {
    seq(|s|, i requires 0 <= i < |s| => fold(s[i]))
  }

  function FoldParts(fold: Casing, parts: seq<string>): (r: seq<string>)
    ensures |r| == |parts|
  {
    seq(|parts|, i requires 0 <= i < |parts| => FoldName(fold, parts[i]))
  }

  /** The pieces of `s` between separators; never empty. */
  function Split(s: string, sep: char): (parts: seq<string>)
    ensures |parts| >= 1
  {
    if s == "" then [""]
    else
      var rest := Split(s[1..], sep);
      if s[0] == sep then [""] + rest else [[s[0]] + rest[0]] + rest[1..]
  }

  function Join(parts: seq<string>, sep: char): string
    requires |parts| >= 1
  {
    if |parts| == 1 then parts[0] else parts[0] + [sep] + Join(parts[1..], sep)
  }

  predicate BadPart(part: string) {
    || part == "" || part == "." || part == ".."
    || part[|part| - 1] == '.' || part[|part| - 1] == ' '
  }

  /** The test the updater applies to every name it is about to write. */
  predicate IsSafe(name: string) {
    && '\\' !in name && ':' !in name
    && forall part :: part in Split(name, '/') ==> !BadPart(part)
  }

  /** `name.Replace('/', separator)`. */
  function Slashed(name: string): (r: string)
    ensures |r| == |name|
  {
    seq(|name|, i requires 0 <= i < |name| => if name[i] == '/' then '\\' else name[i])
  }

  /** Windows drops the dots and spaces a component ends with. */
  function TrimEnd(part: string): string {
    if part != "" && (part[|part| - 1] == '.' || part[|part| - 1] == ' ')
    then TrimEnd(part[..|part| - 1]) else part
  }

  /** One component applied to the directory reached so far. */
  function Enter(fold: Casing, at: Path, part: string): Path {
    if part == "" || part == "." then at
    else if part == ".." then (if at == [] then [] else at[..|at| - 1])
    else if TrimEnd(part) == "" then at
    else at + [FoldName(fold, TrimEnd(part))]
  }

  function Walk(fold: Casing, at: Path, parts: seq<string>): Path
    decreases |parts|
  {
    if parts == [] then at else Walk(fold, Enter(fold, at, parts[0]), parts[1..])
  }

  /** A name with a drive, or one that starts at a root, ignores the directory it is combined with. */
  predicate IsRooted(name: string) {
    ':' in name || (name != "" && name[0] == '\\')
  }

  /** The file opened for `Path.Combine(root, name.Replace('/', separator))`. */
  function Resolve(fold: Casing, root: Path, name: string): Path {
    Walk(fold, if IsRooted(Slashed(name)) then [] else root, Split(Slashed(name), '\\'))
  }

  predicate Under(root: Path, p: Path) {
    |root| < |p| && p[..|root|] == root
  }

  /** One file would have to be a directory that holds the other. */
  predicate Nested(p: Path, q: Path) {
    Under(p, q) || Under(q, p)
  }

  /** The components a safe name contributes. */
  function Parts(fold: Casing, name: string): (r: Path)
    ensures |r| >= 1
  {
    FoldParts(fold, Split(name, '/'))
  }

  lemma {:induction false} SplitSlashed(name: string)
    requires '\\' !in name
    ensures Split(Slashed(name), '\\') == Split(name, '/')
  {
    if name != "" {
      SplitSlashed(name[1..]);
      assert Slashed(name)[1..] == Slashed(name[1..]);
    }
  }

  lemma {:induction false} WalkPlain(fold: Casing, at: Path, parts: seq<string>)
    requires forall part :: part in parts ==> !BadPart(part)
    ensures Walk(fold, at, parts) == at + FoldParts(fold, parts)
    decreases |parts|
  {
    if parts != [] {
      WalkPlain(fold, at + [FoldName(fold, parts[0])], parts[1..]);
      assert FoldParts(fold, parts) == [FoldName(fold, parts[0])] + FoldParts(fold, parts[1..]);
      assert !BadPart(parts[0]) && TrimEnd(parts[0]) == parts[0];
    } else {
      assert FoldParts(fold, parts) == [];
    }
  }

  lemma {:induction false} FirstCharOfSplit(name: string)
    ensures name == "" || name[0] == '/' ==> Split(name, '/')[0] == ""
    ensures name != "" && name[0] != '/' ==> Split(name, '/')[0] != "" && Split(name, '/')[0][0] == name[0]
  {
  }

  /** A safe name opens the file its own components spell, strictly below the root. */
  lemma SafeNameStaysBelow(fold: Casing, root: Path, name: string)
    requires IsSafe(name)
    ensures Resolve(fold, root, name) == root + Parts(fold, name)
    ensures Under(root, Resolve(fold, root, name))
  {
    SplitSlashed(name);
    FirstCharOfSplit(name);
    assert Split(name, '/')[0] in Split(name, '/');
    assert name != "" && name[0] != '/' && Slashed(name)[0] == name[0];
    assert ':' !in Slashed(name);
    WalkPlain(fold, root, Split(name, '/'));
  }

  lemma {:induction false} JoinSplit(s: string, sep: char)
    ensures Join(Split(s, sep), sep) == s
  {
    if s != "" {
      JoinSplit(s[1..], sep);
      var rest := Split(s[1..], sep);
      if s[0] == sep {
        assert ([""] + rest)[1..] == rest;
      } else if |rest| > 1 {
        assert ([[s[0]] + rest[0]] + rest[1..])[1..] == rest[1..];
      }
    }
  }

  lemma FoldedCons(fold: Casing, c: char, rest: seq<string>)
    requires rest != []
    ensures FoldParts(fold, [""] + rest) == [""] + FoldParts(fold, rest)
    ensures FoldParts(fold, [[c] + rest[0]] + rest[1..]) == [[fold(c)] + FoldParts(fold, rest)[0]] + FoldParts(fold, rest)[1..]
  {
    assert FoldName(fold, "") == "";
    assert FoldName(fold, [c] + rest[0]) == [fold(c)] + FoldName(fold, rest[0]);
  }

  lemma {:induction false} SplitFolded(fold: Casing, name: string)
    requires KeepsMarks(fold)
    ensures Split(FoldName(fold, name), '/') == FoldParts(fold, Split(name, '/'))
  {
    if name == "" {
      assert FoldName(fold, "") == "";
    } else {
      SplitFolded(fold, name[1..]);
      var folded := FoldName(fold, name);
      assert folded != "" && folded[0] == fold(name[0]) && folded[1..] == FoldName(fold, name[1..]);
      FoldedCons(fold, name[0], Split(name[1..], '/'));
    }
  }

  /** Distinct files for distinct names, and one file for names that differ only in case. */
  lemma SafeNamesCollideOnlyByCase(fold: Casing, root: Path, a: string, b: string)
    requires KeepsMarks(fold) && IsSafe(a) && IsSafe(b)
    ensures Resolve(fold, root, a) == Resolve(fold, root, b) <==> FoldName(fold, a) == FoldName(fold, b)
  {
    SafeNameStaysBelow(fold, root, a);
    SafeNameStaysBelow(fold, root, b);
    SplitFolded(fold, a);
    SplitFolded(fold, b);
    JoinSplit(FoldName(fold, a), '/');
    JoinSplit(FoldName(fold, b), '/');
    assert (root + Parts(fold, a))[|root|..] == Parts(fold, a);
    assert (root + Parts(fold, b))[|root|..] == Parts(fold, b);
  }

  lemma {:induction false} OnePartOf(name: string, sep: char)
    requires sep !in name
    ensures Split(name, sep) == [name]
  {
    if name != "" {
      assert name[0] in name && forall c :: c in name[1..] ==> c in name;
      OnePartOf(name[1..], sep);
      assert [name[0]] + name[1..] == name;
    }
  }

  lemma OnePart(name: string)
    requires '/' !in name
    ensures Split(name, '/') == [name]
  {
    OnePartOf(name, '/');
  }

  lemma PartFolded(fold: Casing, a: string, b: string)
    requires KeepsMarks(fold) && FoldName(fold, a) == FoldName(fold, b) && !BadPart(a)
    ensures !BadPart(b)
  {
    var n := |FoldName(fold, a)|;
    assert |a| == n == |b|;
    assert forall i :: 0 <= i < n ==> fold(a[i]) == FoldName(fold, a)[i] == FoldName(fold, b)[i] == fold(b[i]);
    assert forall i :: 0 <= i < n ==> (a[i] == '.' <==> b[i] == '.') && (a[i] == ' ' <==> b[i] == ' ');
  }

  /** Whether a name is safe does not depend on its case. */
  lemma FoldedIsSafe(fold: Casing, a: string, b: string)
    requires KeepsMarks(fold) && FoldName(fold, a) == FoldName(fold, b) && IsSafe(a)
    ensures IsSafe(b) && Parts(fold, a) == Parts(fold, b)
  {
    assert |a| == |FoldName(fold, a)| == |b|;
    forall i | 0 <= i < |b| ensures b[i] != '\\' && b[i] != ':' {
      assert fold(a[i]) == FoldName(fold, a)[i] == FoldName(fold, b)[i] == fold(b[i]);
      assert a[i] in a;
    }
    SplitFolded(fold, a);
    SplitFolded(fold, b);
    var xs, ys := Split(a, '/'), Split(b, '/');
    assert |xs| == |FoldParts(fold, xs)| == |ys|;
    forall part | part in ys ensures !BadPart(part) {
      var i :| 0 <= i < |ys| && ys[i] == part;
      assert FoldName(fold, xs[i]) == FoldParts(fold, xs)[i] == FoldParts(fold, ys)[i] == FoldName(fold, ys[i]);
      assert xs[i] in xs;
      PartFolded(fold, xs[i], ys[i]);
    }
  }

  /** A suffix that stays within the last component and does not end it badly. */
  predicate IsTail(tail: string) {
    && tail != "" && '/' !in tail && '\\' !in tail && ':' !in tail
    && tail[|tail| - 1] != '.' && tail[|tail| - 1] != ' '
  }

  function WithTail(parts: seq<string>, tail: string): (r: seq<string>)
    requires parts != []
  {
    parts[..|parts| - 1] + [parts[|parts| - 1] + tail]
  }

  /** One more character in front of the first part, or one more part, does not reach the last one's tail. */
  lemma TailStaysLast(rest: seq<string>, c: string, tail: string)
    requires rest != []
    ensures [""] + WithTail(rest, tail) == WithTail([""] + rest, tail)
    ensures [c + WithTail(rest, tail)[0]] + WithTail(rest, tail)[1..] == WithTail([c + rest[0]] + rest[1..], tail)
  {
    if |rest| == 1 {
      assert c + (rest[0] + tail) == (c + rest[0]) + tail;
    }
  }

  lemma {:induction false} SplitTail(name: string, tail: string)
    requires '/' !in tail
    ensures Split(name + tail, '/') == WithTail(Split(name, '/'), tail)
  {
    if name == "" {
      assert name + tail == tail;
      OnePart(tail);
    } else {
      SplitTail(name[1..], tail);
      var whole := name + tail;
      assert whole != "" && whole[0] == name[0] && whole[1..] == name[1..] + tail;
      TailStaysLast(Split(name[1..], '/'), [name[0]], tail);
    }
  }

  lemma LongerIsNoDots(part: string, tail: string)
    requires IsTail(tail)
    ensures !BadPart(part + tail)
  {
    assert (part + tail)[|part + tail| - 1] == tail[|tail| - 1];
  }

  /** A safe name with such a suffix is safe, and its first component is the same or longer. */
  lemma TailIsSafe(name: string, tail: string)
    requires IsSafe(name) && IsTail(tail)
    ensures IsSafe(name + tail)
    ensures Split(name + tail, '/')[0] == Split(name, '/')[0] || Split(name + tail, '/')[0] == Split(name, '/')[0] + tail
  {
    SplitTail(name, tail);
    var parts, n := Split(name, '/'), |Split(name, '/')| - 1;
    assert parts[n] in parts;
    forall part | part in Split(name + tail, '/') ensures !BadPart(part) {
      if part in parts[..n] {
        assert part in parts;
      } else {
        assert part == parts[n] + tail;
        LongerIsNoDots(parts[n], tail);
      }
    }
  }

  // ---- one component ----

  /** Trimming takes dots and spaces, and nothing in front of the last other character. */
  lemma {:induction false} TrimEndTakes(s: string)
    ensures TrimEnd(s) <= s && forall i :: |TrimEnd(s)| <= i < |s| ==> s[i] == '.' || s[i] == ' '
    ensures s != "" && s[0] != '.' && s[0] != ' ' ==> TrimEnd(s) != ""
  {
    if s != "" && (s[|s| - 1] == '.' || s[|s| - 1] == ' ') { TrimEndTakes(s[..|s| - 1]); }
  }

  /** A single component leads to what is left of it without the dots and spaces it ends with. */
  lemma OneComponent(fold: Casing, name: string)
    requires '/' !in name && '\\' !in name && ':' !in name && TrimEnd(name) != ""
    ensures Resolve(fold, [], name) == [FoldName(fold, TrimEnd(name))]
  {
    assert Slashed(name) == name by { assert forall i :: 0 <= i < |name| ==> name[i] in name; }
    OnePartOf(name, '\\');
    assert TrimEnd("") == "" && TrimEnd(".") == "" && TrimEnd("..") == "" by {
      assert "."[..0] == "" && ".."[..1] == ".";
    }
    assert name != "" && name != "." && name != "..";
    var entered := Enter(fold, [], name);
    assert entered == [] + [FoldName(fold, TrimEnd(name))] == [FoldName(fold, TrimEnd(name))];
    assert [name][0] == name && [name][1..] == [];
    assert Walk(fold, [], [name]) == Walk(fold, entered, []) == entered;
  }
}
