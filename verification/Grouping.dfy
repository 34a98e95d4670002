/**
 Grouping a list whose elements either stand alone or join their neighbours, for
 `split_exclusive_media`: the loop's grouping is the only one that conserves the list,
 mixes nothing with an element that stands alone, and makes no needless cut.
 */
module Grouping {

  type Kind<!T> = T -> bool

  predicate StandsAlone<T>(alone: Kind<T>, group: seq<T>) {
    |group| == 1 && alone(group[0])
  }

  predicate Free<T>(alone: Kind<T>, group: seq<T>) {
    forall i :: 0 <= i < |group| ==> !alone(group[i])
  }

  predicate Fits<T>(alone: Kind<T>, group: seq<T>) {
    group != [] && (StandsAlone(alone, group) || Free(alone, group))
  }

  /** No group is empty or mixed, and no two neighbours could have been one. */
  predicate Sendable<T>(alone: Kind<T>, groups: seq<seq<T>>) {
    && (forall i :: 0 <= i < |groups| ==> Fits(alone, groups[i]))
    && (forall i :: 0 < i < |groups| ==> StandsAlone(alone, groups[i - 1]) || StandsAlone(alone, groups[i]))
  }

  function Flatten<T>(groups: seq<seq<T>>): seq<T> {
    if groups == [] then [] else Flatten(groups[..|groups| - 1]) + groups[|groups| - 1]
  }

  /** One element more: a group of its own, or one more in the last group. */
  function Add<T>(alone: Kind<T>, groups: seq<seq<T>>, x: T): seq<seq<T>> {
    if alone(x) || groups == [] || StandsAlone(alone, groups[|groups| - 1]) then groups + [[x]]
    else groups[..|groups| - 1] + [groups[|groups| - 1] + [x]]
  }

  function Groups<T>(alone: Kind<T>, xs: seq<T>): seq<seq<T>>
    decreases |xs|
  {
    if xs == [] then [] else Add(alone, Groups(alone, xs[..|xs| - 1]), xs[|xs| - 1])
  }

  lemma FlattenOneMore<T>(groups: seq<seq<T>>, group: seq<T>)
    ensures Flatten(groups + [group]) == Flatten(groups) + group
  {
    assert (groups + [group])[..|groups|] == groups;
  }

  lemma SendableOneMore<T>(alone: Kind<T>, groups: seq<seq<T>>, group: seq<T>)
    ensures Sendable(alone, groups + [group]) <==>
            Sendable(alone, groups) && Fits(alone, group) && (groups == [] || StandsAlone(alone, groups[|groups| - 1]) || StandsAlone(alone, group))
  {
    var more := groups + [group];
    if Sendable(alone, more) {
      assert Fits(alone, more[|groups|]);
      forall i | 0 <= i < |groups| ensures Fits(alone, groups[i]) { assert more[i] == groups[i]; }
      forall i | 0 < i < |groups| ensures StandsAlone(alone, groups[i - 1]) || StandsAlone(alone, groups[i]) {
        assert more[i] == groups[i] && more[i - 1] == groups[i - 1];
      }
      assert groups != [] ==> StandsAlone(alone, more[|groups| - 1]) || StandsAlone(alone, more[|groups|]);
    }
  }

  lemma AddKeeps<T>(alone: Kind<T>, groups: seq<seq<T>>, x: T)
    requires Sendable(alone, groups)
    ensures Sendable(alone, Add(alone, groups, x)) && Flatten(Add(alone, groups, x)) == Flatten(groups) + [x]
  {
    if alone(x) || groups == [] || StandsAlone(alone, groups[|groups| - 1]) {
      SendableOneMore(alone, groups, [x]);
      FlattenOneMore(groups, [x]);
    } else {
      var n := |groups| - 1;
      assert groups == groups[..n] + [groups[n]];
      JoinKeeps(alone, groups[..n], groups[n], x);
    }
  }

  lemma JoinKeeps<T>(alone: Kind<T>, front: seq<seq<T>>, last: seq<T>, x: T)
    requires Sendable(alone, front + [last]) && !StandsAlone(alone, last) && !alone(x)
    ensures Sendable(alone, front + [last + [x]]) && Flatten(front + [last + [x]]) == Flatten(front + [last]) + [x]
  {
    SendableOneMore(alone, front, last);
    SendableOneMore(alone, front, last + [x]);
    FlattenOneMore(front, last);
    FlattenOneMore(front, last + [x]);
  }

  lemma {:induction false} GroupsAreSendable<T>(alone: Kind<T>, xs: seq<T>)
    ensures Sendable(alone, Groups(alone, xs)) && Flatten(Groups(alone, xs)) == xs
    decreases |xs|
  {
    if xs != [] {
      GroupsAreSendable(alone, xs[..|xs| - 1]);
      AddKeeps(alone, Groups(alone, xs[..|xs| - 1]), xs[|xs| - 1]);
    }
  }

  /** A sendable grouping is a shorter one with its last element added. */
  lemma LastWasAdded<T>(alone: Kind<T>, groups: seq<seq<T>>) returns (shorter: seq<seq<T>>, x: T)
    requires Sendable(alone, groups) && groups != []
    ensures Sendable(alone, shorter) && groups == Add(alone, shorter, x)
  {
    var n := |groups| - 1;
    var last := groups[n];
    x := last[|last| - 1];
    assert groups == groups[..n] + [last];
    assert last == last[..|last| - 1] + [x];
    SendableOneMore(alone, groups[..n], last);
    if |last| == 1 {
      shorter := groups[..n];
    } else {
      shorter := groups[..n] + [last[..|last| - 1]];
      assert !alone(last[0]) && !alone(last[|last| - 1]);
      assert Free(alone, last[..|last| - 1]);
      SendableOneMore(alone, groups[..n], last[..|last| - 1]);
    }
  }

  /** No other grouping conserves the list and is sendable. */
  lemma {:induction false} GroupingIsUnique<T>(alone: Kind<T>, groups: seq<seq<T>>, xs: seq<T>)
    requires Sendable(alone, groups) && Flatten(groups) == xs
    ensures groups == Groups(alone, xs)
    decreases |xs|
  {
    if groups != [] {
      var shorter, x := LastWasAdded(alone, groups);
      AddKeeps(alone, shorter, x);
      assert xs == Flatten(shorter) + [x];
      assert xs[..|xs| - 1] == Flatten(shorter);
      GroupingIsUnique(alone, shorter, xs[..|xs| - 1]);
    }
  }

  function Flush<T(==)>(groups: seq<seq<T>>, current: seq<T>): seq<seq<T>> {
    if current == [] then groups else groups + [current]
  }

  /** What the loop has: groups that end in one standing alone, and a free group begun. */
  predicate Begun<T>(alone: Kind<T>, groups: seq<seq<T>>, current: seq<T>) {
    Free(alone, current) && (groups == [] || StandsAlone(alone, groups[|groups| - 1]))
  }

  lemma FlushAdds<T>(alone: Kind<T>, groups: seq<seq<T>>, current: seq<T>, x: T)
    requires Begun(alone, groups, current)
    ensures Add(alone, Flush(groups, current), x) ==
            if alone(x) then Flush(groups, current) + [[x]] else groups + [current + [x]]
  {
    if current != [] {
      assert (groups + [current])[..|groups|] == groups;
      assert !StandsAlone(alone, current);
    } else {
      assert current + [x] == [x];
    }
  }

  lemma FreeIsOneGroup<T>(alone: Kind<T>, xs: seq<T>)
    requires xs != [] && (Free(alone, xs) || |xs| == 1)
    ensures Sendable(alone, [xs]) && Flatten([xs]) == xs
  {
    assert [xs][..0] == [];
  }
}
