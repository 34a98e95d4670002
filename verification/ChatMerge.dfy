/**
 The chat list: `mergeMessages` in `Chat.jsx`.

 Polled and older pages are merged one after another into the list on the screen.  The
 screen shows the last record of every id, strictly in order; where records with one id
 agree, the order and the repetition of the pages do not matter.
 */
module ChatMerges {

  /** A string as JavaScript compares it: 16-bit units. */
  type Unit = n: int | 0 <= n < 0x1_0000

  type Id = seq<Unit>

  datatype Record = Record(id: Id, createdAt: real, body: string)

  /** `<` on strings. */
  predicate Before(a: Id, b: Id)
    decreases |a|
  {
    b != [] && (a == [] || a[0] < b[0] || (a[0] == b[0] && Before(a[1..], b[1..])))
  }

  /** The comparator: by time, then by id. */
  predicate Earlier(a: Record, b: Record) {
    a.createdAt < b.createdAt || (a.createdAt == b.createdAt && Before(a.id, b.id))
  }

  predicate Sorted(list: seq<Record>) {
    forall i, j :: 0 <= i < j < |list| ==> Earlier(list[i], list[j])
  }

  predicate UniqueIds(list: seq<Record>) {
    forall i, j :: 0 <= i < j < |list| ==> list[i].id != list[j].id
  }

  // ---- the order ----

  lemma {:induction false} BeforeIsTotal(a: Id, b: Id)
    ensures !(Before(a, b) && Before(b, a)) && (Before(a, b) || Before(b, a) || a == b)
    decreases |a|
  {
    if a != [] && b != [] && a[0] == b[0] {
      assert a == [a[0]] + a[1..] && b == [b[0]] + b[1..];
      BeforeIsTotal(a[1..], b[1..]);
    }
  }

  lemma {:induction false} BeforeIsTransitive(a: Id, b: Id, c: Id)
    requires Before(a, b) && Before(b, c)
    ensures Before(a, c)
    decreases |a|
  {
    if a != [] && a[0] == b[0] == c[0] { BeforeIsTransitive(a[1..], b[1..], c[1..]); }
  }

  lemma EarlierIsTotal(a: Record, b: Record)
    ensures !(Earlier(a, b) && Earlier(b, a)) && (Earlier(a, b) || Earlier(b, a) || (a.createdAt == b.createdAt && a.id == b.id))
  {
    BeforeIsTotal(a.id, b.id);
  }

  lemma EarlierIsTransitive(a: Record, b: Record, c: Record)
    requires Earlier(a, b) && Earlier(b, c)
    ensures Earlier(a, c)
  {
    if a.createdAt == b.createdAt == c.createdAt { BeforeIsTransitive(a.id, b.id, c.id); }
  }

  /** Of two ids that agree up to some place the one with the smaller unit there comes first, and one that ends there before both. */
  lemma {:induction false} BeforeByFirstDifference(common: Id, x: Unit, y: Unit, a: Id, b: Id)
    requires x < y
    ensures Before(common + [x] + a, common + [y] + b) && Before(common, common + [x] + a)
    decreases |common|
  {
    var p, q := common + [x] + a, common + [y] + b;
    if common == [] {
      assert p[0] == x && q[0] == y;
    } else {
      BeforeByFirstDifference(common[1..], x, y, a, b);
      assert p[0] == common[0] == q[0] && p[1..] == common[1..] + [x] + a && q[1..] == common[1..] + [y] + b;
    }
  }

  /** Down the list records become later, or follow one of the same time. */
  lemma LaterBelow(list: seq<Record>, i: nat, j: nat)
    requires Sorted(list) && i < j < |list|
    ensures list[i].createdAt <= list[j].createdAt
    ensures list[i].createdAt == list[j].createdAt ==> Before(list[i].id, list[j].id)
  {
    assert Earlier(list[i], list[j]);
  }

  /** A sorted list is determined by its records. */
  lemma {:induction false} SortedIsUnique(a: seq<Record>, b: seq<Record>)
    requires Sorted(a) && Sorted(b) && forall r :: r in a <==> r in b
    ensures a == b
    decreases |a|
  {
    HasFirst(a);
    HasFirst(b);
    if a != [] && b != [] {
      assert a[0] in b && b[0] in a;
      EarlierIsTotal(a[0], b[0]);
      assert a[0] == b[0];
      forall r ensures r in a[1..] <==> r in b[1..] {
        InTail(a, r);
        InTail(b, r);
      }
      SortedIsUnique(a[1..], b[1..]);
      assert a == [a[0]] + a[1..] && b == [b[0]] + b[1..];
    }
  }

  lemma HasFirst(list: seq<Record>)
    ensures list != [] ==> exists r :: r in list
  {
    if list != [] { assert list[0] in list; }
  }

  lemma InTail(list: seq<Record>, r: Record)
    requires Sorted(list) && list != []
    ensures r in list[1..] <==> r in list && r != list[0]
  {
    assert list == [list[0]] + list[1..];
    EarlierIsTotal(list[0], list[0]);
    forall i | 1 <= i < |list| ensures list[i] != list[0] { assert Earlier(list[0], list[i]); }
  }

  // ---- the map ----

  /** `Map.set`: a known id keeps its place, a new one goes last. */
  function Put(entries: seq<Record>, r: Record): seq<Record> {
    if entries == [] then [r]
    else if entries[0].id == r.id then [r] + entries[1..]
    else [entries[0]] + Put(entries[1..], r)
  }

  function PutAll(entries: seq<Record>, list: seq<Record>): seq<Record>
    decreases |list|
  {
    if list == [] then entries else Put(PutAll(entries, list[..|list| - 1]), list[|list| - 1])
  }

  lemma UniqueOneMore(first: Record, rest: seq<Record>)
    ensures UniqueIds([first] + rest) <==> UniqueIds(rest) && forall x :: x in rest ==> x.id != first.id
  {
    var list := [first] + rest;
    if UniqueIds(list) {
      forall i | 0 <= i < |rest| ensures rest[i].id != first.id { assert list[0].id != list[i + 1].id; }
      forall i, j | 0 <= i < j < |rest| ensures rest[i].id != rest[j].id { assert list[i + 1].id != list[j + 1].id; }
    }
  }

  lemma {:induction false} PutPuts(entries: seq<Record>, r: Record)
    requires UniqueIds(entries)
    ensures UniqueIds(Put(entries, r))
    ensures forall x :: x in Put(entries, r) <==> x == r || (x in entries && x.id != r.id)
  {
    if entries != [] {
      var first, rest := entries[0], entries[1..];
      assert entries == [first] + rest;
      UniqueOneMore(first, rest);
      if first.id == r.id {
        UniqueOneMore(r, rest);
      } else {
        PutPuts(rest, r);
        UniqueOneMore(first, Put(rest, r));
      }
    }
  }

  // ---- sorting ----

  function Insert(r: Record, sorted: seq<Record>): seq<Record> {
    if sorted == [] || Earlier(r, sorted[0]) then [r] + sorted else [sorted[0]] + Insert(r, sorted[1..])
  }

  function Sort(list: seq<Record>): seq<Record> {
    if list == [] then [] else Insert(list[0], Sort(list[1..]))
  }

  lemma {:induction false} InsertSorts(r: Record, sorted: seq<Record>)
    requires Sorted(sorted) && forall x :: x in sorted ==> x.id != r.id
    ensures Sorted(Insert(r, sorted)) && forall x :: x in Insert(r, sorted) <==> x == r || x in sorted
  {
    if sorted != [] {
      var first, rest := sorted[0], sorted[1..];
      assert sorted == [first] + rest;
      EarlierIsTotal(r, first);
      if Earlier(r, first) {
        forall x | x in sorted ensures Earlier(r, x) {
          if x != first { EarlierIsTransitive(r, first, x); }
        }
      } else {
        InsertSorts(r, rest);
        assert forall x :: x in Insert(r, rest) ==> Earlier(first, x);
      }
    }
  }

  lemma {:induction false} SortSorts(list: seq<Record>)
    requires UniqueIds(list)
    ensures Sorted(Sort(list)) && forall x :: x in Sort(list) <==> x in list
  {
    if list != [] {
      SortSorts(list[1..]);
      assert list == [list[0]] + list[1..];
      InsertSorts(list[0], Sort(list[1..]));
    }
  }

  // ---- one merge ----

  function Merge(shown: seq<Record>, recent: seq<Record>): seq<Record> {
    Sort(PutAll(PutAll([], shown), recent))
  }

  method MergeMessages(shown: seq<Record>, recent: seq<Record>) returns (messages: seq<Record>)
    ensures messages == Merge(shown, recent)
  {
    var byId: seq<Record> := [];
    for i := 0 to |shown|
      invariant byId == PutAll([], shown[..i])
    {
      assert shown[..i + 1][..i] == shown[..i];
      byId := Put(byId, shown[i]);
    }
    assert shown[..|shown|] == shown;
    for i := 0 to |recent|
      invariant byId == PutAll(PutAll([], shown), recent[..i])
    {
      assert recent[..i + 1][..i] == recent[..i];
      byId := Put(byId, recent[i]);
    }
    assert recent[..|recent|] == recent;
    messages := Sort(byId);
  }

  /** The last record of its id in a list. */
  ghost predicate Latest(list: seq<Record>, r: Record) {
    exists i :: 0 <= i < |list| && list[i] == r && forall j :: i < j < |list| ==> list[j].id != r.id
  }

  ghost predicate Mentions(list: seq<Record>, id: Id) {
    exists r :: r in list && r.id == id
  }

  /** What a merge should give: the last record of every id, strictly in order. */
  ghost predicate Shows(messages: seq<Record>, list: seq<Record>) {
    Sorted(messages) && forall r :: r in messages <==> Latest(list, r)
  }

  lemma LatestOfSum(a: seq<Record>, b: seq<Record>, r: Record)
    ensures Latest(a + b, r) <==> Latest(b, r) || (Latest(a, r) && !Mentions(b, r.id))
  {
    var sum := a + b;
    if Latest(sum, r) {
      var i :| 0 <= i < |sum| && sum[i] == r && forall j :: i < j < |sum| ==> sum[j].id != r.id;
      if i < |a| {
        assert forall j :: i < j < |a| ==> a[j] == sum[j];
        assert forall j :: 0 <= j < |b| ==> b[j] == sum[|a| + j];
        assert a[i] == r;
      } else {
        assert forall j :: 0 <= j < |b| ==> b[j] == sum[|a| + j];
        assert b[i - |a|] == r;
      }
    }
    if Latest(b, r) {
      var i :| 0 <= i < |b| && b[i] == r && forall j :: i < j < |b| ==> b[j].id != r.id;
      assert sum[|a| + i] == r;
    }
    if Latest(a, r) && !Mentions(b, r.id) {
      var i :| 0 <= i < |a| && a[i] == r && forall j :: i < j < |a| ==> a[j].id != r.id;
      assert sum[i] == r;
      assert forall j :: 0 <= j < |b| ==> b[j] in b;
    }
  }

  /** The map holds the last records, each once. */
  lemma {:induction false} PutAllHoldsLatest(entries: seq<Record>, before: seq<Record>, list: seq<Record>)
    requires UniqueIds(entries) && forall r :: r in entries <==> Latest(before, r)
    ensures UniqueIds(PutAll(entries, list)) && forall r :: r in PutAll(entries, list) <==> Latest(before + list, r)
    decreases |list|
  {
    if list == [] {
      assert before + list == before;
    } else {
      var n := |list| - 1;
      var last := list[n];
      PutAllHoldsLatest(entries, before, list[..n]);
      PutPuts(PutAll(entries, list[..n]), last);
      assert before + list == (before + list[..n]) + [last];
      forall r ensures Latest(before + list, r) <==> r == last || (Latest(before + list[..n], r) && r.id != last.id) {
        LatestOfSum(before + list[..n], [last], r);
        LatestOfOne(last, r);
      }
    }
  }

  lemma LatestOfOne(last: Record, r: Record)
    ensures Latest([last], r) <==> r == last
    ensures Mentions([last], r.id) <==> r.id == last.id
  {
    assert [last][0] == last && last in [last];
  }

  /** A merge shows the last record of every id in the shown list and then the fresh one. */
  lemma MergeShows(shown: seq<Record>, recent: seq<Record>)
    ensures Shows(Merge(shown, recent), shown + recent)
  {
    PutAllHoldsLatest([], [], shown);
    assert [] + shown == shown;
    PutAllHoldsLatest(PutAll([], shown), shown, recent);
    SortSorts(PutAll(PutAll([], shown), recent));
  }

  /** What is shown has unique ids and covers every id. */
  lemma ShownIdsAreUnique(messages: seq<Record>, list: seq<Record>)
    requires Shows(messages, list)
    ensures UniqueIds(messages)
    ensures forall r :: r in list ==> Mentions(messages, r.id)
  {
    forall i, j | 0 <= i < j < |messages| ensures messages[i].id != messages[j].id {
      assert messages[i] in messages && messages[j] in messages;
      assert Latest(list, messages[i]) && Latest(list, messages[j]);
      EarlierIsTotal(messages[i], messages[i]);
      if messages[i].id == messages[j].id { OneIsLatest(list, messages[i], messages[j]); }
    }
    forall r | r in list ensures Mentions(messages, r.id) {
      var last := SomeIsLatest(list, r);
      assert last in messages;
    }
  }

  lemma OneIsLatest(list: seq<Record>, a: Record, b: Record)
    requires Latest(list, a) && Latest(list, b) && a.id == b.id
    ensures a == b
  {
  }

  lemma {:induction false} SomeIsLatest(list: seq<Record>, r: Record) returns (last: Record)
    requires r in list
    ensures last.id == r.id && Latest(list, last)
    decreases |list|
  {
    var n := |list| - 1;
    assert list == list[..n] + [list[n]];
    if list[n].id == r.id {
      last := list[n];
    } else {
      last := SomeIsLatest(list[..n], r);
      LatestOfSum(list[..n], [list[n]], last);
      LatestOfOne(list[n], last);
    }
  }

  // ---- any run of pages ----

  /** The list on the screen after merging the pages one by one. */
  function Screen(pages: seq<seq<Record>>): seq<Record> {
    if pages == [] then [] else Merge(Screen(pages[..|pages| - 1]), pages[|pages| - 1])
  }

  function Concat(pages: seq<seq<Record>>): seq<Record> {
    if pages == [] then [] else Concat(pages[..|pages| - 1]) + pages[|pages| - 1]
  }

  /** Merging what is shown is merging everything received. */
  lemma {:induction false} ScreenShowsLatest(pages: seq<seq<Record>>)
    ensures Shows(Screen(pages), Concat(pages))
  {
    if pages != [] {
      var n := |pages| - 1;
      var before, page := Screen(pages[..n]), pages[n];
      ScreenShowsLatest(pages[..n]);
      MergeShows(before, page);
      forall r ensures Latest(before + page, r) <==> Latest(Concat(pages[..n]) + page, r) {
        LatestOfSum(before, page, r);
        LatestOfSum(Concat(pages[..n]), page, r);
        ShownIsLatest(before, Concat(pages[..n]), r);
      }
    }
  }

  lemma ShownIsLatest(messages: seq<Record>, list: seq<Record>, r: Record)
    requires Shows(messages, list)
    ensures Latest(messages, r) <==> Latest(list, r)
  {
    ShownIdsAreUnique(messages, list);
    if r in messages {
      var i :| 0 <= i < |messages| && messages[i] == r;
    }
  }

  /** The last record of every id is the same in both. */
  ghost predicate SameLatest(a: seq<Record>, b: seq<Record>) {
    forall r :: Latest(a, r) <==> Latest(b, r)
  }

  lemma ShownAlikeIff(m: seq<Record>, n: seq<Record>, a: seq<Record>, b: seq<Record>)
    requires Shows(m, a) && Shows(n, b)
    ensures m == n <==> SameLatest(a, b)
  {
    if SameLatest(a, b) {
      forall r ensures r in m <==> r in n { assert Latest(a, r) <==> Latest(b, r); }
      SortedIsUnique(m, n);
    } else {
      var r :| Latest(a, r) != Latest(b, r);
      assert (r in m) != (r in n);
    }
  }

  /** Two runs of pages end with the same screen if and only if they agree on the last record of every id. */
  lemma PagesConvergeIff(a: seq<seq<Record>>, b: seq<seq<Record>>)
    ensures Screen(a) == Screen(b) <==> SameLatest(Concat(a), Concat(b))
  {
    ScreenShowsLatest(a);
    ScreenShowsLatest(b);
    ShownAlikeIff(Screen(a), Screen(b), Concat(a), Concat(b));
  }

  ghost predicate Agree(list: seq<Record>) {
    forall r, s :: r in list && s in list && r.id == s.id ==> r == s
  }

  /** Where records with one id agree, any order and repetition of the pages shows every record received. */
  lemma PagesConverge(a: seq<seq<Record>>, b: seq<seq<Record>>)
    requires Agree(Concat(a)) && forall r :: r in Concat(a) <==> r in Concat(b)
    ensures Screen(a) == Screen(b) && forall r :: r in Screen(a) <==> r in Concat(a)
  {
    ScreenShowsLatest(a);
    PagesConvergeIff(a, b);
    forall r ensures Latest(Concat(a), r) <==> r in Concat(a) { AgreeingAreLatest(Concat(a), r); }
    forall r ensures Latest(Concat(b), r) <==> r in Concat(b) { AgreeingAreLatest(Concat(b), r); }
  }

  lemma AgreeingAreLatest(list: seq<Record>, r: Record)
    requires Agree(list)
    ensures Latest(list, r) <==> r in list
  {
    if r in list { var last := SomeIsLatest(list, r); }
  }
}
