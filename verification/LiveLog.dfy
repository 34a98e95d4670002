/**
 The bounded log and the window that polls it: `LiveLog` and `LogWindow.Refresh`.

 The ideal log is the unbounded stream of every text ever written.  The queue is proved to
 hold exactly `Trim` of that stream, its longest suffix within both bounds, and the window
 to follow `Step`, so that what a reader is given can be compared with the stream itself.
 */
module LiveLogs {
  const MAX_CHARACTERS := 500000
  const MAX_ENTRIES := 3000
  const MAX_LINE := 8000
  const MAX_DISPLAY := 200000

  datatype Entry = Entry(sequence: nat, text: string)

  function Length(texts: seq<string>): (n: nat) {
    if texts == [] then 0 else |texts[0]| + Length(texts[1..])
  }

  function Concat(texts: seq<string>): string {
    if texts == [] then "" else texts[0] + Concat(texts[1..])
  }

  predicate Fits(texts: seq<string>) {
    Length(texts) <= MAX_CHARACTERS && |texts| <= MAX_ENTRIES
  }

  /** What is left after dropping from the front until the rest fits. */
  function Trim(texts: seq<string>): (r: seq<string>)
    ensures |r| <= |texts|
  {
    if Fits(texts) then texts else Trim(texts[1..])
  }

  lemma {:induction false} LengthOfSum(a: seq<string>, b: seq<string>)
    ensures Length(a + b) == Length(a) + Length(b)
  {
    if a == [] {
      assert a + b == b;
    } else {
      assert (a + b)[1..] == a[1..] + b;
      LengthOfSum(a[1..], b);
    }
  }

  lemma {:induction false} ConcatOfSum(a: seq<string>, b: seq<string>)
    ensures Concat(a + b) == Concat(a) + Concat(b)
  {
    if a == [] {
      assert a + b == b;
    } else {
      assert (a + b)[1..] == a[1..] + b;
      ConcatOfSum(a[1..], b);
    }
  }

  lemma {:induction false} TrimIsSuffix(texts: seq<string>)
    ensures Trim(texts) == texts[|texts| - |Trim(texts)|..] && Fits(Trim(texts))
  {
    if !Fits(texts) { TrimIsSuffix(texts[1..]); }
  }

  /** The queue is the longest suffix of the stream that fits: no text is dropped early, none is kept late. */
  lemma {:induction false} TrimIsLongestFit(texts: seq<string>, from: nat)
    requires from <= |texts|
    ensures Fits(texts[from..]) <==> |texts| - |Trim(texts)| <= from
  {
    LengthOfSum(texts[..from], texts[from..]);
    assert texts == texts[..from] + texts[from..];
    if !Fits(texts) {
      if from > 0 {
        TrimIsLongestFit(texts[1..], from - 1);
        assert texts[1..][from - 1..] == texts[from..];
      } else {
        assert texts[0..] == texts;
      }
    }
  }

  /** Trimming after every write is trimming the whole stream once. */
  lemma {:induction false} TrimIncrementally(texts: seq<string>, text: string)
    ensures Trim(texts + [text]) == Trim(Trim(texts) + [text])
    decreases |texts|
  {
    if !Fits(texts) {
      LengthOfSum(texts, [text]);
      assert (texts + [text])[1..] == texts[1..] + [text];
      TrimIncrementally(texts[1..], text);
    }
  }

  /** The number of the oldest text still queued. */
  function Start(stream: seq<string>): nat {
    |stream| - |Trim(stream)|
  }

  /** The newest text is kept exactly when it is within the character bound on its own. */
  lemma NewestIsKept(texts: seq<string>, text: string)
    ensures |Trim(texts + [text])| > 0 <==> |text| <= MAX_CHARACTERS
    ensures |text| <= MAX_CHARACTERS ==> Trim(texts + [text])[|Trim(texts + [text])| - 1] == text
  {
    var all := texts + [text];
    TrimIsSuffix(all);
    TrimIsLongestFit(all, |texts|);
    assert all[|texts|..] == [text];
    assert Length([text]) == |text|;
  }

  // ---- the queue ----

  function Texts(entries: seq<Entry>): (texts: seq<string>)
    ensures |texts| == |entries|
  {
    seq(|entries|, i requires 0 <= i < |entries| => entries[i].text)
  }

  const CUT := " …[截断]"

  function Format(stamp: string, source: string, stream: string, line: string): string {
    stamp + " [" + source + "/" + stream + "] " +
    (if |line| > MAX_LINE then line[..MAX_LINE] + CUT else line) + "\r\n"
  }

  /** How long a line is in the log. */
  function Cut(line: string): (n: nat)
    ensures n <= MAX_LINE + 6
  {
    if |line| > MAX_LINE then MAX_LINE + 6 else |line|
  }

  lemma FormatLength(stamp: string, source: string, stream: string, line: string)
    ensures |Format(stamp, source, stream, line)| == |stamp| + |source| + |stream| + Cut(line) + 7
  {
    assert |CUT| == 6;
  }

  /** A text of the log shows its stamp, its source and stream, and the line, or its first part and a mark that it was cut. */
  lemma FormatShows(stamp: string, source: string, stream: string, line: string)
    ensures var text := Format(stamp, source, stream, line);
      var at, n := |stamp| + |source| + |stream| + 5, |text| - 2;
      && text[..|stamp|] == stamp && text[|stamp| + 2..][..|source|] == source && text[|stamp| + |source| + 3..][..|stream|] == stream
      && text[n..] == "\r\n"
      && (|line| <= MAX_LINE ==> text[at..n] == line)
      && (|line| > MAX_LINE ==> text[at..n] == line[..MAX_LINE] + CUT)
  {
    FormatLength(stamp, source, stream, line);
    var text := Format(stamp, source, stream, line);
    var shown := if |line| > MAX_LINE then line[..MAX_LINE] + CUT else line;
    ShowsParts(text, stamp, " [", source, "/", stream, "] ", shown, "\r\n");
  }

  lemma ShowsParts(text: string, a: string, x: string, b: string, y: string, c: string, z: string, d: string, e: string)
    requires text == a + x + b + y + c + z + d + e
    ensures text[..|a|] == a && text[|a| + |x|..][..|b|] == b && text[|a| + |x| + |b| + |y|..][..|c|] == c
    ensures text[|a| + |x| + |b| + |y| + |c| + |z|..][..|d|] == d && text[|text| - |e|..] == e
    ensures text[|a| + |x| + |b| + |y| + |c| + |z|..|text| - |e|] == d
  {
  }

  /** What a stamp, a source and a stream name may take so that any line fits beside them. */
  const MAX_FRAME := MAX_CHARACTERS - MAX_LINE - 13

  /** A formatted line is kept exactly when its parts fit, and with a frame of any usual length whatever the line. */
  lemma LineIsKept(texts: seq<string>, stamp: string, source: string, stream: string, line: string)
    ensures var text := Format(stamp, source, stream, line);
      var kept := Trim(texts + [text]);
      && (kept != [] <==> |stamp| + |source| + |stream| + Cut(line) + 7 <= MAX_CHARACTERS)
      && (kept != [] ==> kept[|kept| - 1] == text)
      && (|stamp| + |source| + |stream| <= MAX_FRAME ==> kept != [])
  {
    FormatLength(stamp, source, stream, line);
    NewestIsKept(texts, Format(stamp, source, stream, line));
  }

  class LiveLog {
    var entries: seq<Entry>
    var sequence: nat
    var characters: int
    /** Every text ever written. */
    ghost var stream: seq<string>

    ghost predicate Valid()
      reads this
    {
      && sequence == |stream|
      && Texts(entries) == Trim(stream)
      && |entries| <= sequence
      && (forall i :: 0 <= i < |entries| ==> entries[i].sequence == sequence - |entries| + i + 1)
      && characters == Length(Texts(entries))
    }

    constructor ()
      ensures Valid() && stream == []
    {
      entries, sequence, characters, stream := [], 0, 0, [];
    }

    method Write(stamp: string, source: string, name: string, line: string)
      requires Valid()
      modifies this
      ensures Valid() && stream == old(stream) + [Format(stamp, source, name, line)]
      ensures Fits(Texts(entries))
      // The newest entry is kept, whatever the line.
      ensures |stamp| + |source| + |name| <= MAX_FRAME ==> entries != []
      ensures entries != [] <==> |stamp| + |source| + |name| + Cut(line) + 7 <= MAX_CHARACTERS
      ensures entries != [] ==> entries[|entries| - 1] == Entry(sequence, Format(stamp, source, name, line))
    {
      LineIsKept(stream, stamp, source, name, line);
      Enqueue(Format(stamp, source, name, line));
      assert Texts(entries) == Trim(stream);
    }

    /** One more entry, and the oldest ones out until the rest fits. */
    method Enqueue(text: string)
      requires Valid()
      modifies this
      ensures Valid() && stream == old(stream) + [text] && Fits(Texts(entries))
    {
      TrimIncrementally(stream, text);
      LengthOfSum(Texts(entries), [text]);
      sequence := sequence + 1;
      entries := entries + [Entry(sequence, text)];
      characters := characters + |text|;
      stream := stream + [text];
      assert Texts(entries) == Texts(old(entries)) + [text];
      Dequeue();
    }

    /** The dequeue loop. */
    method Dequeue()
      requires characters == Length(Texts(entries)) && |entries| <= sequence
      requires forall i :: 0 <= i < |entries| ==> entries[i].sequence == sequence - |entries| + i + 1
      modifies this`entries, this`characters
      ensures Texts(entries) == Trim(Texts(old(entries))) && Fits(Texts(entries))
      ensures characters == Length(Texts(entries)) && |entries| <= sequence
      ensures forall i :: 0 <= i < |entries| ==> entries[i].sequence == sequence - |entries| + i + 1
    {
      while characters > MAX_CHARACTERS || |entries| > MAX_ENTRIES
        invariant Trim(Texts(entries)) == Trim(Texts(old(entries))) && |entries| <= sequence
        invariant characters == Length(Texts(entries))
        invariant forall i :: 0 <= i < |entries| ==> entries[i].sequence == sequence - |entries| + i + 1
        decreases |entries|
      {
        assert Texts(entries)[1..] == Texts(entries[1..]);
        characters := characters - |entries[0].text|;
        entries := entries[1..];
      }
    }

    /** Everything still queued that is newer than `after`, oldest first. */
    method ReadAfter(after: nat) returns (latest: nat, batch: seq<Entry>)
      requires Valid()
      ensures latest == |stream|
      ensures Texts(batch) == Unread(stream, after)
      ensures forall i :: 0 <= i < |batch| ==> batch[i].sequence == |stream| - |batch| + i + 1
    {
      latest, batch := sequence, [];
      for i := 0 to |entries|
        invariant batch == Newer(entries[..i], after)
      {
        assert entries[..i + 1][..i] == entries[..i];
        if entries[i].sequence > after { batch := batch + [entries[i]]; }
      }
      assert entries[..|entries|] == entries;
      NewerIsTail(entries, sequence - |entries|, after);
      TailIsUnread(stream, entries, after);
    }
  }

  /** `Where(item => item.Sequence > after)`. */
  function Newer(entries: seq<Entry>, after: nat): seq<Entry> {
    if entries == [] then []
    else
      var before, last := Newer(entries[..|entries| - 1], after), entries[|entries| - 1];
      if last.sequence > after then before + [last] else before
  }

  /** How many of the entries numbered from `first` on a reader at `after` has seen. */
  function Seen(size: nat, first: nat, after: nat): nat {
    if after <= first then 0 else if after - first < size then after - first else size
  }

  /** Of consecutively numbered entries the newer ones are the last ones. */
  lemma {:induction false} NewerIsTail(entries: seq<Entry>, first: nat, after: nat)
    requires forall i :: 0 <= i < |entries| ==> entries[i].sequence == first + i + 1
    ensures Newer(entries, after) == entries[Seen(|entries|, first, after)..]
    decreases |entries|
  {
    if entries != [] {
      var n := |entries| - 1;
      NewerIsTail(entries[..n], first, after);
      assert entries == entries[..n] + [entries[n]];
    }
  }

  lemma TextsOfTail(entries: seq<Entry>, k: nat)
    requires k <= |entries|
    ensures Texts(entries[k..]) == Texts(entries)[k..]
  {
  }

  lemma TailOfTail(stream: seq<string>, start: nat, k: nat)
    requires start + k <= |stream|
    ensures stream[start..][k..] == stream[start + k..]
  {
  }

  lemma TailIsUnread(stream: seq<string>, entries: seq<Entry>, after: nat)
    requires Texts(entries) == Trim(stream)
    ensures Texts(entries[Seen(|entries|, Start(stream), after)..]) == Unread(stream, after)
  {
    var skip := Seen(|entries|, Start(stream), after);
    TrimIsSuffix(stream);
    TextsOfTail(entries, skip);
    TailOfTail(stream, Start(stream), skip);
  }

  /** The queued texts a reader at `cursor` has not been given. */
  function Unread(stream: seq<string>, cursor: nat): seq<string> {
    if cursor >= |stream| then [] else stream[if Start(stream) < cursor then cursor else Start(stream)..]
  }

  // ---- the window ----

  /** The first place of `c` in `s` at or after `from`, or |s|. */
  function Find(s: string, c: char, from: nat): (i: nat)
    requires from <= |s|
    ensures from <= i <= |s|
    decreases |s| - from
  {
    if from == |s| || s[from] == c then from else Find(s, c, from + 1)
  }

  lemma {:induction false} FindsFirst(s: string, c: char, from: nat)
    requires from <= |s|
    ensures Find(s, c, from) < |s| ==> s[Find(s, c, from)] == c
    ensures forall k :: from <= k < Find(s, c, from) ==> s[k] != c
    decreases |s| - from
  {
    if from < |s| && s[from] != c { FindsFirst(s, c, from + 1); }
  }

  /** What the text box shows once `s` no longer fits: the last lines that do. */
  function Display(s: string): string {
    if |s| <= MAX_DISPLAY then s
    else
      var start := Find(s, '\n', |s| - MAX_DISPLAY);
      if start < |s| then s[start + 1..] else s[|s| - MAX_DISPLAY..]
  }

  predicate IsSuffix(t: string, s: string) {
    |t| <= |s| && s[|s| - |t|..] == t
  }

  /** The text shown is the longest suffix under the limit that starts on a fresh line. */
  lemma DisplayIsLastLines(s: string)
    ensures IsSuffix(Display(s), s) && |Display(s)| <= MAX_DISPLAY
    ensures |s| <= MAX_DISPLAY ==> Display(s) == s
    ensures |s| > MAX_DISPLAY && s[|s| - 1] == '\n' ==>
              && s[|s| - |Display(s)| - 1] == '\n'
              && forall k :: |s| - MAX_DISPLAY <= k < |s| - |Display(s)| - 1 ==> s[k] != '\n'
  {
    if |s| > MAX_DISPLAY { FindsFirst(s, '\n', |s| - MAX_DISPLAY); }
  }

  // ---- every interleaving of writers and one reader ----

  datatype Action = Writes(text: string) | Refreshes | Clears

  /**
   The stream, the reader's cursor, the numbers of the texts it was given, and the text shown; and from
   the last time the window was cleared, how long the stream was and how many texts it had been given.
   */
  datatype View = View(stream: seq<string>, cursor: nat, given: seq<nat>, text: string, cleared: nat, base: nat)

  function Numbers(from: nat, to: nat): (ns: seq<nat>)
    requires from <= to
    ensures |ns| == to - from && forall i :: 0 <= i < |ns| ==> ns[i] == from + i
  {
    seq(to - from, i requires 0 <= i => from + i)
  }

  function Step(v: View, a: Action): View
    requires v.cursor <= |v.stream|
  {
    match a
    case Writes(text) => v.(stream := v.stream + [text])
    case Clears => v.(cursor := |v.stream|, text := "", cleared := |v.stream|, base := |v.given|)
    case Refreshes =>
      var unread := Unread(v.stream, v.cursor);
      v.(cursor := |v.stream|, given := v.given + Numbers(|v.stream| - |unread|, |v.stream|),
         text := if unread == [] then v.text else Display(v.text + Concat(unread)))
  }

  lemma Refreshed(v: View, unread: seq<string>, w: View)
    requires v.cursor <= |v.stream| && unread == Unread(v.stream, v.cursor) && |unread| <= |v.stream|
    requires w.stream == v.stream && w.cursor == |v.stream| && w.cleared == v.cleared && w.base == v.base
    requires w.given == v.given + Numbers(|v.stream| - |unread|, |v.stream|)
    requires w.text == if |unread| == 0 then v.text else Display(v.text + Concat(unread))
    ensures w == Step(v, Refreshes)
  {
  }

  function Picked(stream: seq<string>, given: seq<nat>): (texts: seq<string>)
    requires forall i :: 0 <= i < |given| ==> given[i] < |stream|
    ensures |texts| == |given|
  {
    seq(|given|, i requires 0 <= i < |given| => stream[given[i]])
  }

  /** Numbers below the cursor, each once and in order. */
  predicate InOrder(v: View) {
    && (forall i :: 0 <= i < |v.given| ==> v.given[i] < v.cursor)
    && (forall i, j :: 0 <= i < j < |v.given| ==> v.given[i] < v.given[j])
  }

  /** Every text still queued that was written after the last clearing and before the last refresh was given. */
  ghost predicate Complete(v: View) {
    forall n :: v.cleared <= n < v.cursor && Start(v.stream) <= n ==> n in v.given
  }

  /** What was given since the last clearing, in one piece. */
  function Given(v: View): string
    requires v.base <= |v.given| && v.cursor <= |v.stream| && InOrder(v)
  {
    Concat(Picked(v.stream, v.given[v.base..]))
  }

  /** All of it, while that fits the window, and the end of it from then on. */
  predicate Showing(text: string, given: string) {
    IsSuffix(text, given) && |text| <= MAX_DISPLAY && (|given| <= MAX_DISPLAY ==> text == given)
  }

  /** Every text is given exactly once while it is queued, in order, and the window shows what was given. */
  ghost predicate Faithful(v: View) {
    && v.cursor <= |v.stream| && v.cleared <= v.cursor && v.base <= |v.given|
    && InOrder(v) && Complete(v)
    && (forall i :: v.base <= i < |v.given| ==> v.cleared <= v.given[i])
    && Showing(v.text, Given(v))
  }

  lemma StepIsFaithful(v: View, a: Action)
    requires Faithful(v)
    ensures Faithful(Step(v, a))
    ensures v.given <= Step(v, a).given
  {
    match a {
      case Writes(text) => WriteIsFaithful(v, text);
      case Clears =>
        var w := Step(v, a);
        assert w.given[w.base..] == [] && Picked(w.stream, []) == [];
      case Refreshes => RefreshIsFaithful(v);
    }
  }

  /** The oldest queued text never becomes older. */
  lemma StartAdvances(stream: seq<string>, text: string)
    ensures Start(stream) <= Start(stream + [text])
  {
    TrimIncrementally(stream, text);
  }

  lemma WriteIsFaithful(v: View, text: string)
    requires Faithful(v)
    ensures Faithful(Step(v, Writes(text)))
  {
    var w := Step(v, Writes(text));
    StartAdvances(v.stream, text);
    assert Picked(w.stream, w.given[w.base..]) == Picked(v.stream, v.given[v.base..]);
  }

  lemma UnreadIsTail(stream: seq<string>, cursor: nat)
    requires cursor <= |stream|
    ensures |Unread(stream, cursor)| <= |stream| - cursor
    ensures Unread(stream, cursor) == stream[|stream| - |Unread(stream, cursor)|..]
  {
    TrimIsSuffix(stream);
  }

  /** A refresh gives exactly the queued texts after the cursor. */
  lemma UnreadIsQueued(stream: seq<string>, cursor: nat, n: nat)
    requires cursor <= n < |stream| && Start(stream) <= n
    ensures |Unread(stream, cursor)| <= |stream| && n in Numbers(|stream| - |Unread(stream, cursor)|, |stream|)
  {
    var from := |stream| - |Unread(stream, cursor)|;
    assert Numbers(from, |stream|)[n - from] == n;
  }

  lemma NumbersExtend(given: seq<nat>, cursor: nat, from: nat, to: nat)
    requires cursor <= from <= to
    requires forall i :: 0 <= i < |given| ==> given[i] < cursor
    requires forall i, j :: 0 <= i < j < |given| ==> given[i] < given[j]
    ensures var all := given + Numbers(from, to);
      && (forall i :: 0 <= i < |all| ==> all[i] < to)
      && (forall i, j :: 0 <= i < j < |all| ==> all[i] < all[j])
      && (forall i :: |given| <= i < |all| ==> from <= all[i])
  {
  }

  lemma RefreshIsComplete(v: View)
    requires Faithful(v)
    ensures Complete(Step(v, Refreshes))
  {
    var w := Step(v, Refreshes);
    forall n | w.cleared <= n < w.cursor && Start(w.stream) <= n ensures n in w.given {
      if n < v.cursor { assert n in v.given; } else { UnreadIsQueued(v.stream, v.cursor, n); }
    }
  }

  lemma RefreshOrder(v: View)
    requires v.cursor <= |v.stream| && v.cleared <= v.cursor && v.base <= |v.given| && InOrder(v)
    requires forall i :: v.base <= i < |v.given| ==> v.cleared <= v.given[i]
    ensures var w := Step(v, Refreshes);
      && w.stream == v.stream && w.cursor == |w.stream| && w.base == v.base <= |w.given| && w.cleared == v.cleared
      && |Unread(v.stream, v.cursor)| <= |v.stream|
      && w.given[w.base..] == v.given[v.base..] + Numbers(|v.stream| - |Unread(v.stream, v.cursor)|, |v.stream|)
      && InOrder(w) && forall i :: w.base <= i < |w.given| ==> w.cleared <= w.given[i]
  {
    UnreadIsTail(v.stream, v.cursor);
    var added := Numbers(|v.stream| - |Unread(v.stream, v.cursor)|, |v.stream|);
    NumbersExtend(v.given, v.cursor, |v.stream| - |Unread(v.stream, v.cursor)|, |v.stream|);
    assert (v.given + added)[v.base..] == v.given[v.base..] + added;
  }

  lemma RefreshIsShown(v: View, w: View)
    requires Faithful(v) && w == Step(v, Refreshes)
    requires w.base <= |w.given| && w.cursor <= |w.stream| && InOrder(w)
    requires |Unread(v.stream, v.cursor)| <= |v.stream|
    requires w.given[w.base..] == v.given[v.base..] + Numbers(|v.stream| - |Unread(v.stream, v.cursor)|, |v.stream|)
    ensures Showing(w.text, Given(w))
  {
    RefreshShows(v.stream, v.cursor, v.given[v.base..], v.text);
  }

  lemma RefreshIsFaithful(v: View)
    requires Faithful(v)
    ensures Faithful(Step(v, Refreshes))
  {
    RefreshIsComplete(v);
    RefreshOrder(v);
    RefreshIsShown(v, Step(v, Refreshes));
  }

  lemma RefreshShows(stream: seq<string>, cursor: nat, shown: seq<nat>, text: string)
    requires cursor <= |stream| && forall i :: 0 <= i < |shown| ==> shown[i] < |stream|
    requires Showing(text, Concat(Picked(stream, shown)))
    ensures var unread := Unread(stream, cursor);
      |unread| <= |stream| &&
      Showing(if unread == [] then text else Display(text + Concat(unread)),
              Concat(Picked(stream, shown + Numbers(|stream| - |unread|, |stream|))))
  {
    UnreadIsTail(stream, cursor);
    GivenGrows(stream, shown, |stream| - |Unread(stream, cursor)|);
    ShowingGrows(text, Concat(Picked(stream, shown)), Unread(stream, cursor));
  }

  lemma GivenGrows(stream: seq<string>, shown: seq<nat>, from: nat)
    requires from <= |stream| && forall i :: 0 <= i < |shown| ==> shown[i] < |stream|
    ensures Concat(Picked(stream, shown + Numbers(from, |stream|))) == Concat(Picked(stream, shown)) + Concat(stream[from..])
  {
    PickedOfSum(stream, shown, Numbers(from, |stream|));
    assert Picked(stream, Numbers(from, |stream|)) == stream[from..];
    ConcatOfSum(Picked(stream, shown), stream[from..]);
  }

  lemma ShowingGrows(text: string, given: string, unread: seq<string>)
    requires Showing(text, given)
    ensures Showing(Display(text + Concat(unread)), given + Concat(unread))
    ensures unread == [] ==> given + Concat(unread) == given
  {
    SuffixOfSum(text, given, Concat(unread));
    DisplayIsLastLines(text + Concat(unread));
    SuffixOfSuffix(Display(text + Concat(unread)), text + Concat(unread), given + Concat(unread));
  }

  lemma PickedOfSum(stream: seq<string>, a: seq<nat>, b: seq<nat>)
    requires forall i :: 0 <= i < |a| ==> a[i] < |stream|
    requires forall i :: 0 <= i < |b| ==> b[i] < |stream|
    ensures Picked(stream, a + b) == Picked(stream, a) + Picked(stream, b)
  {
  }

  lemma SuffixOfSum(t: string, s: string, more: string)
    requires IsSuffix(t, s)
    ensures IsSuffix(t + more, s + more)
  {
    assert (s + more)[|s| - |t|..] == s[|s| - |t|..] + more;
  }

  lemma SuffixOfSuffix(u: string, t: string, s: string)
    requires IsSuffix(u, t) && IsSuffix(t, s)
    ensures IsSuffix(u, s)
  {
    assert s[|s| - |u|..] == s[|s| - |t|..][|t| - |u|..];
  }

  function Play(v: View, actions: seq<Action>): View
    requires v.cursor <= |v.stream|
    decreases |actions|
  {
    if actions == [] then v else Play(Step(v, actions[0]), actions[1..])
  }

  lemma {:induction false} EveryRunIsFaithful(v: View, actions: seq<Action>)
    requires Faithful(v)
    ensures Faithful(Play(v, actions))
    decreases |actions|
  {
    if actions != [] {
      StepIsFaithful(v, actions[0]);
      EveryRunIsFaithful(Step(v, actions[0]), actions[1..]);
    }
  }

  /** A refresh misses nothing exactly when what was written since the last one still fits the queue. */
  lemma NothingMissedIffItFits(v: View)
    requires v.cursor <= |v.stream|
    ensures Unread(v.stream, v.cursor) == v.stream[v.cursor..] <==> Fits(v.stream[v.cursor..])
  {
    TrimIsLongestFit(v.stream, v.cursor);
    if v.cursor == |v.stream| { assert v.stream[v.cursor..] == []; }
  }

  class LogWindow {
    const log: LiveLog
    var cursor: nat
    var text: string
    ghost var given: seq<nat>
    ghost var cleared: nat
    ghost var base: nat

    ghost function State(): View
      reads this, log
    {
      View(log.stream, cursor, given, text, cleared, base)
    }

    ghost predicate Valid()
      reads this, log
    {
      log.Valid() && Faithful(State())
    }

    constructor (log: LiveLog)
      requires log.Valid()
      ensures Valid() && this.log == log && State() == View(log.stream, 0, [], "", 0, 0)
    {
      this.log, cursor, text := log, 0, "";
      given, cleared, base := [], 0, 0;
    }

    method Refresh()
      requires Valid()
      modifies this
      ensures Valid() && State() == Step(old(State()), Refreshes)
    {
      StepIsFaithful(State(), Refreshes);
      Pull();
    }

    /** Read after the cursor, move it, and show what came. */
    method Pull()
      requires log.Valid() && cursor <= |log.stream|
      modifies this`cursor, this`given, this`text
      ensures State() == Step(old(State()), Refreshes)
    {
      ghost var v := State();
      var batch := Take();
      if |batch| > 0 {
        var addition := Gather(batch);
        Show(addition);
      }
      Refreshed(v, Texts(batch), State());
    }

    /** The entries after the cursor, which moves behind them. */
    method Take() returns (batch: seq<Entry>)
      requires log.Valid() && cursor <= |log.stream|
      modifies this`cursor, this`given
      ensures Texts(batch) == Unread(log.stream, old(cursor)) && cursor == |log.stream| && |batch| <= |log.stream|
      ensures given == old(given) + Numbers(|log.stream| - |batch|, |log.stream|)
    {
      var latest;
      latest, batch := log.ReadAfter(cursor);
      UnreadIsTail(log.stream, cursor);
      assert |batch| == |Texts(batch)|;
      given := given + Numbers(latest - |batch|, latest);
      cursor := latest;
    }

    /** `string.Concat` over the batch. */
    method Gather(batch: seq<Entry>) returns (addition: string)
      ensures addition == Concat(Texts(batch))
    {
      addition := "";
      for i := 0 to |batch|
        invariant addition == Concat(Texts(batch)[..i])
      {
        addition := addition + batch[i].text;
        assert Texts(batch)[..i + 1] == Texts(batch)[..i] + [batch[i].text];
        ConcatOfSum(Texts(batch)[..i], [batch[i].text]);
        assert Concat([batch[i].text]) == batch[i].text + "";
      }
      assert Texts(batch)[..|batch|] == Texts(batch);
    }

    method Show(addition: string)
      modifies this`text
      ensures text == Display(old(text) + addition)
    {
      if |text| + |addition| > MAX_DISPLAY {
        var combined := text + addition;
        var start := Find(combined, '\n', |combined| - MAX_DISPLAY);
        text := if start < |combined| then combined[start + 1..] else combined[|combined| - MAX_DISPLAY..];
      } else {
        text := text + addition;
      }
    }

    method Clear()
      requires Valid()
      modifies this
      ensures Valid() && State() == Step(old(State()), Clears)
    {
      StepIsFaithful(State(), Clears);
      Reset();
    }

    /** Skip to the end of the log and show nothing. */
    method Reset()
      requires log.Valid() && cursor <= |log.stream|
      modifies this`cursor, this`text, this`cleared, this`base
      ensures State() == Step(old(State()), Clears)
    {
      cursor := log.sequence;
      text := "";
      cleared, base := cursor, |given|;
    }
  }
}
