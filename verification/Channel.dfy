/**
 Channel messages: `split_exclusive_media`, `normalize_channel_message` and what they call.

 A message is a JSON value.  A missing field and a null one read alike, as with `dict.get`.
 A reply is normalised when it is parsed, then split, and every part is normalised again
 when it is queued: the second time changes nothing.
 */
module Channels {
  import opened Wrappers
  import opened Grouping

  /** The field names the code reads; every other name is `Named`. */
  datatype Key = Action | Segments | Nodes | Forward | Type | Data | Text | File | SendAs | Nickname | Content | UserId | Named(name: string)

  datatype Json = JNull | JBool(flag: bool) | JNum(number: real) | JStr(text: string) | JArr(items: seq<Json>) | JObj(fields: map<Key, Json>)

  datatype Problem = EmptyMessage | MustBeTextOrObject | RequiresSegmentsOrForward | EmptyForward | EmptySegments | InvalidSegment
                   | InvalidType | InvalidData | InvalidText | BlankLines | RequiresFile | InvalidSendAs | InvalidNode | RequiresNickname

  function Get(fields: map<Key, Json>, key: Key): Json {
    if key in fields then fields[key] else JNull
  }

  /** What Python counts as true. */
  predicate Truthy(v: Json) {
    match v
    case JNull => false
    case JBool(flag) => flag
    case JNum(number) => number != 0.0
    case JStr(text) => text != ""
    case JArr(items) => items != []
    case JObj(fields) => fields != map[]
  }

  // ---- splitting ----

  predicate ExclusiveKind(kind: string) {
    kind in {"file", "video", "audio", "record"}
  }

  predicate Exclusive(segment: Json) {
    segment.JObj? && Get(segment.fields, Type).JStr? && ExclusiveKind(Get(segment.fields, Type).text)
  }

  function Message(segments: seq<Json>): Json {
    JObj(map[Action := JStr("message"), Segments := JArr(segments)])
  }

  predicate IsMessage(message: map<Key, Json>) {
    Get(message, Action) == JStr("message")
  }

  function SegmentsOf(message: Json): seq<Json> {
    if message.JObj? && Get(message.fields, Segments).JArr? then Get(message.fields, Segments).items else []
  }

  /** One message for each group. */
  function Messages(groups: seq<seq<Json>>): (messages: seq<Json>)
    ensures |messages| == |groups| && forall i :: 0 <= i < |groups| ==> SegmentsOf(messages[i]) == groups[i]
  {
    seq(|groups|, i requires 0 <= i < |groups| => Message(groups[i]))
  }

  /** The messages to send instead of one message. */
  function Split(message: Json): seq<Json> {
    if !message.JObj? || !IsMessage(message.fields) || |SegmentsOf(message)| <= 1 || Free(Exclusive, SegmentsOf(message)) then [message]
    else Messages(Groups(Exclusive, SegmentsOf(message)))
  }

  /** What the code can read: no segments at all, or a list of objects whose type can be hashed. */
  predicate Readable(message: map<Key, Json>) {
    var segments := Get(message, Segments);
    IsMessage(message) && Truthy(segments) ==> segments.JArr? && forall s :: s in segments.items ==> IsSegment(s)
  }

  predicate IsSegment(s: Json) {
    s.JObj? && !Get(s.fields, Type).JArr? && !Get(s.fields, Type).JObj?
  }

  method SplitExclusiveMedia(message: map<Key, Json>) returns (messages: seq<Json>)
    requires Readable(message)
    ensures messages == Split(JObj(message))
  {
    if !IsMessage(message) { return [JObj(message)]; }
    var segments := if Truthy(Get(message, Segments)) then Get(message, Segments).items else [];
    if |segments| <= 1 { return [JObj(message)]; }
    if !exists i :: 0 <= i < |segments| && Exclusive(segments[i]) { return [JObj(message)]; }
    var groups := GroupSegments(segments);
    messages := Messages(groups);
  }

  method GroupSegments(segments: seq<Json>) returns (groups: seq<seq<Json>>)
    ensures groups == Groups(Exclusive, segments)
  {
    groups := [];
    var current: seq<Json> := [];
    for i := 0 to |segments|
      invariant Flush(groups, current) == Groups(Exclusive, segments[..i])
      invariant Begun(Exclusive, groups, current)
    {
      FlushAdds(Exclusive, groups, current, segments[i]);
      assert segments[..i + 1][..i] == segments[..i];
      if Exclusive(segments[i]) {
        if current != [] {
          groups := groups + [current];
          current := [];
        }
        groups := groups + [[segments[i]]];
      } else {
        current := current + [segments[i]];
      }
    }
    assert segments[..|segments|] == segments;
    if current != [] { groups := groups + [current]; }
  }

  /** Splitting conserves the segments; unless there are none, what is sent is the one grouping a gateway can send. */
  lemma SplitConserves(message: Json, groups: seq<seq<Json>>)
    requires message.JObj? && IsMessage(message.fields)
    requires |groups| == |Split(message)| && forall i :: 0 <= i < |groups| ==> groups[i] == SegmentsOf(Split(message)[i])
    ensures Flatten(groups) == SegmentsOf(message)
    ensures SegmentsOf(message) != [] ==> Sendable(Exclusive, groups) && groups == Groups(Exclusive, SegmentsOf(message))
  {
    var segments := SegmentsOf(message);
    if |segments| <= 1 || Free(Exclusive, segments) {
      assert groups == [segments] && [segments][..0] == [];
      if segments != [] {
        FreeIsOneGroup(Exclusive, segments);
        GroupingIsUnique(Exclusive, groups, segments);
      }
    } else {
      assert groups == Groups(Exclusive, segments);
      GroupsAreSendable(Exclusive, segments);
    }
  }

  /** Every message that splitting gives splits to itself. */
  lemma SplitsToItself(message: Json, i: nat)
    requires i < |Split(message)|
    ensures Split(Split(message)[i]) == [Split(message)[i]]
  {
    var segments := SegmentsOf(message);
    if message.JObj? && IsMessage(message.fields) && |segments| > 1 && !Free(Exclusive, segments) {
      GroupsAreSendable(Exclusive, segments);
      FittingStays(Groups(Exclusive, segments)[i]);
    }
  }

  lemma FittingStays(group: seq<Json>)
    requires Fits(Exclusive, group)
    ensures Split(Message(group)) == [Message(group)]
  {
  }

  // ---- text ----

  /** What `str.strip` removes and `\s` matches. */
  predicate Space(c: char) {
    var n := c as int;
    || 0x09 <= n <= 0x0D || 0x1C <= n <= 0x20 || n == 0x85 || n == 0xA0 || n == 0x1680 || 0x2000 <= n <= 0x200A
    || n == 0x2028 || n == 0x2029 || n == 0x202F || n == 0x205F || n == 0x3000
  }

  predicate Blank(text: string) {
    forall i :: 0 <= i < |text| ==> Space(text[i])
  }

  function StripLeft(text: string): string {
    if text != "" && Space(text[0]) then StripLeft(text[1..]) else text
  }

  function StripRight(text: string): string {
    if text != "" && Space(text[|text| - 1]) then StripRight(text[..|text| - 1]) else text
  }

  function Strip(text: string): string {
    StripRight(StripLeft(text))
  }

  /** Nothing at either end to strip. */
  predicate Trimmed(text: string) {
    text != "" ==> !Space(text[0]) && !Space(text[|text| - 1])
  }

  /** Two line ends with nothing but white space between them. */
  predicate HasBlankLine(text: string) {
    exists i, j :: 0 <= i < j < |text| && BlankBetween(text, i, j)
  }

  predicate BlankBetween(text: string, i: nat, j: nat)
    requires i < j < |text|
  {
    text[i] == '\n' && text[j] == '\n' && forall k :: i < k < j ==> Space(text[k])
  }

  lemma {:induction false} StripLeftIsSuffix(text: string) returns (a: nat)
    ensures a <= |text| && StripLeft(text) == text[a..] && Blank(text[..a])
    ensures a < |text| ==> !Space(text[a])
  {
    a := 0;
    if text != "" && Space(text[0]) {
      var b := StripLeftIsSuffix(text[1..]);
      a := b + 1;
      assert text[..a] == [text[0]] + text[1..][..b];
    }
  }

  lemma {:induction false} StripRightIsPrefix(text: string) returns (b: nat)
    ensures b <= |text| && StripRight(text) == text[..b] && Blank(text[b..])
    ensures b > 0 ==> !Space(text[b - 1])
  {
    b := |text|;
    if text != "" && Space(text[|text| - 1]) {
      b := StripRightIsPrefix(text[..|text| - 1]);
      assert text[b..] == text[..|text| - 1][b..] + [text[|text| - 1]];
    }
  }

  /** Stripping takes white space off both ends and nothing else, until there is none to take. */
  lemma StripTrims(text: string) returns (a: nat, b: nat)
    ensures a <= b <= |text| && Strip(text) == text[a..b] && Blank(text[..a]) && Blank(text[b..]) && Trimmed(Strip(text))
  {
    a := StripLeftIsSuffix(text);
    var n := StripRightIsPrefix(text[a..]);
    b := a + n;
    assert text[a..][..n] == text[a..b] && text[a..][n..] == text[b..];
  }

  lemma TrimmedStays(text: string)
    requires Trimmed(text)
    ensures Strip(text) == text
  {
  }

  lemma StripTwice(text: string)
    ensures Strip(Strip(text)) == Strip(text)
  {
    var a, b := StripTrims(text);
    TrimmedStays(Strip(text));
  }

  /** Stripping does not make a blank line. */
  lemma StripAddsNoBlankLine(text: string)
    ensures HasBlankLine(Strip(text)) ==> HasBlankLine(text)
  {
    var a, b := StripTrims(text);
    var inner := Strip(text);
    if HasBlankLine(inner) {
      var i, j :| 0 <= i < j < |inner| && BlankBetween(inner, i, j);
      assert text[a + i] == inner[i] && text[a + j] == inner[j];
      forall k | a + i < k < a + j ensures Space(text[k]) { assert text[k] == inner[k - a]; }
      assert BlankBetween(text, a + i, a + j);
    }
  }

  // ---- one after the other ----

  /** Every element read, or the first that cannot be. */
  function Each<A, B>(xs: seq<A>, read: A -> Result<B, Problem>): Result<seq<B>, Problem>
    decreases |xs|
  {
    if xs == [] then Ok([])
    else
      var before := Each(xs[..|xs| - 1], read);
      if before.Err? then before
      else
        var last := read(xs[|xs| - 1]);
        if last.Err? then Err(last.error) else Ok(before.value + [last.value])
  }

  /** Each element is read on its own; the problem reported is the first one's. */
  lemma {:induction false} EachReadsEach<A, B>(xs: seq<A>, read: A -> Result<B, Problem>)
    ensures match Each(xs, read)
      case Ok(ys) => |ys| == |xs| && forall i :: 0 <= i < |xs| ==> read(xs[i]) == Ok(ys[i])
      case Err(e) => exists i :: 0 <= i < |xs| && read(xs[i]) == Err(e) && forall j :: 0 <= j < i ==> read(xs[j]).Ok?
    decreases |xs|
  {
    if xs != [] {
      var n := |xs| - 1;
      EachReadsEach(xs[..n], read);
      match Each(xs[..n], read)
      case Ok(ys) =>
        if read(xs[n]).Err? { assert forall j :: 0 <= j < n ==> read(xs[..n][j]) == read(xs[j]); }
      case Err(e) =>
        var i :| 0 <= i < n && read(xs[..n][i]) == Err(e) && forall j :: 0 <= j < i ==> read(xs[..n][j]).Ok?;
        assert read(xs[i]) == Err(e) && forall j :: 0 <= j < i ==> read(xs[j]) == read(xs[..n][j]);
    }
  }

  lemma {:induction false} EachFixed<A>(xs: seq<A>, read: A -> Result<A, Problem>)
    requires forall i :: 0 <= i < |xs| ==> read(xs[i]) == Ok(xs[i])
    ensures Each(xs, read) == Ok(xs)
    decreases |xs|
  {
    if xs != [] {
      var n := |xs| - 1;
      var before := xs[..n];
      forall i | 0 <= i < n ensures read(before[i]) == Ok(before[i]) { assert before[i] == xs[i]; }
      EachFixed(before, read);
      EachOneMore(before, xs[n], read);
      assert xs == before + [xs[n]];
    }
  }

  lemma EachOneMore<A, B>(xs: seq<A>, x: A, read: A -> Result<B, Problem>)
    requires Each(xs, read).Ok? && read(x).Ok?
    ensures Each(xs + [x], read) == Ok(Each(xs, read).value + [read(x).value])
  {
    assert (xs + [x])[..|xs|] == xs;
  }

  // ---- segments ----

  predicate TypeCharacter(c: char) {
    'a' <= c <= 'z' || 'A' <= c <= 'Z' || '0' <= c <= '9' || c == '_' || c == '-'
  }

  predicate TypeName(kind: string) {
    1 <= |kind| <= 40 && forall i :: 0 <= i < |kind| ==> TypeCharacter(kind[i])
  }

  predicate IsText(kind: string) {
    kind == "text"
  }

  predicate Media(kind: string) {
    kind in {"image", "file", "video", "audio", "record"}
  }

  predicate Clip(kind: string) {
    kind in {"video", "file"}
  }

  /** The data of one segment: a text is stripped, anything else is kept. */
  function NormalizeData(kind: string, data: map<Key, Json>): Result<map<Key, Json>, Problem> {
    if IsText(kind) then
      if !Get(data, Text).JStr? || Strip(Get(data, Text).text) == "" then Err(InvalidText)
      else if HasBlankLine(Get(data, Text).text) then Err(BlankLines)
      else Ok(data[Text := JStr(Strip(Get(data, Text).text))])
    else Ok(data)
  }

  function Segment(kind: string, data: map<Key, Json>): map<Key, Json> {
    map[Type := JStr(kind), Data := JObj(data)]
  }

  function NormalizeSegment(segment: Json): Result<Json, Problem> {
    if !segment.JObj? then Err(InvalidSegment)
    else if !Get(segment.fields, Type).JStr? || !TypeName(Get(segment.fields, Type).text) then Err(InvalidType)
    else if !Get(segment.fields, Data).JObj? then Err(InvalidData)
    else
      var kind := Get(segment.fields, Type).text;
      var data := NormalizeData(kind, Get(segment.fields, Data).fields);
      if data.Err? then Err(data.error)
      else if Media(kind) && !Get(data.value, File).JStr? then Err(RequiresFile)
      else if SendAs !in segment.fields then Ok(JObj(Segment(kind, data.value)))
      else
        var sendAs := segment.fields[SendAs];
        if !Clip(kind) || !sendAs.JStr? || !Clip(sendAs.text) then Err(InvalidSendAs)
        else Ok(JObj(Segment(kind, data.value)[SendAs := sendAs]))
  }

  function NormalizeSegments(value: Json): Result<seq<Json>, Problem> {
    if !value.JArr? || value.items == [] then Err(EmptySegments) else Each(value.items, NormalizeSegment)
  }

  method NormalizeSegmentList(value: Json) returns (r: Result<seq<Json>, Problem>)
    ensures r == NormalizeSegments(value)
  {
    if !value.JArr? || value.items == [] { return Err(EmptySegments); }
    var normalized: seq<Json> := [];
    var segments := value.items;
    for i := 0 to |segments|
      invariant Each(segments[..i], NormalizeSegment) == Ok(normalized)
    {
      assert segments[..i + 1][..i] == segments[..i];
      var item := NormalizeSegment(segments[i]);
      if item.Err? {
        StopsAt(segments, i, NormalizeSegment);
        return Err(item.error);
      }
      normalized := normalized + [item.value];
    }
    assert segments[..|segments|] == segments;
    r := Ok(normalized);
  }

  /** The first element that cannot be read decides. */
  lemma StopsAt<A, B>(xs: seq<A>, i: nat, read: A -> Result<B, Problem>)
    requires i < |xs| && Each(xs[..i], read).Ok? && read(xs[i]).Err?
    ensures Each(xs, read) == Err(read(xs[i]).error)
  {
    EachReadsEach(xs[..i], read);
    EachReadsEach(xs, read);
    assert forall j :: 0 <= j < i ==> read(xs[..i][j]) == read(xs[j]);
  }

  lemma DataTwice(kind: string, data: map<Key, Json>)
    requires NormalizeData(kind, data).Ok?
    ensures NormalizeData(kind, NormalizeData(kind, data).value) == NormalizeData(kind, data)
  {
    if IsText(kind) {
      var text := Get(data, Text).text;
      StripTwice(text);
      StripAddsNoBlankLine(text);
      var stripped := data[Text := JStr(Strip(text))];
      assert stripped[Text := JStr(Strip(text))] == stripped;
    }
  }

  /** A segment is accepted in normal form, with its kind. */
  lemma SegmentTwice(segment: Json)
    requires NormalizeSegment(segment).Ok?
    ensures NormalizeSegment(NormalizeSegment(segment).value) == NormalizeSegment(segment)
    ensures Exclusive(NormalizeSegment(segment).value) == Exclusive(segment)
  {
    DataTwice(Get(segment.fields, Type).text, Get(segment.fields, Data).fields);
  }

  // ---- what normalising keeps ----

  function DataOf(segment: Json): map<Key, Json> {
    if segment.JObj? && Get(segment.fields, Data).JObj? then Get(segment.fields, Data).fields else map[]
  }

  function KindOf(segment: Json): string {
    if segment.JObj? && Get(segment.fields, Type).JStr? then Get(segment.fields, Type).text else ""
  }

  predicate IsTextSegment(segment: Json) {
    IsText(KindOf(segment))
  }

  /** What is wrong with a segment, problem by problem. */
  predicate Suffers(segment: Json, problem: Problem) {
    match problem
    case InvalidSegment => !segment.JObj?
    case InvalidType => segment.JObj? && !(Get(segment.fields, Type).JStr? && TypeName(KindOf(segment)))
    case InvalidData => segment.JObj? && !Get(segment.fields, Data).JObj?
    case InvalidText => IsTextSegment(segment) && (Get(DataOf(segment), Text).JStr? ==> Blank(Get(DataOf(segment), Text).text))
    case BlankLines => IsTextSegment(segment) && Get(DataOf(segment), Text).JStr? && HasBlankLine(Get(DataOf(segment), Text).text)
    case RequiresFile => Media(KindOf(segment)) && !Get(DataOf(segment), File).JStr?
    case InvalidSendAs =>
      segment.JObj? && SendAs in segment.fields &&
      !(Clip(KindOf(segment)) && segment.fields[SendAs].JStr? && Clip(segment.fields[SendAs].text))
    case _ => false
  }

  /** A segment is refused exactly when something is wrong with it, and the problem reported is one it has. */
  lemma RefusedIffSuffers(segment: Json)
    ensures match NormalizeSegment(segment)
      case Ok(_) => forall problem :: !Suffers(segment, problem)
      case Err(problem) => Suffers(segment, problem)
  {
    if IsTextSegment(segment) && Get(DataOf(segment), Text).JStr? { StripIsEmpty(Get(DataOf(segment), Text).text); }
  }

  lemma StripIsEmpty(text: string)
    ensures Strip(text) == "" <==> Blank(text)
  {
    var a, b := StripTrims(text);
    if Strip(text) == "" {
      assert a == b;
      forall i | 0 <= i < |text| ensures Space(text[i]) {
        if i < a { assert Space(text[..a][i]); } else { assert Space(text[b..][i - b]); }
      }
    } else {
      assert text[a] == Strip(text)[0] && !Space(text[a]);
    }
  }

  /** Of a segment its type, its `send_as` and all of its data are kept, but for the white space around a text; nothing is added. */
  predicate SegmentKept(before: Json, after: Json) {
    && before.JObj? && after.JObj? && KindOf(after) == KindOf(before)
    && Get(before.fields, Data).JObj? && Get(after.fields, Data).JObj?
    && (forall key :: key in after.fields ==> key in {Type, Data, SendAs})
    && Same(after.fields, before.fields, SendAs)
    && DataOf(after).Keys == DataOf(before).Keys
    && (forall key :: key in DataOf(before) && !(IsTextSegment(before) && key == Text) ==> DataOf(after)[key] == DataOf(before)[key])
    && (IsTextSegment(before) ==> TextKept(Get(DataOf(before), Text), Get(DataOf(after), Text)))
  }

  predicate TextKept(before: Json, after: Json) {
    before.JStr? && after.JStr? && after.text == Strip(before.text) != ""
  }

  lemma SegmentIsKept(segment: Json)
    requires NormalizeSegment(segment).Ok?
    ensures SegmentKept(segment, NormalizeSegment(segment).value)
  {
    var data := Get(segment.fields, Data).fields;
    if IsTextSegment(segment) { assert data[Text := JStr(Strip(Get(data, Text).text))].Keys == data.Keys; }
  }

  /** As many, each kept in its place. */
  predicate EachKept(before: seq<Json>, after: seq<Json>) {
    |after| == |before| && forall i :: 0 <= i < |before| ==> SegmentKept(before[i], after[i])
  }

  lemma SegmentsAreKept(value: Json)
    requires NormalizeSegments(value).Ok?
    ensures value.JArr? && value.items != [] && EachKept(value.items, NormalizeSegments(value).value)
  {
    EachReadsEach(value.items, NormalizeSegment);
    forall i | 0 <= i < |value.items| ensures SegmentKept(value.items[i], NormalizeSegments(value).value[i]) {
      SegmentIsKept(value.items[i]);
    }
  }

  lemma SegmentsTwice(value: Json)
    requires NormalizeSegments(value).Ok?
    ensures NormalizeSegments(JArr(NormalizeSegments(value).value)) == NormalizeSegments(value)
    ensures forall i :: 0 <= i < |NormalizeSegments(value).value| ==> InNormalForm(NormalizeSegments(value).value[i])
  {
    var normalized := NormalizeSegments(value).value;
    EachReadsEach(value.items, NormalizeSegment);
    forall i | 0 <= i < |normalized| ensures InNormalForm(normalized[i]) { SegmentTwice(value.items[i]); }
    EachFixed(normalized, NormalizeSegment);
  }

  predicate InNormalForm(segment: Json) {
    NormalizeSegment(segment) == Ok(segment)
  }

  // ---- forward nodes ----

  /** `str`: a string is itself, and nothing that counts as true becomes the empty string. */
  ghost predicate IsStr(str: Json -> string) {
    (forall s :: str(JStr(s)) == s) && forall v :: Truthy(v) ==> str(v) != ""
  }

  function UserOf(data: map<Key, Json>, str: Json -> string): string {
    str(if Truthy(Get(data, UserId)) then Get(data, UserId) else JStr("0"))
  }

  function ContentOf(data: map<Key, Json>): Json {
    var content := Get(data, Content);
    if content.JStr? then JArr([JObj(Segment("text", map[Text := content]))]) else content
  }

  function Node(user: string, nickname: string, content: seq<Json>): Json {
    JObj(map[Type := JStr("node"), Data := JObj(map[UserId := JStr(user), Nickname := JStr(nickname), Content := JArr(content)])])
  }

  predicate IsNode(fields: map<Key, Json>) {
    Get(fields, Type) == JStr("node")
  }

  function NormalizeNode(value: Json, str: Json -> string): Result<Json, Problem> {
    if !value.JObj? then Err(InvalidNode)
    else
      var data := if IsNode(value.fields) then Get(value.fields, Data) else value;
      if !data.JObj? then Err(InvalidNode)
      else
        var nickname := Get(data.fields, Nickname);
        if !nickname.JStr? || Strip(nickname.text) == "" then Err(RequiresNickname)
        else
          var content := NormalizeSegments(ContentOf(data.fields));
          if content.Err? then Err(content.error)
          else Ok(Node(UserOf(data.fields, str), Strip(nickname.text), content.value))
  }

  function NodeReader(str: Json -> string): Json -> Result<Json, Problem> {
    value => NormalizeNode(value, str)
  }

  /** A node's own fields: under `data`, or beside its content. */
  function NodeData(value: Json): map<Key, Json> {
    if !value.JObj? then map[] else if IsNode(value.fields) then DataOf(value) else value.fields
  }

  /** A string as content is one text; a list is kept segment by segment. */
  predicate ContentKept(before: Json, after: Json) {
    && after.JArr?
    && if before.JStr? then |after.items| == 1 && IsTextOf(after.items[0], Strip(before.text)) && before.text != ""
       else before.JArr? && EachKept(before.items, after.items)
  }

  /** One text segment with this text and nothing else. */
  predicate IsTextOf(segment: Json, text: string) {
    segment == JObj(map[Type := JStr("text"), Data := JObj(map[Text := JStr(text)])])
  }

  /** Of a forward node the user, the nickname but for the white space around it, and the content are kept, and nothing else. */
  predicate NodeKept(before: Json, after: Json, str: Json -> string) {
    var data, kept := NodeData(before), NodeData(after);
    && after.JObj? && after.fields.Keys == {Type, Data} && IsNode(after.fields) && Get(after.fields, Data).JObj?
    && kept.Keys == {UserId, Nickname, Content}
    && kept[UserId] == JStr(if Truthy(Get(data, UserId)) then str(Get(data, UserId)) else "0")
    && TextKept(Get(data, Nickname), kept[Nickname])
    && ContentKept(Get(data, Content), kept[Content])
  }

  lemma NodeIsKept(value: Json, str: Json -> string)
    requires IsStr(str) && NormalizeNode(value, str).Ok?
    ensures NodeKept(value, NormalizeNode(value, str).value, str)
  {
    var data := NodeData(value);
    var after := NormalizeNode(value, str).value;
    var content := Get(data, Content);
    SegmentsAreKept(ContentOf(data));
    assert Get(after.fields, Data) == JObj(NodeData(after));
    if content.JStr? { TextIsKept(content.text, NormalizeSegments(ContentOf(data)).value); }
  }

  lemma TextIsKept(text: string, items: seq<Json>)
    requires NormalizeSegments(JArr([JObj(Segment("text", map[Text := JStr(text)]))])) == Ok(items)
    ensures |items| == 1 && IsTextOf(items[0], Strip(text)) && text != ""
  {
    var segment := JObj(Segment("text", map[Text := JStr(text)]));
    EachOfOne(segment, NormalizeSegment);
    assert IsText("text") && !Media("text");
    assert map[Text := JStr(text)][Text := JStr(Strip(text))] == map[Text := JStr(Strip(text))];
  }

  lemma NodeTwice(value: Json, str: Json -> string)
    requires IsStr(str) && NormalizeNode(value, str).Ok?
    ensures NormalizeNode(NormalizeNode(value, str).value, str) == NormalizeNode(value, str)
  {
    var data := if IsNode(value.fields) then Get(value.fields, Data) else value;
    var content := NormalizeSegments(ContentOf(data.fields)).value;
    StripTwice(Get(data.fields, Nickname).text);
    SegmentsTwice(ContentOf(data.fields));
    StandardNodeStays(UserOf(data.fields, str), Strip(Get(data.fields, Nickname).text), content, str);
  }

  lemma StandardNodeStays(user: string, nickname: string, content: seq<Json>, str: Json -> string)
    requires IsStr(str) && user != "" && nickname != "" && Strip(nickname) == nickname && NormalizeSegments(JArr(content)) == Ok(content)
    ensures NormalizeNode(Node(user, nickname, content), str) == Ok(Node(user, nickname, content))
  {
    var data := map[UserId := JStr(user), Nickname := JStr(nickname), Content := JArr(content)];
    assert ContentOf(data) == JArr(content);
    assert UserOf(data, str) == user;
    assert Get(Node(user, nickname, content).fields, Data) == JObj(data);
  }

  // ---- whole messages ----

  function ForwardMessage(nodes: seq<Json>): Json {
    JObj(map[Action := JStr("forward"), Nodes := JArr(nodes)])
  }

  predicate IsForward(fields: map<Key, Json>) {
    Get(fields, Action) == JStr("forward")
  }

  function MessageWith(value: Json): Result<Json, Problem> {
    var segments := NormalizeSegments(value);
    if segments.Ok? then Ok(Message(segments.value)) else Err(segments.error)
  }

  function ForwardWith(value: Json, str: Json -> string): Result<Json, Problem> {
    if !value.JArr? || value.items == [] then Err(EmptyForward)
    else
      var nodes := Each(value.items, NodeReader(str));
      if nodes.Ok? then Ok(ForwardMessage(nodes.value)) else Err(nodes.error)
  }

  function TextMessage(text: string): Json {
    Message([JObj(Segment("text", map[Text := JStr(text)]))])
  }

  function Normalize(value: Json, str: Json -> string): Result<Json, Problem> {
    if value.JStr? then
      if Strip(value.text) == "" then Err(EmptyMessage) else Ok(TextMessage(Strip(value.text)))
    else if !value.JObj? then Err(MustBeTextOrObject)
    else if IsMessage(value.fields) then MessageWith(Get(value.fields, Segments))
    else if IsForward(value.fields) then ForwardWith(Get(value.fields, Nodes), str)
    else if Segments in value.fields then MessageWith(value.fields[Segments])
    else if Forward in value.fields then ForwardWith(value.fields[Forward], str)
    else Err(RequiresSegmentsOrForward)
  }

  /** The segments an object sends, or none when it forwards; its action decides, and without one the field that is there. */
  function Sends(fields: map<Key, Json>): Option<Json> {
    if IsMessage(fields) then Some(Get(fields, Segments))
    else if !IsForward(fields) && Segments in fields then Some(fields[Segments]) else None
  }

  function Forwards(fields: map<Key, Json>): Json {
    if IsForward(fields) then Get(fields, Nodes) else Get(fields, Forward)
  }

  /** As many nodes, each kept in its place. */
  predicate NodesKept(before: Json, after: Json, str: Json -> string) {
    && before.JArr? && after.JArr? && |after.items| == |before.items| > 0
    && forall i :: 0 <= i < |before.items| ==> NodeKept(before.items[i], after.items[i], str)
  }

  /** A message or a forward, with all that was in it. */
  predicate MessageKept(before: Json, after: Json, str: Json -> string) {
    && after.JObj?
    && match before
       case JStr(text) =>
         IsMessage(after.fields) && after.fields.Keys == {Action, Segments} && ContentKept(before, Get(after.fields, Segments))
       case JObj(fields) =>
         if Sends(fields).Some? then
           && IsMessage(after.fields) && after.fields.Keys == {Action, Segments}
           && Sends(fields).value.JArr? && ContentKept(Sends(fields).value, Get(after.fields, Segments))
         else
           && IsForward(after.fields) && after.fields.Keys == {Action, Nodes}
           && NodesKept(Forwards(fields), Get(after.fields, Nodes), str)
       case _ => false
  }

  lemma ForwardIsKept(value: Json, str: Json -> string)
    requires IsStr(str) && ForwardWith(value, str).Ok?
    ensures NodesKept(value, Get(ForwardWith(value, str).value.fields, Nodes), str)
  {
    EachReadsEach(value.items, NodeReader(str));
    var nodes := Each(value.items, NodeReader(str)).value;
    forall i | 0 <= i < |nodes| ensures NodeKept(value.items[i], nodes[i], str) { NodeIsKept(value.items[i], str); }
    assert Get(ForwardMessage(nodes).fields, Nodes) == JArr(nodes);
  }

  lemma SegmentsOfMessageAreKept(value: Json)
    requires MessageWith(value).Ok?
    ensures ContentKept(value, Get(MessageWith(value).value.fields, Segments))
  {
    SegmentsAreKept(value);
    assert Get(Message(NormalizeSegments(value).value).fields, Segments) == JArr(NormalizeSegments(value).value);
  }

  /** Whatever is accepted is kept: as many segments or nodes, each with its type, its data and its place. */
  lemma NormalizeKeeps(value: Json, str: Json -> string)
    requires IsStr(str) && Normalize(value, str).Ok?
    ensures MessageKept(value, Normalize(value, str).value, str)
  {
    match value
    case JStr(text) =>
      assert Get(TextMessage(Strip(text)).fields, Segments) == JArr([JObj(Segment("text", map[Text := JStr(Strip(text))]))]);
    case JObj(fields) =>
      if Sends(fields).Some? { SegmentsOfMessageAreKept(Sends(fields).value); } else { ForwardIsKept(Forwards(fields), str); }
    case _ =>
  }

  // ---- what is accepted ----

  ghost predicate AllWell(value: Json) {
    value.JArr? && value.items != [] && forall i :: 0 <= i < |value.items| ==> IsWell(value.items[i])
  }

  ghost predicate IsWell(segment: Json) {
    forall problem :: !Suffers(segment, problem)
  }

  /** A node has data, a nickname, and content that could be sent. */
  ghost predicate NodeWell(value: Json) {
    var data := NodeData(value);
    && value.JObj? && (IsNode(value.fields) ==> Get(value.fields, Data).JObj?)
    && Get(data, Nickname).JStr? && !Blank(Get(data, Nickname).text)
    && match Get(data, Content)
       case JStr(text) => !Blank(text) && !HasBlankLine(text)
       case content => AllWell(content)
  }

  ghost predicate Acceptable(value: Json) {
    match value
    case JStr(text) => !Blank(text)
    case JObj(fields) =>
      if Sends(fields).Some? then AllWell(Sends(fields).value)
      else
        var nodes := Forwards(fields);
        nodes.JArr? && nodes.items != [] && forall i :: 0 <= i < |nodes.items| ==> NodeWell(nodes.items[i])
    case _ => false
  }

  lemma EachIff<A, B>(xs: seq<A>, read: A -> Result<B, Problem>)
    ensures Each(xs, read).Ok? <==> forall i :: 0 <= i < |xs| ==> read(xs[i]).Ok?
  {
    EachReadsEach(xs, read);
  }

  lemma WellIffAccepted(value: Json)
    ensures NormalizeSegments(value).Ok? <==> AllWell(value)
  {
    if value.JArr? {
      EachIff(value.items, NormalizeSegment);
      forall i | 0 <= i < |value.items| ensures NormalizeSegment(value.items[i]).Ok? <==> IsWell(value.items[i]) {
        RefusedIffSuffers(value.items[i]);
      }
    }
  }

  lemma NodeWellIffAccepted(value: Json, str: Json -> string)
    ensures NormalizeNode(value, str).Ok? <==> NodeWell(value)
  {
    var data := NodeData(value);
    if Get(data, Nickname).JStr? { StripIsEmpty(Get(data, Nickname).text); }
    WellIffAccepted(ContentOf(data));
    if Get(data, Content).JStr? { TextWellIff(Get(data, Content).text); }
  }

  lemma TextWellIff(text: string)
    ensures AllWell(JArr([JObj(Segment("text", map[Text := JStr(text)]))])) <==> !Blank(text) && !HasBlankLine(text)
  {
    var segment := JObj(Segment("text", map[Text := JStr(text)]));
    var items := [segment];
    assert IsText("text") && TypeName("text") && !Media("text");
    assert Get(DataOf(segment), Text) == JStr(text);
    assert items[0] == segment;
    assert IsWell(segment) ==> !Suffers(segment, InvalidText) && !Suffers(segment, BlankLines);
  }

  /** A message is accepted exactly when it is text, or an object whose action, or else whose fields, give well-formed segments or nodes. */
  lemma AcceptedIff(value: Json, str: Json -> string)
    ensures Normalize(value, str).Ok? <==> Acceptable(value)
  {
    match value
    case JStr(text) => StripIsEmpty(text);
    case JObj(fields) =>
      if Sends(fields).Some? {
        WellIffAccepted(Sends(fields).value);
      } else if Forwards(fields).JArr? {
        var nodes := Forwards(fields).items;
        EachIff(nodes, NodeReader(str));
        forall i | 0 <= i < |nodes| ensures NodeReader(str)(nodes[i]).Ok? <==> NodeWell(nodes[i]) {
          NodeWellIffAccepted(nodes[i], str);
        }
      }
    case _ =>
  }

  lemma MessageTwice(value: Json, str: Json -> string)
    requires MessageWith(value).Ok?
    ensures Normalize(MessageWith(value).value, str) == MessageWith(value)
  {
    SegmentsTwice(value);
  }

  lemma ForwardTwice(value: Json, str: Json -> string)
    requires IsStr(str) && ForwardWith(value, str).Ok?
    ensures Normalize(ForwardWith(value, str).value, str) == ForwardWith(value, str)
  {
    var read := NodeReader(str);
    var nodes := Each(value.items, read).value;
    EachReadsEach(value.items, read);
    forall i | 0 <= i < |nodes| ensures read(nodes[i]) == Ok(nodes[i]) { NodeTwice(value.items[i], str); }
    EachFixed(nodes, read);
    ForwardIsForward(nodes, str);
  }

  lemma ForwardIsForward(nodes: seq<Json>, str: Json -> string)
    ensures Normalize(ForwardMessage(nodes), str) == ForwardWith(JArr(nodes), str)
  {
  }

  /** An accepted object normalises to itself the second time. */
  lemma ObjectTwice(value: Json, str: Json -> string)
    requires IsStr(str) && value.JObj? && Normalize(value, str).Ok?
    ensures Normalize(Normalize(value, str).value, str) == Normalize(value, str)
  {
    if IsMessage(value.fields) {
      MessageTwice(Get(value.fields, Segments), str);
    } else if IsForward(value.fields) {
      ForwardTwice(Get(value.fields, Nodes), str);
    } else if Segments in value.fields {
      MessageTwice(value.fields[Segments], str);
    } else {
      ForwardTwice(value.fields[Forward], str);
    }
  }

  /** An accepted string does so if and only if no blank line is left in it when stripped. */
  lemma StringTwice(text: string, str: Json -> string)
    requires Strip(text) != ""
    ensures var once := Normalize(JStr(text), str);
      once.Ok? && Normalize(once.value, str) == if HasBlankLine(Strip(text)) then Err(BlankLines) else once
  {
    var t := Strip(text);
    StripTwice(text);
    var segment := JObj(Segment("text", map[Text := JStr(t)]));
    TextIsNoMedia(t);
    EachOfOne(segment, NormalizeSegment);
    MessageIsMessage([segment], str);
  }

  lemma MessageIsMessage(segments: seq<Json>, str: Json -> string)
    ensures Normalize(Message(segments), str) == MessageWith(JArr(segments))
  {
  }

  lemma EachOfOne<A, B>(x: A, read: A -> Result<B, Problem>)
    ensures Each([x], read) == if read(x).Ok? then Ok([read(x).value]) else Err(read(x).error)
  {
    assert [x][..0] == [] && Each<A, B>([], read) == Ok([]);
    if read(x).Ok? { assert [] + [read(x).value] == [read(x).value]; }
  }

  lemma TextIsNoMedia(t: string)
    requires Strip(t) == t && t != ""
    ensures var segment := JObj(Segment("text", map[Text := JStr(t)]));
      NormalizeSegment(segment) == if HasBlankLine(t) then Err(BlankLines) else Ok(segment)
  {
    var data := map[Text := JStr(t)];
    assert TypeName("text") && IsText("text") && !Media("text");
    assert data[Text := JStr(t)] == data;
  }

  /** What is parsed and split reaches the queue as it is: each part normalises to itself. */
  lemma PartsStay(value: Json, message: Json, str: Json -> string)
    requires IsStr(str) && value.JObj? && Normalize(value, str) == Ok(message)
    ensures forall part :: part in Split(message) ==> Normalize(part, str) == Ok(part)
  {
    ObjectTwice(value, str);
    forall part | part in Split(message) ensures Normalize(part, str) == Ok(part) {
      var i :| 0 <= i < |Split(message)| && Split(message)[i] == part;
      if Split(message) != [message] { PartStays(message, i, str); }
    }
  }

  lemma PartStays(message: Json, i: nat, str: Json -> string)
    requires Normalize(message, str) == Ok(message) && i < |Split(message)| && Split(message) != [message]
    ensures Normalize(Split(message)[i], str) == Ok(Split(message)[i])
  {
    var segments := SegmentsOf(message);
    var part := Groups(Exclusive, segments)[i];
    SegmentsTwice(JArr(segments));
    GroupIsNormal(segments, i);
    EachFixed(part, NormalizeSegment);
    MessageIsMessage(part, str);
  }

  lemma GroupIsNormal(segments: seq<Json>, i: nat)
    requires i < |Groups(Exclusive, segments)| && forall j :: 0 <= j < |segments| ==> InNormalForm(segments[j])
    ensures var part := Groups(Exclusive, segments)[i]; part != [] && forall k :: 0 <= k < |part| ==> InNormalForm(part[k])
  {
    GroupsAreSendable(Exclusive, segments);
    var part := Groups(Exclusive, segments)[i];
    assert Fits(Exclusive, part);
    forall k | 0 <= k < |part| ensures InNormalForm(part[k]) {
      InOneGroup(Groups(Exclusive, segments), i, k);
      var j :| 0 <= j < |segments| && segments[j] == part[k];
    }
  }

  /**
   A part that is one text is queued as a plain string when it names an emotion.  Should the queue
   normalise that string, it gets the same text; the part itself only if nothing else was in its data.
   */
  lemma TextPartAsString(segment: Json, str: Json -> string)
    requires InNormalForm(segment) && IsTextSegment(segment)
    ensures var text := Get(DataOf(segment), Text);
      && text.JStr? && Normalize(text, str) == Ok(TextMessage(text.text))
      && (TextMessage(text.text) == Message([segment]) <==> DataOf(segment) == map[Text := text])
  {
    var data, kind := DataOf(segment), Get(segment.fields, Type).text;
    NormalTextIsStripped(kind, data);
    assert !Clip(kind);
    assert segment == JObj(Segment(kind, data));
    var text := Get(data, Text);
    if TextMessage(text.text) == Message([segment]) {
      var other := JObj(Segment("text", map[Text := text]));
      assert SegmentsOf(Message([other])) == [other] && SegmentsOf(Message([segment])) == [segment];
      assert [other][0] == [segment][0] && DataOf(other) == map[Text := text];
    }
  }

  lemma NormalTextIsStripped(kind: string, data: map<Key, Json>)
    requires IsText(kind) && NormalizeData(kind, data) == Ok(data)
    ensures Get(data, Text).JStr? && Strip(Get(data, Text).text) == Get(data, Text).text != ""
  {
    assert data[Text := JStr(Strip(Get(data, Text).text))][Text] == data[Text];
  }

  lemma {:induction false} InOneGroup<T>(groups: seq<seq<T>>, i: nat, k: nat)
    requires i < |groups| && k < |groups[i]|
    ensures groups[i][k] in Flatten(groups)
    decreases |groups|
  {
    if i < |groups| - 1 { InOneGroup(groups[..|groups| - 1], i, k); }
  }
}
