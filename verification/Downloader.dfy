/**
 Resumable, verified downloads: `ArtifactDownloader.DownloadAsync`.

 `AfterAttempt` is one attempt on values: what a server's response makes of the partial
 file, and how the attempt ends.  The theorems about it are stated for one response; the
 class runs up to three attempts, takes any server at all, and lifts them to whole calls.
 */
module Downloader {
  import opened Wrappers

  /** The signed size and hash of one file. */
  datatype Artifact = Artifact(size: nat, sha256: string)

  datatype ContentRange = ContentRange(unit: string, from: nat, to: nat, total: nat)

  datatype Ending = EndOfBody | Broken | Interrupted

  /** What comes back for one request; `chunks` are the reads that succeed before `ending`. */
  datatype Response =
    | NoResponse
    | Withdrawn
    | Refusal
    | Answer(status: int, range: Option<ContentRange>, length: Option<nat>, chunks: seq<Bytes>, ending: Ending)

  datatype Attempt = Verified(content: Bytes) | Retry(partial: Option<Bytes>) | Cancelled(partial: Option<Bytes>)

  type Sha = Bytes -> string

  predicate Matches(sha: Sha, a: Artifact, file: Option<Bytes>) {
    file.Some? && |file.value| == a.size && sha(file.value) == a.sha256
  }

  /** A partial file longer than the signed size is thrown away before it is resumed. */
  function Resumable(a: Artifact, partial: Option<Bytes>): Option<Bytes> {
    if partial.Some? && |partial.value| > a.size then None else partial
  }

  function Offset(partial: Option<Bytes>): nat {
    if partial.Some? then |partial.value| else 0
  }

  /** Where the body starts, or nothing when the headers contradict the signed size. */
  function BodyStart(a: Artifact, offset: nat, r: Response): (start: Option<nat>)
    requires r.Answer?
    ensures start.Some? ==> start.value == 0 || start.value == offset
  {
    var start :=
      if r.status == 206 then
        if r.range.Some? && r.range.value.unit == "bytes" && r.range.value.from == offset
           && r.range.value.total == a.size && r.range.value.to == a.size - 1
        then Some(offset) else None
      else if r.status == 200 then Some(0) else None;
    if start.Some? && r.length.Some? && r.length.value != a.size - start.value then None else start
  }

  /** The file after the reads, and whether one of them ran past the signed size. */
  function Append(file: Bytes, chunks: seq<Bytes>, size: nat): (Bytes, bool)
    decreases |chunks|
  {
    if chunks == [] || chunks[0] == [] then (file, false)
    else if |file| + |chunks[0]| > size then (file, true)
    else Append(file + chunks[0], chunks[1..], size)
  }

  function Verify(sha: Sha, a: Artifact, file: Option<Bytes>): Attempt {
    if file.None? || |file.value| < a.size then Retry(file)
    else if Matches(sha, a, file) then Verified(file.value)
    else Retry(None)
  }

  function AfterResponse(sha: Sha, a: Artifact, partial: Option<Bytes>, r: Response): Attempt {
    match r
    case NoResponse => Retry(partial)
    case Withdrawn => Cancelled(partial)
    case Refusal => Retry(partial)
    case Answer(_, _, _, chunks, ending) =>
      var start := BodyStart(a, Offset(partial), r);
      if start.None? then Retry(None)
      else
        var (file, past) := Append(if start.value > 0 then partial.value else [], chunks, a.size);
        if past then Retry(None)
        else match ending
          case Broken => Retry(Some(file))
          case Interrupted => Cancelled(Some(file))
          case EndOfBody => Verify(sha, a, Some(file))
  }

  function AfterAttempt(sha: Sha, a: Artifact, partial: Option<Bytes>, r: Response): Attempt {
    var p := Resumable(a, partial);
    if Offset(p) < a.size then AfterResponse(sha, a, p, r) else Verify(sha, a, p)
  }

  function Left(t: Attempt): Option<Bytes> {
    match t
    case Verified(content) => Some(content)
    case Retry(partial) => partial
    case Cancelled(partial) => partial
  }

  // ---- servers ----

  function Concat(chunks: seq<Bytes>): Bytes {
    if chunks == [] then [] else chunks[0] + Concat(chunks[1..])
  }

  /** A server of one fixed content: it may fail, drop at any byte, or ignore the range asked for. */
  predicate Serves(content: Bytes, offset: nat, r: Response) {
    r.Answer? ==>
      && (forall c :: c in r.chunks ==> c != [])
      && (r.status == 200 || r.status == 206)
      && (r.status == 200 ==>
            Concat(r.chunks) <= content && (r.length.Some? ==> r.length.value == |content|))
      && (r.status == 206 ==>
            && offset < |content|
            && r.range == Some(ContentRange("bytes", offset, |content| - 1, |content|))
            && Concat(r.chunks) <= content[offset..]
            && (r.length.Some? ==> r.length.value == |content| - offset))
  }

  predicate HonoursRange(offset: nat, r: Response) {
    r.Answer? && offset > 0 ==> r.status == 206
  }

  /** The whole body arrives. */
  predicate Completes(content: Bytes, offset: nat, r: Response) {
    && r.Answer? && Serves(content, offset, r) && r.ending == EndOfBody
    && |Concat(r.chunks)| == if r.status == 206 then |content| - offset else |content|
  }

  // ---- one attempt ----

  predicate IsStartOf(partial: Option<Bytes>, content: Bytes) {
    partial.Some? ==> partial.value <= content
  }

  lemma {:induction false} AppendWithin(file: Bytes, chunks: seq<Bytes>, size: nat)
    requires forall c :: c in chunks ==> c != []
    requires |file| + |Concat(chunks)| <= size
    ensures Append(file, chunks, size) == (file + Concat(chunks), false)
    decreases |chunks|
  {
    if chunks == [] {
      assert file + [] == file;
    } else {
      assert chunks[0] in chunks && forall c :: c in chunks[1..] ==> c in chunks;
      AppendWithin(file + chunks[0], chunks[1..], size);
      assert (file + chunks[0]) + Concat(chunks[1..]) == file + Concat(chunks);
    }
  }

  lemma {:induction false} AppendGrows(file: Bytes, chunks: seq<Bytes>, size: nat)
    requires |file| <= size
    ensures file <= Append(file, chunks, size).0 && |Append(file, chunks, size).0| <= size
    decreases |chunks|
  {
    if chunks != [] && chunks[0] != [] && |file| + |chunks[0]| <= size {
      AppendGrows(file + chunks[0], chunks[1..], size);
    }
  }

  lemma {:induction false} AppendTakes(file: Bytes, chunks: seq<Bytes>, size: nat)
    ensures file <= Append(file, chunks, size).0 <= file + Concat(chunks)
    decreases |chunks|
  {
    if chunks != [] && chunks[0] != [] && |file| + |chunks[0]| <= size {
      AppendTakes(file + chunks[0], chunks[1..], size);
      assert (file + chunks[0]) + Concat(chunks[1..]) == file + Concat(chunks);
    }
  }

  /** The headers promise the rest of a file of the signed size, from the offset asked for or from its start. */
  predicate Promises(a: Artifact, offset: nat, r: Response)
    requires r.Answer? && offset < a.size
  {
    && (r.status == 200 || (r.status == 206 && r.range == Some(ContentRange("bytes", offset, a.size - 1, a.size))))
    && (r.length.Some? ==> r.length.value == if r.status == 206 then a.size - offset else a.size)
  }

  /**
   Whatever the server, an answer that breaks the promise of its headers, or makes none, leaves nothing; any
   other leaves what it was asked to continue with the start of its body, or its body's start alone.
   */
  lemma OnlyPromisedIsKept(sha: Sha, a: Artifact, partial: Option<Bytes>, r: Response)
    requires r.Answer? && Offset(Resumable(a, partial)) < a.size
    ensures var p, left := Resumable(a, partial), Left(AfterAttempt(sha, a, partial, r));
      left.Some? ==>
        && Promises(a, Offset(p), r)
        && var base := if r.status == 206 && p.Some? then p.value else [];
           base <= left.value <= base + Concat(r.chunks)
  {
    var p := Resumable(a, partial);
    var start := BodyStart(a, Offset(p), r);
    if start.Some? { AppendTakes(if start.value > 0 then p.value else [], r.chunks, a.size); }
  }

  /** What a server of fixed content leaves behind, exactly. */
  lemma ServedFile(sha: Sha, a: Artifact, content: Bytes, p: Option<Bytes>, r: Response)
    requires |content| == a.size && IsStartOf(p, content) && Offset(p) < a.size
    requires r.Answer? && Serves(content, Offset(p), r)
    ensures var base := if r.status == 206 && Offset(p) > 0 then p.value else [];
      var file := base + Concat(r.chunks);
      && file <= content
      && AfterResponse(sha, a, p, r) ==
           match r.ending
           case Broken => Retry(Some(file))
           case Interrupted => Cancelled(Some(file))
           case EndOfBody => Verify(sha, a, Some(file))
  {
    var base := if r.status == 206 && Offset(p) > 0 then p.value else [];
    var file := base + Concat(r.chunks);
    if r.status == 206 {
      assert content == content[..Offset(p)] + content[Offset(p)..];
    }
    AppendWithin(base, r.chunks, a.size);
  }

  /** The partial file stays a prefix of the content, never longer than the signed size; it shrinks only when a range is ignored. */
  lemma AttemptKeepsPrefix(sha: Sha, a: Artifact, content: Bytes, partial: Option<Bytes>, r: Response)
    requires a.size > 0 && Matches(sha, a, Some(content)) && IsStartOf(partial, content)
    requires Serves(content, Offset(partial), r)
    ensures IsStartOf(Left(AfterAttempt(sha, a, partial, r)), content)
    ensures HonoursRange(Offset(partial), r) ==> Offset(Left(AfterAttempt(sha, a, partial, r))) >= Offset(partial)
  {
    if Offset(partial) < a.size {
      if r.Answer? {
        ServedFile(sha, a, content, partial, r);
        var base := if r.status == 206 && Offset(partial) > 0 then partial.value else [];
        var file := base + Concat(r.chunks);
        assert |file| == a.size ==> file == content;
      }
    } else {
      assert partial.value == content;
    }
  }

  /** The partial file after a series of attempts, in one call or in many, however each ended. */
  function Resume(sha: Sha, a: Artifact, partial: Option<Bytes>, rs: seq<Response>): Option<Bytes>
    decreases |rs|
  {
    if rs == [] then partial
    else
      var t := AfterAttempt(sha, a, partial, rs[0]);
      Resume(sha, a, if t.Verified? then None else Left(t), rs[1..])
  }

  /** Each response is the fixed content's, given what the partial file asks for by then. */
  predicate AllServe(sha: Sha, a: Artifact, content: Bytes, partial: Option<Bytes>, rs: seq<Response>)
    decreases |rs|
  {
    rs == [] ||
    (var t := AfterAttempt(sha, a, partial, rs[0]);
     Serves(content, Offset(partial), rs[0]) &&
     AllServe(sha, a, content, if t.Verified? then None else Left(t), rs[1..]))
  }

  lemma {:induction false} EveryRunKeepsPrefix(sha: Sha, a: Artifact, content: Bytes, partial: Option<Bytes>, rs: seq<Response>)
    requires a.size > 0 && Matches(sha, a, Some(content)) && IsStartOf(partial, content)
    requires AllServe(sha, a, content, partial, rs)
    ensures IsStartOf(Resume(sha, a, partial, rs), content)
    ensures Offset(Resume(sha, a, partial, rs)) <= a.size
    decreases |rs|
  {
    if rs != [] {
      AttemptKeepsPrefix(sha, a, content, partial, rs[0]);
      var t := AfterAttempt(sha, a, partial, rs[0]);
      EveryRunKeepsPrefix(sha, a, content, if t.Verified? then None else Left(t), rs[1..]);
    }
  }

  /** Whatever the server and the partial file, only verified content is accepted. */
  lemma AcceptedIsVerified(sha: Sha, a: Artifact, partial: Option<Bytes>, r: Response)
    ensures var t := AfterAttempt(sha, a, partial, r); t.Verified? ==> |t.content| == a.size && sha(t.content) == a.sha256
    ensures Offset(Left(AfterAttempt(sha, a, partial, r))) <= a.size
  {
    var p := Resumable(a, partial);
    if Offset(p) < a.size && r.Answer? {
      var start := BodyStart(a, Offset(p), r);
      if start.Some? { AppendGrows(if start.value > 0 then p.value else [], r.chunks, a.size); }
    }
  }

  /** Two complete answers repair anything: a bad partial file costs one attempt and no more. */
  lemma TwoAttemptsHeal(sha: Sha, a: Artifact, content: Bytes, partial: Option<Bytes>, r1: Response, r2: Response)
    requires a.size > 0 && Matches(sha, a, Some(content))
    requires Completes(content, Offset(Resumable(a, partial)), r1) || Offset(Resumable(a, partial)) == a.size
    requires Completes(content, 0, r2)
    ensures var first := AfterAttempt(sha, a, partial, r1);
      || first.Verified?
      || (first == Retry(None) && AfterAttempt(sha, a, None, r2) == Verified(content))
  {
    var p := Resumable(a, partial);
    ServedFile(sha, a, content, None, r2);
    assert Concat(r2.chunks) == content;
    assert [] + Concat(r2.chunks) == content;
    if Offset(p) < a.size {
      CompleteAnswer(sha, a, content, p, r1);
    }
  }

  /** A complete answer ends an attempt: the file is now full-sized, so it is accepted or deleted. */
  lemma CompleteAnswer(sha: Sha, a: Artifact, content: Bytes, p: Option<Bytes>, r: Response)
    requires |content| == a.size && Offset(p) < a.size && Completes(content, Offset(p), r)
    ensures var t := AfterResponse(sha, a, p, r); t.Verified? || t == Retry(None)
  {
    var base := if r.status == 206 && Offset(p) > 0 then p.value else [];
    AppendWithin(base, r.chunks, a.size);
  }

  // ---- the code ----

  /** A candidate found in a local directory: its content when checked, and what copying it yields. */
  datatype Local = Local(checked: Option<Bytes>, copied: Copying)

  datatype Copying = Copied(content: Bytes) | CopyFailed(left: Option<Bytes>)

  datatype Outcome = Path | Failed | Stopped | Threw

  /** Every answer is the fixed content's. */
  ghost predicate Fixed(server: (nat, nat) -> Response, content: Bytes) {
    forall n: nat, offset: nat :: Serves(content, offset, server(n, offset))
  }

  ghost predicate Ranged(server: (nat, nat) -> Response) {
    forall n: nat, offset: nat :: HonoursRange(offset, server(n, offset))
  }

  /** Every answer arrives whole. */
  ghost predicate Reliable(server: (nat, nat) -> Response, content: Bytes) {
    forall n: nat, offset: nat :: offset < |content| ==> Completes(content, offset, server(n, offset))
  }

  /** The caller's own cancellation ends the attempt. */
  predicate Interrupts(r: Response) {
    r.Withdrawn? || (r.Answer? && r.ending == Interrupted)
  }

  /** Every candidate exists and is copied as it was checked. */
  ghost predicate Unchanging(locals: seq<Local>) {
    forall l :: l in locals ==> l.checked.Some? && l.copied == Copied(l.checked.value)
  }

  class ArtifactDownloader {
    const sha: Sha
    const artifact: Artifact
    /** The response to the nth request, given the offset it asks for. */
    const server: (nat, nat) -> Response
    const cancelled: nat -> bool
    const moves: nat -> bool
    var cached: Option<Bytes>
    var partial: Option<Bytes>
    var requests: nat
    var clock: nat

    constructor (sha: Sha, artifact: Artifact, server: (nat, nat) -> Response, cancelled: nat -> bool,
                 moves: nat -> bool, cached: Option<Bytes>, partial: Option<Bytes>)
      ensures this.sha == sha && this.artifact == artifact && this.server == server
      ensures this.cancelled == cancelled && this.moves == moves
      ensures this.cached == cached && this.partial == partial && requests == 0 && clock == 0
    {
      this.sha, this.artifact, this.server, this.cancelled, this.moves := sha, artifact, server, cancelled, moves;
      this.cached, this.partial, this.requests, this.clock := cached, partial, 0, 0;
    }

    /** The reading loop; false when a read runs past the signed size. */
    method Receive(chunks: seq<Bytes>) returns (past: bool)
      requires partial.Some?
      modifies this`partial
      ensures partial.Some? && (partial.value, past) == Append(old(partial).value, chunks, artifact.size)
    {
      var i := 0;
      past := false;
      while i < |chunks|
        invariant 0 <= i <= |chunks| && partial.Some?
        invariant Append(partial.value, chunks[i..], artifact.size) == Append(old(partial).value, chunks, artifact.size)
      {
        if chunks[i] == [] { return; }
        if |partial.value| + |chunks[i]| > artifact.size { return true; }
        partial := Some(partial.value + chunks[i]);
        i := i + 1;
      }
    }

    /** The body of the attempt loop up to the verified rename, with the handler's deletion of bad data. */
    method RunAttempt() returns (t: Attempt)
      modifies this`partial, this`requests
      ensures t == AfterAttempt(sha, artifact, old(partial), server(old(requests), Offset(Resumable(artifact, old(partial)))))
      ensures partial == Left(t)
      ensures requests == old(requests) + (if Offset(Resumable(artifact, old(partial))) < artifact.size then 1 else 0)
    {
      if partial.Some? && |partial.value| > artifact.size { partial := None; }
      var offset := if partial.Some? then |partial.value| else 0;
      if offset < artifact.size {
        var r := server(requests, offset);
        requests := requests + 1;
        match r {
          case NoResponse => return Retry(partial);
          case Withdrawn => return Cancelled(partial);
          case Refusal => return Retry(partial);
          case Answer(_, _, _, chunks, ending) =>
            var start := BodyStart(artifact, offset, r);
            if start.None? { partial := None; return Retry(None); }
            if start.value == 0 { partial := Some([]); }
            var past := Receive(chunks);
            if past { partial := None; return Retry(None); }
            if ending == Broken { return Retry(partial); }
            if ending == Interrupted { return Cancelled(partial); }
        }
      }
      if partial.None? || |partial.value| < artifact.size { return Retry(partial); }
      if Matches(sha, artifact, partial) { return Verified(partial.value); }
      partial := None;
      t := Retry(None);
    }

    /** A candidate that was checked and cannot be copied. */
    predicate Fails(l: Local) {
      Matches(sha, artifact, l.checked) && l.copied.CopyFailed?
    }

    /** The verified cache or a verified copy of a local file; otherwise the cache is left empty. */
    method TakeLocal(locals: seq<Local>) returns (r: Option<Outcome>)
      modifies this`cached
      ensures r.Some? ==> r.value == Path || r.value == Threw
      ensures r == Some(Path) ==> Matches(sha, artifact, cached)
      ensures r.None? ==> cached.None?
      ensures r == Some(Threw) ==> exists l :: l in locals && Fails(l)
      ensures Matches(sha, artifact, old(cached)) ==> r == Some(Path) && cached == old(cached)
      ensures (forall l :: l in locals ==> !Matches(sha, artifact, l.checked)) && !Matches(sha, artifact, old(cached)) ==> r.None?
      ensures Unchanging(locals) ==>
                (r == Some(Path) <==> Matches(sha, artifact, old(cached)) || exists l :: l in locals && Matches(sha, artifact, l.checked))
    {
      if Matches(sha, artifact, cached) { return Some(Path); }
      for i := 0 to |locals|
        invariant !Matches(sha, artifact, old(cached))
        invariant (forall l :: l in locals ==> !Matches(sha, artifact, l.checked)) ==> cached == old(cached)
        invariant Unchanging(locals) ==>
                    forall l :: l in locals[..i] ==> !Matches(sha, artifact, l.checked)
      {
        assert locals[..i + 1] == locals[..i] + [locals[i]];
        if !Matches(sha, artifact, locals[i].checked) { continue; }
        match locals[i].copied {
          case CopyFailed(left) => cached := left; return Some(Threw);
          case Copied(content) => cached := Some(content);
        }
        if !Matches(sha, artifact, cached) { cached := None; continue; }
        return Some(Path);
      }
      assert locals[..|locals|] == locals;
      cached := None;
      r := None;
    }

    /** The token has been cancelled by now. */
    method Withdrawing() returns (yes: bool)
      modifies this`clock
      ensures yes == cancelled(old(clock)) && clock == old(clock) + 1
    {
      yes := cancelled(clock);
      clock := clock + 1;
    }

    /** The rename of the verified partial file into the cache. */
    method MoveIntoCache() returns (ok: bool)
      requires partial.Some?
      modifies this`cached, this`partial, this`clock
      ensures ok == moves(old(clock)) && clock == old(clock) + 1
      ensures ok ==> cached == old(partial) && partial.None?
      ensures !ok ==> cached == old(cached) && partial == old(partial)
    {
      ok := moves(clock);
      clock := clock + 1;
      if ok { cached, partial := partial, None; }
    }

    /** The server holds `content`, which is what was signed. */
    ghost predicate Signed(content: Bytes) {
      Matches(sha, artifact, Some(content)) && Fixed(server, content)
    }

    /** Nothing drops, fails or is cancelled. */
    ghost predicate Undisturbed(content: Bytes) {
      Matches(sha, artifact, Some(content)) && Reliable(server, content) && forall n :: !cancelled(n) && moves(n)
    }

    /** Nothing is cancelled, and every rename works. */
    ghost predicate Persistent() {
      && (forall n :: !cancelled(n) && moves(n))
      && forall n: nat, offset: nat :: !Interrupts(server(n, offset))
    }

    /** The answer to this request arrives whole, whatever range it asks for. */
    ghost predicate CompletesAt(content: Bytes, n: nat) {
      forall offset: nat :: offset < |content| ==> Completes(content, offset, server(n, offset))
    }

    /** After a cancellation no request follows, and it is not reported as a failure. */
    ghost predicate Heeded(r: Outcome, since: nat, first: nat)
      reads this`requests
    {
      && (cancelled(since) ==> r != Failed && requests == first)
      && (!Late(since) ==> r != Failed && requests <= first + 1)
    }

    /** This answer is interrupted. */
    ghost predicate InterruptedAt(n: nat) {
      exists offset: nat :: Interrupts(server(n, offset))
    }

    /** At some later moment it was not cancelled yet. */
    ghost predicate Late(since: nat) {
      exists n :: n > since && !cancelled(n)
    }

    /** None of so many answers from this one on does. */
    ghost predicate NoneComplete(content: Bytes, first: nat, count: nat) {
      forall n: nat :: first <= n < first + count ==> !CompletesAt(content, n)
    }

    /** The partial file can be resumed: it starts what the server serves, and that is what was signed. */
    ghost predicate Resumes(content: Bytes, file: Option<Bytes>) {
      Signed(content) && IsStartOf(file, content)
    }

    method DownloadAsync(locals: seq<Local>, ghost content: Bytes) returns (r: Outcome)
      requires artifact.size > 0
      modifies this
      // Against any server, a returned path holds verified content.
      ensures r == Path ==> cached.Some? && |cached.value| == artifact.size && sha(cached.value) == artifact.sha256
      // Verified content is not downloaded again.
      ensures Matches(sha, artifact, old(cached)) ==> r == Path && requests == old(requests) && cached == old(cached)
      ensures Unchanging(locals) && (exists l :: l in locals && Matches(sha, artifact, l.checked)) ==>
                r == Path && requests == old(requests)
      // Three requests at most.
      ensures requests <= old(requests) + 3
      // The partial file stays a prefix of the content and within the signed size.
      ensures Resumes(content, old(partial)) ==> IsStartOf(partial, content)
      // While ranges are honoured nothing received is lost.
      ensures Resumes(content, old(partial)) && Ranged(server) && r != Path ==> Offset(partial) >= Offset(old(partial))
      // It gives up only after three requests, and one complete answer among them is enough.
      ensures Resumes(content, old(partial)) && (forall n :: moves(n)) && r == Failed ==> requests == old(requests) + 3
      ensures Resumes(content, old(partial)) && Persistent() && r != Path && r != Threw ==>
                NoneComplete(content, old(requests), 3)
      // It stops early only for a cancellation, and throws only for a candidate that cannot be copied.
      ensures r == Stopped ==> (exists n :: cancelled(n)) || exists n: nat :: InterruptedAt(n)
      ensures r == Stopped && requests == old(requests) + 3 ==> InterruptedAt(old(requests) + 2)
      // Once cancelled it asks for nothing more.
      ensures Heeded(r, old(clock), old(requests))
      ensures r == Threw ==> exists l :: l in locals && Fails(l)
      // Two attempts are enough for an undisturbed download, whatever lay in the cache and the partial file.
      ensures Undisturbed(content) && (forall l :: l in locals ==> l.copied.Copied?) ==>
                r == Path && requests <= old(requests) + 2
    {
      var local := TakeLocal(locals);
      if local.Some? { return local.value; }
      r := Fetch(content);
    }

    /** The attempt loop. */
    method Fetch(ghost content: Bytes) returns (r: Outcome)
      requires artifact.size > 0
      modifies this`partial, this`requests, this`cached, this`clock
      ensures r == Path || r == Failed || r == Stopped
      ensures r == Path ==> Matches(sha, artifact, cached)
      ensures requests <= old(requests) + 3
      ensures Resumes(content, old(partial)) ==> IsStartOf(partial, content)
      ensures Resumes(content, old(partial)) && Ranged(server) && r != Path ==> Offset(partial) >= Offset(old(partial))
      ensures Resumes(content, old(partial)) && (forall n :: moves(n)) && r == Failed ==> requests == old(requests) + 3
      ensures Resumes(content, old(partial)) && Persistent() && r != Path ==> NoneComplete(content, old(requests), 3)
      ensures r == Stopped ==> (exists n :: cancelled(n)) || exists n: nat :: InterruptedAt(n)
      ensures r == Stopped && requests == old(requests) + 3 ==> InterruptedAt(old(requests) + 2)
      // Once cancelled it asks for nothing more.
      ensures Heeded(r, old(clock), old(requests))
      ensures Undisturbed(content) ==> r == Path && requests <= old(requests) + 2
    {
      for attempt := 0 to 3
        invariant old(requests) <= requests <= old(requests) + attempt
        invariant Resumes(content, old(partial)) && Ranged(server) ==> Offset(partial) >= Offset(old(partial))
        invariant if attempt == 0 then clock == old(clock) else !cancelled(old(clock)) && Late(old(clock))
        invariant Resumes(content, old(partial)) ==> Resumes(content, partial)
        invariant Resumes(content, old(partial)) && (forall n :: moves(n)) ==> requests == old(requests) + attempt
        invariant Resumes(content, old(partial)) && Persistent() ==> NoneComplete(content, old(requests), attempt)
        invariant Undisturbed(content) ==> attempt == 0 || (attempt == 1 && partial.None?)
      {
        var end := Turn(content, attempt);
        if end.Some? { return end.value; }
      }
      r := Failed;
    }

    /** One turn of the attempt loop; nothing when another attempt may follow, or none is left. */
    method Turn(ghost content: Bytes, attempt: nat) returns (r: Option<Outcome>)
      requires artifact.size > 0 && attempt < 3
      modifies this`partial, this`requests, this`cached, this`clock
      ensures r.Some? ==> r.value == Path || r.value == Stopped
      ensures r == Some(Path) ==> Matches(sha, artifact, cached)
      ensures old(requests) <= requests <= old(requests) + 1
      ensures Resumes(content, old(partial)) ==> IsStartOf(partial, content)
      ensures Resumes(content, old(partial)) && Ranged(server) && r != Some(Path) ==> Offset(partial) >= Offset(old(partial))
      ensures cancelled(old(clock)) ==> r == Some(Stopped) && requests == old(requests)
      ensures r.None? && attempt < 2 ==> Late(old(clock))
      ensures r == Some(Stopped) ==> (exists n :: cancelled(n)) || InterruptedAt(old(requests))
      ensures r == Some(Stopped) && attempt >= 2 && requests > old(requests) ==> InterruptedAt(old(requests))
      ensures Resumes(content, old(partial)) && (forall n :: moves(n)) && r.None? ==> requests == old(requests) + 1
      ensures Resumes(content, old(partial)) && Persistent() && CompletesAt(content, old(requests)) ==> r == Some(Path)
      ensures Undisturbed(content) ==> r == Some(Path) || (r.None? && partial.None?)
      ensures Undisturbed(content) && old(partial).None? ==> r == Some(Path)
    {
      var stop := Withdrawing();
      if stop { return Some(Stopped); }
      r := TryOnce(content);
      if r.Some? || attempt == 2 { return; }
      stop := Withdrawing();
      if stop { r := Some(Stopped); }
    }

    /** One attempt; nothing when it failed. */
    method TryOnce(ghost content: Bytes) returns (r: Option<Outcome>)
      requires artifact.size > 0
      modifies this`partial, this`requests, this`cached, this`clock
      ensures r.Some? ==> r.value == Path || r.value == Stopped
      ensures r == Some(Path) ==> Matches(sha, artifact, cached)
      ensures old(requests) <= requests <= old(requests) + 1
      ensures Resumes(content, old(partial)) ==> IsStartOf(partial, content)
      ensures Signed(content) && IsStartOf(old(partial), content) && Ranged(server) && r != Some(Path) ==>
                Offset(partial) >= Offset(old(partial))
      // It ends in a cancellation exactly if the answer was interrupted.
      ensures clock >= old(clock)
      ensures r == Some(Stopped) <==>
                AfterAttempt(sha, artifact, old(partial), server(old(requests), Offset(Resumable(artifact, old(partial))))).Cancelled?
      ensures r == Some(Stopped) ==> requests == old(requests) + 1 && InterruptedAt(old(requests))
      ensures Resumes(content, old(partial)) && (forall n :: moves(n)) && r.None? ==> requests == old(requests) + 1
      ensures Resumes(content, old(partial)) && Persistent() && CompletesAt(content, old(requests)) ==> r == Some(Path)
      ensures Undisturbed(content) ==> r == Some(Path) || (r.None? && partial.None?)
      ensures Undisturbed(content) && old(partial).None? ==> r == Some(Path)
    {
      ghost var before, response := partial, server(requests, Offset(Resumable(artifact, partial)));
      var t := RunAttempt();
      AcceptedIsVerified(sha, artifact, before, response);
      if Signed(content) && IsStartOf(before, content) {
        AttemptKeepsPrefix(sha, artifact, content, before, response);
      }
      if Resumes(content, before) && (Offset(before) < |content| ==> Completes(content, Offset(before), response)) { Completing(content, before, response); }
      if Undisturbed(content) { Healing(content, before, response, before.Some?); }
      if t.Cancelled? { return Some(Stopped); }
      if t.Verified? {
        var moved := MoveIntoCache();
        if moved { return Some(Path); }
      }
      r := None;
    }

    /** A complete answer completes what the partial file starts. */
    lemma Completing(content: Bytes, before: Option<Bytes>, response: Response)
      requires artifact.size > 0 && Resumes(content, before)
      requires Offset(before) < |content| ==> Completes(content, Offset(before), response)
      ensures AfterAttempt(sha, artifact, before, response) == Verified(content)
    {
      assert Resumable(artifact, before) == before;
      if Offset(before) < artifact.size {
        ServedFile(sha, artifact, content, before, response);
        var base := if response.status == 206 && Offset(before) > 0 then before.value else [];
        var file := base + Concat(response.chunks);
        assert |file| == |content| && file <= content;
        assert file == content;
      } else {
        assert before.value == content;
      }
    }

    /** An undisturbed first attempt is accepted or clears the partial file; the second is accepted. */
    lemma Healing(content: Bytes, before: Option<Bytes>, response: Response, first: bool)
      requires artifact.size > 0 && Undisturbed(content) && (first || before.None?)
      requires exists n :: response == server(n, Offset(Resumable(artifact, before)))
      ensures var t := AfterAttempt(sha, artifact, before, response);
        t.Verified? || (first && t == Retry(None))
    {
      var n :| response == server(n, Offset(Resumable(artifact, before)));
      var second := server(n, 0);
      assert Completes(content, 0, second);
      TwoAttemptsHeal(sha, artifact, content, before, response, second);
    }
  }
}
