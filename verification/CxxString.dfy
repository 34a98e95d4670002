/**
 The 24-byte libc++ string record: `cxx_string.h`, and its two readers in `session_hook.c`.

 Short strings keep their size, shifted left, in the first byte and their bytes after it;
 long ones set the low bit of the first byte and keep size and pointer, little-endian, at
 offsets 8 and 16.  The first theorem is the round trip across the switch between the two
 layouts; the second says exactly where the two readers agree.
 */
module CxxStrings {
  import opened Wrappers

  const RECORD := 24
  const SHORT_MAX := 22
  const VIEW_MAX := 4096
  const COPY_MAX := 1024 * 1024
  const LOWEST_POINTER := 0x1000
  const TWO_64: nat := 0x1_0000_0000_0000_0000

  /** Readable memory: what a byte-wise copy from another address space can see. */
  type Memory = nat -> Option<byte>

  // ---- little-endian words ----

  function Pow256(k: nat): nat {
    if k == 0 then 1 else 256 * Pow256(k - 1)
  }

  function Encode(x: nat, k: nat): (bs: Bytes)
    ensures |bs| == k
  {
    if k == 0 then [] else [x % 256] + Encode(x / 256, k - 1)
  }

  function Decode(bs: Bytes): nat {
    if bs == [] then 0 else bs[0] + 256 * Decode(bs[1..])
  }

  lemma {:induction false} DecodeEncode(x: nat, k: nat)
    requires x < Pow256(k)
    ensures Decode(Encode(x, k)) == x
  {
    if k > 0 {
      DecodeEncode(x / 256, k - 1);
      assert Encode(x, k)[1..] == Encode(x / 256, k - 1);
    }
  }

  lemma WordRoundTrip(x: nat)
    requires x < TWO_64
    ensures Decode(Encode(x, 8)) == x
  {
    assert Pow256(8) == TWO_64 by {
      assert Pow256(2) == 0x1_0000 && Pow256(4) == 0x1_0000_0000 && Pow256(6) == 0x1_0000_0000_0000;
    }
    DecodeEncode(x, 8);
  }

  // ---- records on values ----

  datatype View = Invalid | Short(bytes: Bytes) | Long(pointer: nat, length: nat)

  predicate IsShort(raw: Bytes)
    requires |raw| == RECORD
  {
    raw[0] % 2 == 0
  }

  function ViewOf(raw: Bytes): View
    requires |raw| == RECORD
  {
    if IsShort(raw) then
      var n := raw[0] / 2;
      if n > SHORT_MAX then Invalid else Short(raw[1..1 + n])
    else
      var n, p := Decode(raw[8..16]), Decode(raw[16..24]);
      if n == 0 || n > VIEW_MAX || p < LOWEST_POINTER then Invalid else Long(p, n)
  }

  /** The record of a string of these bytes stored at `pointer`. */
  function RecordOf(pointer: nat, bytes: Bytes): (raw: Bytes)
    ensures |raw| == RECORD
  {
    if |bytes| <= SHORT_MAX
    then [2 * |bytes|] + bytes + seq(RECORD - 1 - |bytes|, _ => 0)
    else Encode((2 * |bytes| + 1) % TWO_64, 8) + Encode(|bytes| % TWO_64, 8) + Encode(pointer % TWO_64, 8)
  }

  /** Reading a record gives back the string it was made from, exactly where the reader accepts it. */
  lemma RecordRoundTrip(pointer: nat, bytes: Bytes)
    requires pointer < TWO_64 && |bytes| < TWO_64
    ensures ViewOf(RecordOf(pointer, bytes)) ==
            if |bytes| <= SHORT_MAX then Short(bytes)
            else if |bytes| <= VIEW_MAX && pointer >= LOWEST_POINTER then Long(pointer, |bytes|)
            else Invalid
  {
    var raw := RecordOf(pointer, bytes);
    if |bytes| <= SHORT_MAX {
      assert raw[0] == 2 * |bytes| && raw[1..1 + |bytes|] == bytes;
    } else {
      FirstWordIsOdd(|bytes|);
      WordSurvives(|bytes|);
      WordSurvives(pointer);
      ThreeWords(Encode((2 * |bytes| + 1) % TWO_64, 8), Encode(|bytes| % TWO_64, 8), Encode(pointer % TWO_64, 8), raw);
    }
  }

  lemma ThreeWords(a: Bytes, b: Bytes, c: Bytes, raw: Bytes)
    requires |a| == |b| == |c| == 8 && raw == a + b + c
    ensures raw[0] == a[0] && raw[8..16] == b && raw[16..24] == c
  {
  }

  lemma WordSurvives(x: nat)
    requires x < TWO_64
    ensures Decode(Encode(x % TWO_64, 8)) == x
  {
    assert x % TWO_64 == x;
    WordRoundTrip(x);
  }

  lemma FirstWordIsOdd(n: nat)
    ensures Encode((2 * n + 1) % TWO_64, 8)[0] % 2 == 1
  {
    LowByte((2 * n + 1) % TWO_64, 8);
    OddLowByte(n);
  }

  lemma LowByte(x: nat, k: nat)
    requires k > 0
    ensures Encode(x, k)[0] == x % 256
  {
  }

  lemma OddLowByte(n: nat)
    ensures ((2 * n + 1) % TWO_64) % 256 % 2 == 1
  {
    var x := 2 * n + 1;
    assert x == TWO_64 * (x / TWO_64) + x % TWO_64;
    var y := x % TWO_64;
    assert y == 256 * (y / 256) + y % 256;
  }

  /** n bytes at `pointer`, if all can be read. */
  function Fetch(memory: Memory, pointer: nat, n: nat): Option<Bytes>
    decreases n
  {
    if n == 0 then Some([])
    else if memory(pointer).None? || Fetch(memory, pointer + 1, n - 1).None? then None
    else Some([memory(pointer).value] + Fetch(memory, pointer + 1, n - 1).value)
  }

  /** What `read_remote_string` yields for a buffer of `cap` bytes. */
  function ReadOf(raw: Bytes, memory: Memory, cap: nat): Option<Bytes>
    requires |raw| == RECORD
  {
    match ViewOf(raw)
    case Invalid => None
    case Short(bytes) => if |bytes| + 1 > cap then None else Some(bytes)
    case Long(p, n) => if n + 1 > cap then None else Fetch(memory, p, n)
  }

  /** What `copy_cxx_string` yields when memory can be allocated. */
  function CopyOf(raw: Bytes, memory: Memory): Option<Bytes>
    requires |raw| == RECORD
  {
    if IsShort(raw) then
      var n := raw[0] / 2;
      if n > SHORT_MAX then None else Some(raw[1..1 + n])
    else
      var n, p := Decode(raw[8..16]), Decode(raw[16..24]);
      if n > COPY_MAX || p < LOWEST_POINTER then None else Fetch(memory, p, n)
  }

  lemma {:induction false} FetchLength(memory: Memory, pointer: nat, n: nat)
    ensures Fetch(memory, pointer, n).Some? ==> |Fetch(memory, pointer, n).value| == n
    decreases n
  {
    if n > 0 { FetchLength(memory, pointer + 1, n - 1); }
  }

  /** The reader is the copier, restricted to what fits the buffer and, for long records, to 1 to 4096 bytes. */
  lemma ReadersAgree(raw: Bytes, memory: Memory, cap: nat)
    requires |raw| == RECORD
    ensures ReadOf(raw, memory, cap) ==
      var copied := CopyOf(raw, memory);
      if copied.Some? && |copied.value| + 1 <= cap && (IsShort(raw) || 1 <= |copied.value| <= VIEW_MAX)
      then copied else None
  {
    if !IsShort(raw) {
      FetchLength(memory, Decode(raw[16..24]), Decode(raw[8..16]));
    }
  }

  /** The bytes lie in memory from `pointer` on. */
  predicate Stored(memory: Memory, pointer: nat, bytes: Bytes) {
    forall i :: 0 <= i < |bytes| ==> memory(pointer + i) == Some(bytes[i])
  }

  lemma {:induction false} FetchStored(memory: Memory, pointer: nat, bytes: Bytes)
    requires Stored(memory, pointer, bytes)
    ensures Fetch(memory, pointer, |bytes|) == Some(bytes)
    decreases |bytes|
  {
    if bytes != [] {
      assert memory(pointer + 0) == Some(bytes[0]);
      forall i | 0 <= i < |bytes[1..]| ensures memory(pointer + 1 + i) == Some(bytes[1..][i]) {
        assert memory(pointer + (i + 1)) == Some(bytes[i + 1]);
      }
      FetchStored(memory, pointer + 1, bytes[1..]);
      assert [bytes[0]] + bytes[1..] == bytes;
    }
  }

  /** From bytes in memory to a record and back: the same bytes, for every length the reader admits. */
  lemma StringSurvives(memory: Memory, pointer: nat, bytes: Bytes, cap: nat)
    requires pointer < TWO_64 && |bytes| < TWO_64 && Stored(memory, pointer, bytes)
    ensures ReadOf(RecordOf(pointer, bytes), memory, cap) == Some(bytes) <==>
            |bytes| < cap && (|bytes| <= SHORT_MAX || (|bytes| <= VIEW_MAX && pointer >= LOWEST_POINTER))
  {
    RecordRoundTrip(pointer, bytes);
    FetchStored(memory, pointer, bytes);
  }

  // ---- the code ----

  method Memcpy(target: array<byte>, at: nat, bytes: Bytes)
    requires at + |bytes| <= target.Length
    modifies target
    ensures target[..] == old(target[..at]) + bytes + old(target[at + |bytes|..])
  {
    for i := 0 to |bytes|
      invariant target[..] == old(target[..at]) + bytes[..i] + old(target[at + i..])
    {
      target[at + i] := bytes[i];
    }
  }

  method Memset(target: array<byte>, n: nat)
    requires n <= target.Length
    modifies target
    ensures target[..n] == seq(n, _ => 0) && target[n..] == old(target[n..])
  {
    for i := 0 to n
      invariant forall k :: 0 <= k < i ==> target[k] == 0
      invariant target[i..] == old(target[i..])
    {
      target[i] := 0;
    }
  }

  method CxxStringInit(raw: array<byte>, pointer: nat, bytes: Bytes)
    requires raw.Length == RECORD
    modifies raw
    ensures raw[..] == RecordOf(pointer, bytes)
  {
    Memset(raw, RECORD);
    assert raw[..] == raw[..RECORD];
    if |bytes| <= SHORT_MAX {
      raw[0] := 2 * |bytes|;
      Memcpy(raw, 1, bytes);
      return;
    }
    Memcpy(raw, 0, Encode((2 * |bytes| + 1) % TWO_64, 8));
    Memcpy(raw, 8, Encode(|bytes| % TWO_64, 8));
    Memcpy(raw, 16, Encode(pointer % TWO_64, 8));
  }

  /** Kind 0 rejects; kind 1 leaves the bytes and a terminator in `storage`; kind 2 gives a pointer. */
  method CxxStringView(raw: array<byte>, storage: array<byte>) returns (kind: nat, pointer: nat, len: nat)
    requires raw.Length == RECORD && storage.Length == SHORT_MAX + 1 && raw != storage
    modifies storage
    ensures match ViewOf(raw[..])
            case Invalid => kind == 0
            case Short(bytes) => kind == 1 && len == |bytes| && storage[..len] == bytes && storage[len] == 0
            case Long(p, n) => kind == 2 && pointer == p && len == n
    ensures kind <= 2 && (kind == 1 ==> len <= SHORT_MAX) && (kind == 2 ==> 1 <= len <= VIEW_MAX)
  {
    kind, pointer, len := 0, 0, 0;
    if raw[0] % 2 == 0 {
      var n := raw[0] / 2;
      if n > SHORT_MAX { return; }
      Memcpy(storage, 0, raw[1..1 + n]);
      storage[n] := 0;
      return 1, 0, n;
    }
    var n, p := Decode(raw[8..16]), Decode(raw[16..24]);
    assert raw[..][8..16] == raw[8..16] && raw[..][16..24] == raw[16..24];
    if n == 0 || n > VIEW_MAX || p < LOWEST_POINTER { return; }
    return 2, p, n;
  }

  /** `safe_copy`: all the bytes or a failure. */
  method SafeCopy(memory: Memory, pointer: nat, target: array<byte>, n: nat) returns (ok: bool)
    requires n <= target.Length
    modifies target
    ensures ok <==> pointer != 0 && n != 0 && Fetch(memory, pointer, n).Some?
    ensures ok ==> |Fetch(memory, pointer, n).value| == n
    ensures ok ==> target[..] == Fetch(memory, pointer, n).value + old(target[n..])
  {
    FetchLength(memory, pointer, n);
    ok := pointer != 0 && n != 0 && Fetch(memory, pointer, n).Some?;
    if ok { Memcpy(target, 0, Fetch(memory, pointer, n).value); }
  }

  method ReadRemoteString(raw: array<byte>, memory: Memory, out: array<byte>) returns (ok: bool, len: nat)
    requires raw.Length == RECORD && raw != out
    modifies out
    ensures ok <==> ReadOf(raw[..], memory, out.Length).Some?
    ensures ok ==> len < out.Length && Some(out[..len]) == ReadOf(raw[..], memory, out.Length) && out[len] == 0
  {
    var storage := new byte[SHORT_MAX + 1];
    var kind, pointer, n := CxxStringView(raw, storage);
    ok, len := false, n;
    if kind == 0 || n + 1 > out.Length { return; }
    if kind == 1 {
      Memcpy(out, 0, storage[..n + 1]);
      assert out[..n] == storage[..n];
      return true, n;
    }
    ok := SafeCopy(memory, pointer, out, n);
    if ok { out[n] := 0; }
  }

  method CopyCxxString(raw: array<byte>, memory: Memory, allocates: bool) returns (text: array?<byte>, len: nat)
    requires raw.Length == RECORD
    ensures text != null <==> allocates && CopyOf(raw[..], memory).Some?
    ensures text != null ==> fresh(text) && text.Length == len + 1
    ensures text != null ==> Some(text[..len]) == CopyOf(raw[..], memory) && text[len] == 0
  {
    text, len := null, 0;
    if raw[0] % 2 == 0 {
      var n := raw[0] / 2;
      if n > SHORT_MAX || !allocates { return; }
      text := new byte[n + 1];
      Memcpy(text, 0, raw[1..1 + n]);
      assert text[..n] == raw[1..1 + n] == raw[..][1..1 + n];
      text[n] := 0;
      len := n;
      return;
    }
    var n, p := Decode(raw[8..16]), Decode(raw[16..24]);
    assert raw[..][8..16] == raw[8..16] && raw[..][16..24] == raw[16..24];
    if n > COPY_MAX || p < LOWEST_POINTER || !allocates { return; }
    var copy := new byte[n + 1];
    if n != 0 {
      var ok := SafeCopy(memory, p, copy, n);
      if !ok { return; }
    }
    copy[n] := 0;
    text, len := copy, n;
  }
}
