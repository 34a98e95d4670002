/**
 Self-delimiting codecs: what a writer emits, its reader takes off the front of anything.

 The other modules leave JSON open and only demand that documents read back and that no
 proper prefix of one reads at all.  These codecs show that the demand can be met.
 */
module Codecs {
  import opened Wrappers

  datatype Codec<!T> = Codec(write: T -> Bytes, read: Bytes -> Option<(T, Bytes)>)

  /** Reading undoes writing whatever follows, and what was read does not depend on what follows. */
  ghost predicate Good<T(!new)>(c: Codec<T>) {
    && (forall x, rest :: c.read(c.write(x) + rest) == Some((x, rest)))
    && (forall b, more :: c.read(b).Some? ==> c.read(b + more) == Some((c.read(b).value.0, c.read(b).value.1 + more)))
  }

  // ---- numbers ----

  function WriteNat(n: nat): Bytes {
    if n == 0 then [0] else [1] + WriteNat(n - 1)
  }

  function ReadNat(b: Bytes): Option<(nat, Bytes)> {
    if b == [] || b[0] > 1 then None
    else if b[0] == 0 then Some((0, b[1..]))
    else
      var tail := ReadNat(b[1..]);
      if tail.None? then None else Some((tail.value.0 + 1, tail.value.1))
  }

  lemma ReadsDigit(b: Bytes, tail: Bytes)
    requires b != [] && b[1..] == tail
    ensures b[0] == 0 ==> ReadNat(b) == Some((0, tail))
    ensures b[0] == 1 && ReadNat(tail).Some? ==> ReadNat(b) == Some((ReadNat(tail).value.0 + 1, ReadNat(tail).value.1))
  {
  }

  lemma {:induction false} ReadsNat(n: nat, rest: Bytes)
    ensures ReadNat(WriteNat(n) + rest) == Some((n, rest))
  {
    if n == 0 {
      ReadsDigit([0] + rest, rest);
    } else {
      var tail := WriteNat(n - 1) + rest;
      ReadsNat(n - 1, rest);
      assert WriteNat(n) + rest == [1] + tail;
      ReadsDigit([1] + tail, tail);
    }
  }

  lemma {:induction false} NatEndsItself(b: Bytes, more: Bytes)
    requires ReadNat(b).Some?
    ensures ReadNat(b + more) == Some((ReadNat(b).value.0, ReadNat(b).value.1 + more))
  {
    assert (b + more)[0] == b[0] && (b + more)[1..] == b[1..] + more;
    if b[0] == 1 { NatEndsItself(b[1..], more); }
  }

  function Nats(): Codec<nat> {
    Codec(WriteNat, ReadNat)
  }

  lemma NatsGood()
    ensures Good(Nats())
  {
    forall n: nat, rest ensures ReadNat(WriteNat(n) + rest) == Some((n, rest)) { ReadsNat(n, rest); }
    forall b, more | ReadNat(b).Some? ensures ReadNat(b + more) == Some((ReadNat(b).value.0, ReadNat(b).value.1 + more)) {
      NatEndsItself(b, more);
    }
  }

  // ---- pairs ----

  function ReadPair<A, B>(a: Codec<A>, b: Codec<B>, bytes: Bytes): Option<((A, B), Bytes)> {
    var x := a.read(bytes);
    if x.None? then None
    else
      var y := b.read(x.value.1);
      if y.None? then None else Some(((x.value.0, y.value.0), y.value.1))
  }

  function Pairs<A, B>(a: Codec<A>, b: Codec<B>): Codec<(A, B)> {
    Codec((p: (A, B)) => a.write(p.0) + b.write(p.1), bytes => ReadPair(a, b, bytes))
  }

  lemma ReadsPair<A(!new), B(!new)>(a: Codec<A>, b: Codec<B>, x: A, y: B, rest: Bytes)
    requires Good(a) && Good(b)
    ensures ReadPair(a, b, a.write(x) + b.write(y) + rest) == Some(((x, y), rest))
  {
    assert a.write(x) + b.write(y) + rest == a.write(x) + (b.write(y) + rest);
    assert a.read(a.write(x) + (b.write(y) + rest)) == Some((x, b.write(y) + rest));
  }

  lemma PairEndsItself<A(!new), B(!new)>(a: Codec<A>, b: Codec<B>, bytes: Bytes, more: Bytes)
    requires Good(a) && Good(b) && ReadPair(a, b, bytes).Some?
    ensures ReadPair(a, b, bytes + more) == Some((ReadPair(a, b, bytes).value.0, ReadPair(a, b, bytes).value.1 + more))
  {
    var x := a.read(bytes).value;
    assert a.read(bytes + more) == Some((x.0, x.1 + more));
    assert b.read(x.1 + more) == Some((b.read(x.1).value.0, b.read(x.1).value.1 + more));
  }

  lemma PairsGood<A(!new), B(!new)>(a: Codec<A>, b: Codec<B>)
    requires Good(a) && Good(b)
    ensures Good(Pairs(a, b))
  {
    var c := Pairs(a, b);
    forall p, rest ensures c.read(c.write(p) + rest) == Some((p, rest)) { ReadsPair(a, b, p.0, p.1, rest); }
    forall bytes, more | c.read(bytes).Some?
      ensures c.read(bytes + more) == Some((c.read(bytes).value.0, c.read(bytes).value.1 + more))
    {
      PairEndsItself(a, b, bytes, more);
    }
  }

  // ---- lists ----

  function WriteMany<T>(c: Codec<T>, xs: seq<T>): Bytes {
    if xs == [] then [] else c.write(xs[0]) + WriteMany(c, xs[1..])
  }

  function ReadMany<T>(c: Codec<T>, n: nat, b: Bytes): Option<(seq<T>, Bytes)> {
    if n == 0 then Some(([], b))
    else
      var first := c.read(b);
      if first.None? then None
      else
        var others := ReadMany(c, n - 1, first.value.1);
        if others.None? then None else Some(([first.value.0] + others.value.0, others.value.1))
  }

  lemma {:induction false} ReadsMany<T(!new)>(c: Codec<T>, xs: seq<T>, rest: Bytes)
    requires Good(c)
    ensures ReadMany(c, |xs|, WriteMany(c, xs) + rest) == Some((xs, rest))
    decreases |xs|
  {
    if xs == [] {
      assert [] + rest == rest;
    } else {
      ReadsMany(c, xs[1..], rest);
      assert WriteMany(c, xs) + rest == c.write(xs[0]) + (WriteMany(c, xs[1..]) + rest);
      assert xs == [xs[0]] + xs[1..];
    }
  }

  lemma {:induction false} ManyEndItself<T(!new)>(c: Codec<T>, n: nat, b: Bytes, more: Bytes)
    requires Good(c) && ReadMany(c, n, b).Some?
    ensures ReadMany(c, n, b + more) == Some((ReadMany(c, n, b).value.0, ReadMany(c, n, b).value.1 + more))
  {
    if n > 0 {
      var first := c.read(b).value;
      assert c.read(b + more) == Some((first.0, first.1 + more));
      ManyEndItself(c, n - 1, first.1, more);
    }
  }

  function ReadList<T>(c: Codec<T>, b: Bytes): Option<(seq<T>, Bytes)> {
    var n := ReadNat(b);
    if n.None? then None else ReadMany(c, n.value.0, n.value.1)
  }

  function Lists<T>(c: Codec<T>): Codec<seq<T>> {
    Codec((xs: seq<T>) => WriteNat(|xs|) + WriteMany(c, xs), b => ReadList(c, b))
  }

  lemma ReadsList<T(!new)>(c: Codec<T>, xs: seq<T>, rest: Bytes)
    requires Good(c)
    ensures ReadList(c, WriteNat(|xs|) + WriteMany(c, xs) + rest) == Some((xs, rest))
  {
    var tail := WriteMany(c, xs) + rest;
    assert WriteNat(|xs|) + WriteMany(c, xs) + rest == WriteNat(|xs|) + tail;
    ReadsNat(|xs|, tail);
    ReadsMany(c, xs, rest);
  }

  lemma ListEndsItself<T(!new)>(c: Codec<T>, b: Bytes, more: Bytes)
    requires Good(c) && ReadList(c, b).Some?
    ensures ReadList(c, b + more) == Some((ReadList(c, b).value.0, ReadList(c, b).value.1 + more))
  {
    NatEndsItself(b, more);
    ManyEndItself(c, ReadNat(b).value.0, ReadNat(b).value.1, more);
  }

  lemma ListsGood<T(!new)>(c: Codec<T>)
    requires Good(c)
    ensures Good(Lists(c))
  {
    var d := Lists(c);
    forall xs, rest ensures d.read(d.write(xs) + rest) == Some((xs, rest)) { ReadsList(c, xs, rest); }
    forall b, more | d.read(b).Some? ensures d.read(b + more) == Some((d.read(b).value.0, d.read(b).value.1 + more)) {
      ListEndsItself(c, b, more);
    }
  }

  // ---- other types ----

  function ReadAs<A, B>(c: Codec<A>, from: A -> B, b: Bytes): Option<(B, Bytes)> {
    var x := c.read(b);
    if x.None? then None else Some((from(x.value.0), x.value.1))
  }

  function Mapped<A, B>(c: Codec<A>, to: B -> A, from: A -> B): Codec<B> {
    Codec((x: B) => c.write(to(x)), b => ReadAs(c, from, b))
  }

  lemma MappedGood<A(!new), B(!new)>(c: Codec<A>, to: B -> A, from: A -> B)
    requires Good(c) && forall x :: from(to(x)) == x
    ensures Good(Mapped(c, to, from))
  {
    var d := Mapped(c, to, from);
    forall x, rest ensures d.read(d.write(x) + rest) == Some((x, rest)) {
      assert c.read(c.write(to(x)) + rest) == Some((to(x), rest));
    }
    forall b, more | d.read(b).Some? ensures d.read(b + more) == Some((d.read(b).value.0, d.read(b).value.1 + more)) {
      assert c.read(b + more) == Some((c.read(b).value.0, c.read(b).value.1 + more));
    }
  }

  function CharOf(n: nat): char {
    if 0 <= n < 0xD800 || 0xE000 <= n < 0x11_0000 then n as char else 'a'
  }

  function Chars(): Codec<char> {
    Mapped(Nats(), (c: char) => c as int, CharOf)
  }

  function Strings(): Codec<string> {
    Lists(Chars())
  }

  function Flags(): Codec<bool> {
    Mapped(Nats(), (flag: bool) => if flag then 1 else 0, (n: nat) => n == 1)
  }

  lemma StringsGood()
    ensures Good(Strings()) && Good(Flags())
  {
    NatsGood();
    MappedGood(Nats(), (c: char) => c as int, CharOf);
    ListsGood(Chars());
    MappedGood(Nats(), (flag: bool) => if flag then 1 else 0, (n: nat) => n == 1);
  }

  // ---- whole documents ----

  function Parse<T>(c: Codec<T>, b: Bytes): Option<T> {
    var x := c.read(b);
    if x.Some? && x.value.1 == [] then Some(x.value.0) else None
  }

  lemma NothingFollows<T(!new)>(c: Codec<T>, b: Bytes, more: Bytes)
    requires Good(c) && more != []
    ensures Parse(c, b).Some? ==> Parse(c, b + more).None?
  {
    if c.read(b).Some? { assert c.read(b + more) == Some((c.read(b).value.0, c.read(b).value.1 + more)); }
  }

  /** A whole document parses back, and a proper prefix of one does not parse. */
  lemma DocumentsParse<T(!new)>(c: Codec<T>, x: T, left: Bytes)
    requires Good(c)
    ensures Parse(c, c.write(x)) == Some(x)
    ensures |left| < |c.write(x)| && left <= c.write(x) ==> Parse(c, left).None?
  {
    assert c.write(x) + [] == c.write(x);
    if |left| < |c.write(x)| && left <= c.write(x) {
      assert left + c.write(x)[|left|..] == c.write(x);
      NothingFollows(c, left, c.write(x)[|left|..]);
    }
  }
}
