/** Values shared by every module: bytes, optional values and results. */
module Wrappers {

  datatype Option<+T> = None | Some(value: T)

  datatype Result<+T, +E> = Ok(value: T) | Err(error: E)

  type byte = x: int | 0 <= x < 256

  type Bytes = seq<byte>

  /** Two maps hold the same thing at one key: the same value, or nothing. */
  predicate Same<K, V(==)>(a: map<K, V>, b: map<K, V>, k: K) {
    (k in a <==> k in b) && (k in a ==> a[k] == b[k])
  }

  /** Two maps agree everywhere but at `k`. */
  ghost predicate SameBut<K(!new), V>(a: map<K, V>, b: map<K, V>, k: K) {
    a - {k} == b - {k}
  }

  lemma SameAt<K(!new), V>(a: map<K, V>, b: map<K, V>, k: K, p: K)
    requires SameBut(a, b, k) && p != k
    ensures Same(a, b, p)
  {
    assert p in a <==> p in a - {k};
    assert p in b <==> p in b - {k};
    if p in a { assert a[p] == (a - {k})[p] == (b - {k})[p]; }
  }

  lemma SameElsewhere<K(!new), V>(a: map<K, V>, b: map<K, V>, k: K)
    requires SameBut(a, b, k)
    ensures forall p :: p != k ==> Same(a, b, p)
  {
    forall p | p != k ensures Same(a, b, p) { SameAt(a, b, k, p); }
  }

  function One(b: bool): nat { if b then 1 else 0 }

  /** How many of the steps in this stretch do not go well. */
  function Failures<T>(steps: nat -> T, well: T -> bool, since: nat, until: nat): nat
    decreases until
  {
    if until <= since then 0 else Failures(steps, well, since, until - 1) + if well(steps(until - 1)) then 0 else 1
  }

  lemma {:induction false} OnlyOne<T>(steps: nat -> T, well: T -> bool, since: nat, k: nat, until: nat)
    requires forall n :: n != k ==> well(steps(n))
    ensures Failures(steps, well, since, until) <= if k < until then 1 else 0
    decreases until
  {
    if since < until { OnlyOne(steps, well, since, k, until - 1); }
  }

  /** None, exactly when every one of them goes well. */
  lemma {:induction false} NoFailures<T>(steps: nat -> T, well: T -> bool, since: nat, until: nat)
    ensures Failures(steps, well, since, until) == 0 <==> forall k :: since <= k < until ==> well(steps(k))
    decreases until
  {
    if since < until { NoFailures(steps, well, since, until - 1); }
  }
}
