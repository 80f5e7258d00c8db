/** Sequence operations behind the recency queue: the queue is a
    `collections.deque` of keys, and the cache only ever removes a key from
    the middle of it (`deque.remove`), pops its head (`popleft`) or appends
    at its tail (`append`). */
module Recency {

  /** No key occurs twice in the queue. */
  predicate Distinct<K(==)>(q: seq<K>)
  {
    forall i, j :: 0 <= i < j < |q| ==> q[i] != q[j]
  }

  /** The set of keys held by the queue. */
  function Elements<K>(q: seq<K>): set<K>
  {
    set k | k in q
  }

  /** Position of the first occurrence of `k` in `q`. */
  function IndexOf<K(==)>(q: seq<K>, k: K): (i: nat)
    requires k in q
    ensures i < |q| && q[i] == k
    ensures k !in q[..i]
  {
    if q[0] == k then 0
    else
      var j := IndexOf(q[1..], k);
      assert q[..j + 1] == [q[0]] + q[1..][..j];
      j + 1
  }

  /** `deque.remove(k)`: deletes the first occurrence of `k`. The deque
      raises `ValueError` when `k` is absent; the cache never does that,
      so the model asks for `k in q`. */
  function Remove<K(==)>(q: seq<K>, k: K): (r: seq<K>)
    requires k in q
    ensures |r| == |q| - 1
    ensures r == q[..IndexOf(q, k)] + q[IndexOf(q, k) + 1..]
  {
    if q[0] == k then q[1..]
    else
      var j := IndexOf(q[1..], k);
      assert q[..j + 1] == [q[0]] + q[1..][..j];
      assert q[j + 2..] == q[1..][j + 1..];
      [q[0]] + Remove(q[1..], k)
  }

  /** Removing a key from a queue without duplicates leaves a queue without
      duplicates that holds exactly the other keys. */
  lemma RemoveDistinct<K>(q: seq<K>, k: K)
    requires Distinct(q) && k in q
    ensures Distinct(Remove(q, k))
    ensures forall x :: x in Remove(q, k) <==> x in q && x != k
    ensures Elements(Remove(q, k)) == Elements(q) - {k}
  {
    var i := IndexOf(q, k);
    var r := Remove(q, k);
    assert forall a :: 0 <= a < |r| ==> r[a] == q[if a < i then a else a + 1];
    forall a, b | 0 <= a < b < |r|
      ensures r[a] != r[b]
    {
      assert r[a] == q[if a < i then a else a + 1];
      assert r[b] == q[if b < i then b else b + 1];
    }
    forall x | x in q && x != k
      ensures x in r
    {
      var b :| 0 <= b < |q| && q[b] == x;
      var a := if b < i then b else b - 1;
      assert r[a] == x;
    }
    forall x | x in r
      ensures x in q && x != k
    {
      var a :| 0 <= a < |r| && r[a] == x;
      assert x == q[if a < i then a else a + 1];
    }
  }

  /** A queue without duplicates holds as many keys as it is long. */
  lemma {:induction false} DistinctSize<K>(q: seq<K>)
    requires Distinct(q)
    ensures |Elements(q)| == |q|
  {
    if q != [] {
      var t := q[1..];
      assert Distinct(t) by {
        forall i, j | 0 <= i < j < |t| ensures t[i] != t[j] {
          assert t[i] == q[i + 1] && t[j] == q[j + 1];
        }
      }
      DistinctSize(t);
      assert q[0] !in t;
      assert Elements(q) == {q[0]} + Elements(t);
    }
  }

  /** `append(k)` of a key not yet queued keeps the queue free of
      duplicates and adds exactly that key. */
  lemma AppendFresh<K>(q: seq<K>, k: K)
    requires Distinct(q) && k !in q
    ensures Distinct(q + [k])
    ensures Elements(q + [k]) == Elements(q) + {k}
  {
  }

  /** Taking the head off a queue shifts its prefixes and suffixes by one. */
  lemma PrefixAfterPop<K>(q: seq<K>, m: nat)
    requires 1 <= m <= |q|
    ensures q[..m] == [q[0]] + q[1..][..m - 1]
    ensures Elements(q[..m]) == {q[0]} + Elements(q[1..][..m - 1])
    ensures q[1..][m - 1..] == q[m..]
  {
  }
}
