/**
 * PHP ordered arrays, as sequences of (key, value) pairs in insertion order.
 * Assigning to a key that is present keeps its position; a new key goes to
 * the end. Keys are compared with plain equality.
 */
module Assoc {

  predicate DistinctKeys<K(==), V>(m: seq<(K, V)>) {
    forall i, j :: 0 <= i < j < |m| ==> m[i].0 != m[j].0
  }

  /** Position of `k` in `m`, or `|m|` when `k` is absent. */
  function Find<K(==), V>(m: seq<(K, V)>, k: K): (i: nat)
    ensures i <= |m|
    ensures i < |m| ==> m[i].0 == k
    ensures forall j :: 0 <= j < i ==> m[j].0 != k
  {
    if |m| == 0 then 0 else if m[0].0 == k then 0 else 1 + Find(m[1..], k)
  }

  /** `isset($m[$k])`. */
  predicate HasKey<K(==), V>(m: seq<(K, V)>, k: K) {
    Find(m, k) < |m|
  }

  /** `isset($m[$k]) ? $m[$k] : $d`. */
  function Get<K(==), V>(m: seq<(K, V)>, k: K, d: V): V {
    if HasKey(m, k) then m[Find(m, k)].1 else d
  }

  /** `$m[$k] = $v`: overwrite in place, or append a new entry. */
  function Put<K(==), V>(m: seq<(K, V)>, k: K, v: V): (r: seq<(K, V)>)
    ensures |r| == if HasKey(m, k) then |m| else |m| + 1
    ensures Find(m, k) < |r| && r[Find(m, k)] == (k, v)
    ensures forall j :: 0 <= j < |m| && j != Find(m, k) ==> r[j] == m[j]
  {
    var i := Find(m, k);
    if i < |m| then m[i := (k, v)] else m + [(k, v)]
  }

  /** A write never makes two entries share a key. */
  lemma PutDistinct<K, V>(m: seq<(K, V)>, k: K, v: V)
    requires DistinctKeys(m)
    ensures DistinctKeys(Put(m, k, v))
  {
  }

  /** `$m[$k]++`, with a missing key first set to 0. */
  function Increment<K(==)>(m: seq<(K, nat)>, k: K): seq<(K, nat)> {
    Put(m, k, Get(m, k, 0) + 1)
  }

  /** Reading back after a write sees the new value at that key and the old value elsewhere. */
  lemma GetPut<K, V>(m: seq<(K, V)>, k: K, v: V, k': K, d: V)
    ensures HasKey(Put(m, k, v), k') <==> k' == k || HasKey(m, k')
    ensures Get(Put(m, k, v), k', d) == if k' == k then v else Get(m, k', d)
  {
    var r := Put(m, k, v);
    var i := Find(m, k);
    if k' == k {
      assert Find(r, k) == i;
    } else {
      var f := Find(m, k');
      if f < |m| {
        assert f != i;
        assert Find(r, k') == f;
      } else {
        assert forall j :: 0 <= j < |r| ==> r[j].0 != k';
        assert Find(r, k') == |r|;
      }
    }
  }

  /** In a map without repeated keys, every entry is what a lookup of its key returns. */
  lemma GetEntry<K, V>(m: seq<(K, V)>, i: nat, d: V)
    requires DistinctKeys(m) && i < |m|
    ensures HasKey(m, m[i].0) && Get(m, m[i].0, d) == m[i].1
  {
    assert Find(m, m[i].0) == i;
  }

  /** A key is present exactly when some entry carries it. */
  lemma HasKeyIff<K, V>(m: seq<(K, V)>, k: K)
    ensures HasKey(m, k) <==> exists i :: 0 <= i < |m| && m[i].0 == k
  {
  }

  /** Sum of a measure `f` of the values. */
  function SumOf<K, V>(m: seq<(K, V)>, f: V -> nat): nat {
    if |m| == 0 then 0 else SumOf(m[..|m| - 1], f) + f(m[|m| - 1].1)
  }

  function NatValue(n: nat): nat { n }

  /** Sum of the values, `array_sum($m)`. */
  function SumValues<K>(m: seq<(K, nat)>): nat {
    SumOf(m, NatValue)
  }

  lemma {:induction false} SumUpdate<K, V>(m: seq<(K, V)>, i: nat, e: (K, V), f: V -> nat)
    requires i < |m|
    ensures SumOf(m[i := e], f) + f(m[i].1) == SumOf(m, f) + f(e.1)
  {
    var n := |m| - 1;
    assert m[i := e][..n] == if i < n then m[..n][i := e] else m[..n];
    if i < n {
      SumUpdate(m[..n], i, e, f);
    }
  }

  /** Writing `v` at `k` changes the sum by the measure of `v` minus that of the value that was there. */
  lemma SumPut<K, V>(m: seq<(K, V)>, k: K, v: V, f: V -> nat)
    ensures SumOf(Put(m, k, v), f) + (if HasKey(m, k) then f(m[Find(m, k)].1) else 0) == SumOf(m, f) + f(v)
  {
    var i := Find(m, k);
    if i < |m| {
      SumUpdate(m, i, (k, v), f);
    } else {
      assert (m + [(k, v)])[..|m|] == m;
    }
  }

  /** Incrementing a counter adds exactly one to the total of all counters. */
  lemma SumIncrement<K>(m: seq<(K, nat)>, k: K)
    ensures SumValues(Increment(m, k)) == SumValues(m) + 1
  {
    SumPut(m, k, Get(m, k, 0) + 1, NatValue);
  }

  /** Setting a key twice leaves only the second value, wherever the key sits. */
  lemma PutPut<K, V>(m: seq<(K, V)>, k: K, v1: V, v2: V)
    ensures Put(Put(m, k, v1), k, v2) == Put(m, k, v2)
  {
    var i := Find(m, k);
    if i == |m| {
      var m1 := m + [(k, v1)];
      assert forall j :: 0 <= j < |m| ==> m1[j].0 != k;
      assert m1[|m|].0 == k;
      assert Find(m1, k) == |m|;
    }
  }

  /** `isset($m[$k]) || $m[$k] = 0; $m[$k]++;` is an increment. */
  lemma CountKeyIncrement<K>(m: seq<(K, nat)>, k: K)
    ensures (var m' := if HasKey(m, k) then m else Put(m, k, 0); Put(m', k, Get(m', k, 0) + 1)) == Increment(m, k)
  {
    if !HasKey(m, k) {
      GetPut(m, k, 0, k, 0);
      PutPut(m, k, 0, 1);
    }
  }

  lemma {:induction false} SumAppend<K, V>(a: seq<(K, V)>, b: seq<(K, V)>, f: V -> nat)
    ensures SumOf(a + b, f) == SumOf(a, f) + SumOf(b, f)
    decreases |b|
  {
    if |b| == 0 {
      assert a + b == a;
    } else {
      assert (a + b)[..|a + b| - 1] == a + b[..|b| - 1];
      SumAppend(a, b[..|b| - 1], f);
    }
  }

  /** Reordering the entries, as a sort does, keeps the sum. */
  lemma {:induction false} SumPermutation<K, V>(a: seq<(K, V)>, b: seq<(K, V)>, f: V -> nat)
    requires multiset(a) == multiset(b)
    ensures SumOf(a, f) == SumOf(b, f)
    decreases |a|
  {
    if |a| == 0 {
      assert |b| == |multiset(b)| == 0;
    } else {
      var x := a[|a| - 1];
      assert a == a[..|a| - 1] + [x];
      assert x in multiset(b);
      var j :| 0 <= j < |b| && b[j] == x;
      var rest := b[..j] + b[j + 1..];
      assert b == b[..j] + [x] + b[j + 1..];
      assert multiset(b) == multiset(b[..j]) + multiset{x} + multiset(b[j + 1..]);
      assert multiset(rest) == multiset(b[..j]) + multiset(b[j + 1..]);
      assert multiset(a) == multiset(a[..|a| - 1]) + multiset{x};
      assert multiset(a[..|a| - 1]) == multiset(a) - multiset{x};
      assert multiset(rest) == multiset(b) - multiset{x};
      SumPermutation(a[..|a| - 1], rest, f);
      SumAppend(b[..j] + [x], b[j + 1..], f);
      SumAppend(b[..j], [x], f);
      SumAppend(b[..j], b[j + 1..], f);
      assert SumOf([x], f) == f(x.1) by {
        assert [x][..0] == [];
      }
    }
  }
  /** Dropping entry `j` keeps the keys distinct, and none of the rest has its key. */
  lemma DropDistinct<K, V>(a: seq<(K, V)>, j: nat)
    requires DistinctKeys(a) && j < |a|
    ensures var rest := a[..j] + a[j + 1..];
      DistinctKeys(rest) && forall m :: 0 <= m < |rest| ==> rest[m].0 != a[j].0
  {
    var rest := a[..j] + a[j + 1..];
    assert forall m :: 0 <= m < |rest| ==> rest[m] == a[if m < j then m else m + 1];
  }

  /** Reordering the entries, as a sort does, keeps the keys distinct. */
  lemma {:induction false} DistinctKeysPermutation<K, V>(a: seq<(K, V)>, b: seq<(K, V)>)
    requires DistinctKeys(a) && multiset(a) == multiset(b)
    ensures DistinctKeys(b)
    decreases |b|
  {
    if |b| > 0 {
      var j := EntryOf(a, b, |b| - 1);
      DropMatching(a, b, j);
      DropDistinct(a, j);
      DistinctKeysPermutation(a[..j] + a[j + 1..], b[..|b| - 1]);
      KeyAbsentPermutation(a[..j] + a[j + 1..], b[..|b| - 1], b[|b| - 1].0);
      LastDistinct(b[..|b| - 1], b);
    }
  }

  /** Taking the same entry out of two reorderings of each other leaves two reorderings. */
  lemma DropMatching<T>(a: seq<T>, b: seq<T>, j: nat)
    requires multiset(a) == multiset(b) && |b| > 0 && j < |a| && a[j] == b[|b| - 1]
    ensures multiset(a[..j] + a[j + 1..]) == multiset(b[..|b| - 1])
  {
    MultisetDrop(a, j);
    MultisetDropLast(b);
  }

  /** Keys are distinct when those of `init`, all of `b` but its last entry, are and the last one's key is new. */
  lemma LastDistinct<K, V>(init: seq<(K, V)>, b: seq<(K, V)>)
    requires |b| > 0 && init == b[..|b| - 1] && DistinctKeys(init)
    requires forall i :: 0 <= i < |init| ==> init[i].0 != b[|b| - 1].0
    ensures DistinctKeys(b)
  {
    forall i, j | 0 <= i < j < |b| ensures b[i].0 != b[j].0 {
      assert b[i] == init[i];
      if j < |b| - 1 {
        assert b[j] == init[j];
      }
    }
  }

  /** A key no entry carries is still carried by none after a reordering. */
  lemma KeyAbsentPermutation<K, V>(a: seq<(K, V)>, b: seq<(K, V)>, k: K)
    requires multiset(a) == multiset(b)
    requires forall m :: 0 <= m < |a| ==> a[m].0 != k
    ensures forall i :: 0 <= i < |b| ==> b[i].0 != k
  {
    forall i | 0 <= i < |b| ensures b[i].0 != k {
      assert b[i] in multiset(a);
    }
  }

  /** Entry `i` of a reordering of `a` sits somewhere in `a`. */
  lemma EntryOf<T>(a: seq<T>, b: seq<T>, i: nat) returns (j: nat)
    requires multiset(a) == multiset(b) && i < |b|
    ensures j < |a| && a[j] == b[i]
  {
    assert b[i] in multiset(a);
    j :| 0 <= j < |a| && a[j] == b[i];
  }

  lemma MultisetDrop<T>(a: seq<T>, j: nat)
    requires j < |a|
    ensures multiset(a[..j] + a[j + 1..]) == multiset(a) - multiset{a[j]}
  {
    assert a == a[..j] + [a[j]] + a[j + 1..];
  }

  lemma MultisetDropLast<T>(b: seq<T>)
    requires |b| > 0
    ensures multiset(b[..|b| - 1]) == multiset(b) - multiset{b[|b| - 1]}
  {
    assert b == b[..|b| - 1] + [b[|b| - 1]];
  }
}
