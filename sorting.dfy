/**
 * The library sorts the analyzer applies to its ordered arrays. Since PHP 8
 * every sort is stable: `uasort` and `arsort` by a count, largest first, keep
 * entries with equal counts in their previous order. `ksort` on string keys
 * that are not numeric compares them byte by byte, like `strcmp`.
 * `array_slice($a, 0, $n, true)` keeps the first `n` entries.
 */
module Sorting {

  /** `array_slice($s, 0, $n)`: the first `n` entries, or all of them when there are fewer. */
  function Take<T>(s: seq<T>, n: nat): (r: seq<T>)
    ensures |r| <= n && |r| <= |s|
    ensures |r| == |s| || |r| == n
    ensures r == s[..|r|]
  {
    if |s| <= n then s else s[..n]
  }

  /** Every entry's key is at least that of every later entry. */
  ghost predicate SortedDesc<T>(s: seq<T>, key: T -> nat) {
    forall i, j :: 0 <= i < j < |s| ==> key(s[i]) >= key(s[j])
  }

  /** The entries of `s` whose key is `c`, in their order in `s`. */
  function WithKey<T>(s: seq<T>, key: T -> nat, c: nat): seq<T> {
    if |s| == 0 then [] else (if key(s[0]) == c then [s[0]] else []) + WithKey(s[1..], key, c)
  }

  /** Puts `x` after every entry of the sorted `o` whose key is at least its own. */
  function InsertDesc<T>(o: seq<T>, x: T, key: T -> nat): seq<T> {
    if |o| == 0 then [x]
    else if key(x) > key(o[0]) then [x] + o
    else [o[0]] + InsertDesc(o[1..], x, key)
  }

  /** Stable sort, largest key first: `uasort` with the comparator `key($b) - key($a)`. */
  function SortDesc<T>(s: seq<T>, key: T -> nat): seq<T> {
    if |s| == 0 then [] else InsertDesc(SortDesc(s[..|s| - 1], key), s[|s| - 1], key)
  }

  lemma {:induction false} WithKeyAppend<T>(a: seq<T>, b: seq<T>, key: T -> nat, c: nat)
    ensures WithKey(a + b, key, c) == WithKey(a, key, c) + WithKey(b, key, c)
  {
    if |a| > 0 {
      WithKeyAppend(a[1..], b, key, c);
      assert (a + b)[1..] == a[1..] + b;
    } else {
      assert a + b == b;
    }
  }

  lemma {:induction false} WithKeyNone<T>(s: seq<T>, key: T -> nat, c: nat)
    requires forall i :: 0 <= i < |s| ==> key(s[i]) < c
    ensures WithKey(s, key, c) == []
  {
    if |s| > 0 {
      WithKeyNone(s[1..], key, c);
    }
  }

  lemma {:induction false} InsertDescPerm<T>(o: seq<T>, x: T, key: T -> nat)
    ensures multiset(InsertDesc(o, x, key)) == multiset(o) + multiset{x}
  {
    if |o| > 0 && key(x) <= key(o[0]) {
      InsertDescPerm(o[1..], x, key);
      assert o == [o[0]] + o[1..];
    }
  }

  lemma {:induction false} InsertDescSorted<T>(o: seq<T>, x: T, key: T -> nat)
    requires SortedDesc(o, key)
    ensures SortedDesc(InsertDesc(o, x, key), key)
  {
    if |o| > 0 && key(x) <= key(o[0]) {
      var tail := o[1..];
      InsertDescSorted(tail, x, key);
      InsertDescPerm(tail, x, key);
      var r := [o[0]] + InsertDesc(tail, x, key);
      forall i | 1 <= i < |r| ensures key(r[0]) >= key(r[i]) {
        assert r[i] in multiset(InsertDesc(tail, x, key));
        assert r[i] in multiset(tail) + multiset{x};
      }
    }
  }

  lemma SortedDescTail<T>(o: seq<T>, key: T -> nat)
    requires |o| > 0 && SortedDesc(o, key)
    ensures SortedDesc(o[1..], key)
  {
    forall i, j | 0 <= i < j < |o| - 1 ensures key(o[1..][i]) >= key(o[1..][j]) {
      assert o[1..][i] == o[i + 1] && o[1..][j] == o[j + 1];
    }
  }

  lemma {:induction false} InsertDescWithKey<T>(o: seq<T>, x: T, key: T -> nat, c: nat)
    requires SortedDesc(o, key)
    ensures WithKey(InsertDesc(o, x, key), key, c) == WithKey(o, key, c) + (if key(x) == c then [x] else [])
  {
    var e := if key(x) == c then [x] else [];
    if |o| == 0 {
      assert InsertDesc(o, x, key) == [x];
      assert [x][1..] == [];
    } else if key(x) > key(o[0]) {
      var r := [x] + o;
      assert r[1..] == o;
      assert WithKey(r, key, c) == e + WithKey(o, key, c);
      if key(x) == c {
        forall i | 0 <= i < |o| ensures key(o[i]) < c {
          assert i == 0 || key(o[0]) >= key(o[i]);
        }
        WithKeyNone(o, key, c);
      }
    } else {
      var tail := o[1..];
      SortedDescTail(o, key);
      InsertDescWithKey(tail, x, key, c);
      var h := if key(o[0]) == c then [o[0]] else [];
      var r := [o[0]] + InsertDesc(tail, x, key);
      assert r[1..] == InsertDesc(tail, x, key);
      assert WithKey(r, key, c) == h + (WithKey(tail, key, c) + e);
      assert WithKey(o, key, c) == h + WithKey(tail, key, c);
      assert h + (WithKey(tail, key, c) + e) == (h + WithKey(tail, key, c)) + e;
    }
  }

  lemma {:induction false} SortDescPerm<T>(s: seq<T>, key: T -> nat)
    ensures multiset(SortDesc(s, key)) == multiset(s)
  {
    if |s| > 0 {
      var init, last := s[..|s| - 1], s[|s| - 1];
      SortDescPerm(init, key);
      InsertDescPerm(SortDesc(init, key), last, key);
      assert s == init + [last];
    }
  }

  lemma {:induction false} SortDescSorted<T>(s: seq<T>, key: T -> nat)
    ensures SortedDesc(SortDesc(s, key), key)
  {
    if |s| > 0 {
      SortDescSorted(s[..|s| - 1], key);
      InsertDescSorted(SortDesc(s[..|s| - 1], key), s[|s| - 1], key);
    }
  }

  lemma {:induction false} SortDescStable<T>(s: seq<T>, key: T -> nat, c: nat)
    ensures WithKey(SortDesc(s, key), key, c) == WithKey(s, key, c)
  {
    if |s| > 0 {
      var init, last := s[..|s| - 1], s[|s| - 1];
      SortDescStable(init, key, c);
      SortDescSorted(init, key);
      InsertDescWithKey(SortDesc(init, key), last, key, c);
      assert s == init + [last];
      WithKeyAppend(init, [last], key, c);
      assert [last][1..] == [];
    }
  }

  /**
   * The sort is a stable permutation: the result is ordered by key, largest
   * first, and for every key value it holds the entries with that key in
   * their input order.
   */
  lemma SortDescSpec<T>(s: seq<T>, key: T -> nat)
    ensures |SortDesc(s, key)| == |s|
    ensures SortedDesc(SortDesc(s, key), key)
    ensures multiset(SortDesc(s, key)) == multiset(s)
    ensures forall c :: WithKey(SortDesc(s, key), key, c) == WithKey(s, key, c)
  {
    SortDescPerm(s, key);
    SortDescSorted(s, key);
    forall c ensures WithKey(SortDesc(s, key), key, c) == WithKey(s, key, c) {
      SortDescStable(s, key, c);
    }
    assert |multiset(SortDesc(s, key))| == |s|;
  }

  /** Byte-wise string order, as `strcmp($a, $b) <= 0`. */
  predicate LexLe(a: string, b: string) {
    |a| == 0 || (|b| > 0 && (a[0] < b[0] || (a[0] == b[0] && LexLe(a[1..], b[1..]))))
  }

  lemma {:induction false} LexTotal(a: string, b: string)
    ensures LexLe(a, b) || LexLe(b, a)
  {
    if |a| > 0 && |b| > 0 && a[0] == b[0] {
      LexTotal(a[1..], b[1..]);
    }
  }

  lemma {:induction false} LexTrans(a: string, b: string, c: string)
    requires LexLe(a, b) && LexLe(b, c)
    ensures LexLe(a, c)
  {
    if |a| > 0 && a[0] == b[0] && b[0] == c[0] {
      LexTrans(a[1..], b[1..], c[1..]);
    }
  }

  /** The first `n` entries of the sort: at most `n` of them, still in order, each one of the input. */
  lemma TopOfSort<T>(s: seq<T>, key: T -> nat, n: nat)
    ensures var top := Take(SortDesc(s, key), n);
      |top| <= n && SortedDesc(top, key) && forall i :: 0 <= i < |top| ==> top[i] in s
  {
    var sorted := SortDesc(s, key);
    SortDescSpec(s, key);
    var top := Take(sorted, n);
    forall i | 0 <= i < |top| ensures top[i] in s {
      assert top[i] == sorted[i];
      assert sorted[i] in multiset(sorted);
    }
  }

  /** Every key is at most every later key. */
  ghost predicate KeysAscending<V>(m: seq<(string, V)>) {
    forall i, j :: 0 <= i < j < |m| ==> LexLe(m[i].0, m[j].0)
  }

  function InsertByKey<V>(o: seq<(string, V)>, x: (string, V)): seq<(string, V)> {
    if |o| == 0 then [x]
    else if LexLe(o[0].0, x.0) then [o[0]] + InsertByKey(o[1..], x)
    else [x] + o
  }

  /** `ksort`: the entries ordered by key, smallest first. */
  function SortByKey<V>(m: seq<(string, V)>): seq<(string, V)> {
    if |m| == 0 then [] else InsertByKey(SortByKey(m[..|m| - 1]), m[|m| - 1])
  }

  lemma {:induction false} InsertByKeyPerm<V>(o: seq<(string, V)>, x: (string, V))
    ensures multiset(InsertByKey(o, x)) == multiset(o) + multiset{x}
  {
    if |o| > 0 && LexLe(o[0].0, x.0) {
      InsertByKeyPerm(o[1..], x);
      assert o == [o[0]] + o[1..];
    }
  }

  /** Inserting a key no smaller than `b` among keys no smaller than `b` keeps every key no smaller than `b`. */
  lemma {:induction false} InsertByKeyBound<V>(o: seq<(string, V)>, x: (string, V), b: string)
    requires LexLe(b, x.0) && forall i :: 0 <= i < |o| ==> LexLe(b, o[i].0)
    ensures forall i :: 0 <= i < |InsertByKey(o, x)| ==> LexLe(b, InsertByKey(o, x)[i].0)
  {
    var r := InsertByKey(o, x);
    if |o| > 0 && LexLe(o[0].0, x.0) {
      InsertByKeyBound(o[1..], x, b);
      forall i | 0 <= i < |r| ensures LexLe(b, r[i].0) {
        if i > 0 {
          assert r[i] == InsertByKey(o[1..], x)[i - 1];
        }
      }
    } else if |o| > 0 {
      forall i | 0 <= i < |r| ensures LexLe(b, r[i].0) {
        if i > 0 {
          assert r[i] == o[i - 1];
        }
      }
    }
  }

  lemma {:induction false} InsertByKeySpec<V>(o: seq<(string, V)>, x: (string, V))
    requires KeysAscending(o)
    ensures KeysAscending(InsertByKey(o, x))
    ensures multiset(InsertByKey(o, x)) == multiset(o) + multiset{x}
  {
    InsertByKeyPerm(o, x);
    if |o| == 0 {
    } else if LexLe(o[0].0, x.0) {
      var tail := o[1..];
      InsertByKeySpec(tail, x);
      var rest := InsertByKey(tail, x);
      var r := [o[0]] + rest;
      forall k | 0 <= k < |tail| ensures LexLe(o[0].0, tail[k].0) {
        assert tail[k] == o[k + 1];
      }
      InsertByKeyBound(tail, x, o[0].0);
      forall i, j | 0 <= i < j < |r| ensures LexLe(r[i].0, r[j].0) {
        if i == 0 {
          assert r[j] == rest[j - 1];
        } else {
          assert r[i] == rest[i - 1] && r[j] == rest[j - 1];
        }
      }
    } else {
      LexTotal(o[0].0, x.0);
      var r := [x] + o;
      forall i, j | 0 <= i < j < |r| ensures LexLe(r[i].0, r[j].0) {
        if i == 0 {
          if j > 1 {
            LexTrans(x.0, o[0].0, o[j - 1].0);
          }
        } else {
          assert r[i] == o[i - 1] && r[j] == o[j - 1];
        }
      }
    }
  }

  /** `ksort` yields the same entries with keys in ascending byte order. */
  lemma {:induction false} SortByKeySpec<V>(m: seq<(string, V)>)
    ensures KeysAscending(SortByKey(m))
    ensures multiset(SortByKey(m)) == multiset(m)
  {
    if |m| > 0 {
      SortByKeySpec(m[..|m| - 1]);
      InsertByKeySpec(SortByKey(m[..|m| - 1]), m[|m| - 1]);
      assert m == m[..|m| - 1] + [m[|m| - 1]];
    }
  }
}
