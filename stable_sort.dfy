/**
 * Python's `list.sort(key=k, reverse=True)`: a stable sort into non-increasing key
 * order (records with equal keys keep their original order even with `reverse=True`).
 * Modelled by insertion sort; what it computes, not how Python computes it.
 */
module StableSort {

  predicate SortedDesc<T>(xs: seq<T>, key: T -> real) {
    forall i, j :: 0 <= i < j < |xs| ==> key(xs[i]) >= key(xs[j])
  }

  /** Puts `x` in front of the first element whose key is not above its own. */
  function Insert<T>(x: T, ys: seq<T>, key: T -> real): (r: seq<T>)
    ensures |r| == |ys| + 1
    decreases |ys|
  {
    if ys == [] || key(ys[0]) <= key(x) then [x] + ys else [ys[0]] + Insert(x, ys[1..], key)
  }

  function SortDesc<T>(xs: seq<T>, key: T -> real): (r: seq<T>)
    ensures |r| == |xs|
    decreases |xs|
  {
    if xs == [] then [] else Insert(xs[0], SortDesc(xs[1..], key), key)
  }

  /** The elements whose key is `k`, in order. */
  function WithKey<T>(xs: seq<T>, key: T -> real, k: real): seq<T>
    decreases |xs|
  {
    if xs == [] then []
    else (if key(xs[0]) == k then [xs[0]] else []) + WithKey(xs[1..], key, k)
  }

  function Map<T, U>(xs: seq<T>, f: T -> U): (r: seq<U>)
    ensures |r| == |xs| && forall i :: 0 <= i < |xs| ==> r[i] == f(xs[i])
  {
    seq(|xs|, i requires 0 <= i < |xs| => f(xs[i]))
  }

  predicate Distinct<T, U(==)>(xs: seq<T>, id: T -> U) {
    forall i, j :: 0 <= i < j < |xs| ==> id(xs[i]) != id(xs[j])
  }

  lemma {:induction false} InsertSplits<T>(x: T, ys: seq<T>, key: T -> real)
    ensures exists p :: 0 <= p <= |ys| && Insert(x, ys, key) == ys[..p] + [x] + ys[p..]
    decreases |ys|
  {
    if ys == [] || key(ys[0]) <= key(x) {
      assert Insert(x, ys, key) == ys[..0] + [x] + ys[0..];
    } else {
      InsertSplits(x, ys[1..], key);
      var p :| 0 <= p <= |ys[1..]| && Insert(x, ys[1..], key) == ys[1..][..p] + [x] + ys[1..][p..];
      assert ys[..p + 1] == [ys[0]] + ys[1..][..p];
      assert ys[p + 1..] == ys[1..][p..];
      assert Insert(x, ys, key) == ys[..p + 1] + [x] + ys[p + 1..];
    }
  }

  lemma {:induction false} InsertSorted<T>(x: T, ys: seq<T>, key: T -> real)
    requires SortedDesc(ys, key)
    ensures SortedDesc(Insert(x, ys, key), key)
    decreases |ys|
  {
    if ys != [] && key(ys[0]) > key(x) {
      InsertSorted(x, ys[1..], key);
      InsertSplits(x, ys[1..], key);
    }
  }

  lemma {:induction false} InsertPermutes<T>(x: T, ys: seq<T>, key: T -> real)
    ensures multiset(Insert(x, ys, key)) == multiset(ys) + multiset{x}
  {
    InsertSplits(x, ys, key);
    var p :| 0 <= p <= |ys| && Insert(x, ys, key) == ys[..p] + [x] + ys[p..];
    assert ys == ys[..p] + ys[p..];
  }

  lemma {:induction false} WithKeyAppend<T>(a: seq<T>, b: seq<T>, key: T -> real, k: real)
    ensures WithKey(a + b, key, k) == WithKey(a, key, k) + WithKey(b, key, k)
    decreases |a|
  {
    if a != [] {
      assert (a + b)[1..] == a[1..] + b;
      WithKeyAppend(a[1..], b, key, k);
    } else {
      assert a + b == b;
    }
  }

  lemma {:induction false} InsertWithKey<T>(x: T, ys: seq<T>, key: T -> real, k: real)
    requires SortedDesc(ys, key)
    ensures WithKey(Insert(x, ys, key), key, k) == WithKey([x] + ys, key, k)
    decreases |ys|
  {
    if ys != [] && key(ys[0]) > key(x) {
      InsertWithKey(x, ys[1..], key, k);
      var ins := Insert(x, ys, key);
      assert ins == [ys[0]] + Insert(x, ys[1..], key);
      assert ins[1..] == Insert(x, ys[1..], key);
      assert ([x] + ys)[1..] == ys;
      assert ([x] + ys[1..])[1..] == ys[1..];
      assert ([ys[0]] + ([x] + ys[1..]))[1..] == [x] + ys[1..];
      if key(x) == k {
        assert key(ys[0]) != k;
      }
    }
  }

  /** The result is in non-increasing key order. */
  lemma {:induction false} SortDescSorted<T>(xs: seq<T>, key: T -> real)
    ensures SortedDesc(SortDesc(xs, key), key)
    decreases |xs|
  {
    if xs != [] {
      SortDescSorted(xs[1..], key);
      InsertSorted(xs[0], SortDesc(xs[1..], key), key);
    }
  }

  /** The result is a permutation of the input. */
  lemma {:induction false} SortDescPermutes<T>(xs: seq<T>, key: T -> real)
    ensures multiset(SortDesc(xs, key)) == multiset(xs)
    decreases |xs|
  {
    if xs != [] {
      SortDescPermutes(xs[1..], key);
      InsertPermutes(xs[0], SortDesc(xs[1..], key), key);
      assert xs == [xs[0]] + xs[1..];
    }
  }

  /** Stability: for every key, the elements carrying it keep their input order. */
  lemma {:induction false} SortDescStable<T>(xs: seq<T>, key: T -> real, k: real)
    ensures WithKey(SortDesc(xs, key), key, k) == WithKey(xs, key, k)
    decreases |xs|
  {
    if xs != [] {
      var rest := SortDesc(xs[1..], key);
      SortDescStable(xs[1..], key, k);
      SortDescSorted(xs[1..], key);
      InsertWithKey(xs[0], rest, key, k);
      assert ([xs[0]] + rest)[1..] == rest;
    }
  }

  /** Sorting commutes with a map that keeps the keys. */
  lemma {:induction false} SortDescMap<T, U>(xs: seq<T>, key: T -> real, f: T -> U, key': U -> real)
    requires forall x :: key'(f(x)) == key(x)
    ensures Map(SortDesc(xs, key), f) == SortDesc(Map(xs, f), key')
    decreases |xs|
  {
    if xs != [] {
      SortDescMap(xs[1..], key, f, key');
      assert Map(xs, f)[1..] == Map(xs[1..], f);
      InsertMap(xs[0], SortDesc(xs[1..], key), key, f, key');
    }
  }

  lemma {:induction false} InsertMap<T, U>(x: T, ys: seq<T>, key: T -> real, f: T -> U, key': U -> real)
    requires forall x :: key'(f(x)) == key(x)
    ensures Map(Insert(x, ys, key), f) == Insert(f(x), Map(ys, f), key')
    decreases |ys|
  {
    if ys != [] && key(ys[0]) > key(x) {
      InsertMap(x, ys[1..], key, f, key');
      assert Map(ys, f)[1..] == Map(ys[1..], f);
      assert Map(Insert(x, ys, key), f) == [f(ys[0])] + Map(Insert(x, ys[1..], key), f);
    }
  }

  /** Inserting an element whose identity is new keeps the identities distinct. */
  lemma {:induction false} InsertDistinct<T, U>(x: T, ys: seq<T>, key: T -> real, id: T -> U)
    requires Distinct(ys, id) && forall k :: 0 <= k < |ys| ==> id(ys[k]) != id(x)
    ensures Distinct(Insert(x, ys, key), id)
    decreases |ys|
  {
    var r := Insert(x, ys, key);
    if ys == [] || key(ys[0]) <= key(x) {
      forall i, j | 0 <= i < j < |r| ensures id(r[i]) != id(r[j]) {
        if i > 0 {
          assert r[i] == ys[i - 1];
        }
        assert r[j] == ys[j - 1];
      }
    } else {
      var tail := ys[1..];
      InsertDistinct(x, tail, key, id);
      var t := Insert(x, tail, key);
      InsertPermutes(x, tail, key);
      assert r == [ys[0]] + t;
      forall i, j | 0 <= i < j < |r| ensures id(r[i]) != id(r[j]) {
        if i == 0 {
          assert r[j] == t[j - 1] && t[j - 1] in multiset(t);
          if t[j - 1] != x {
            assert t[j - 1] in multiset(tail);
            var m :| 0 <= m < |tail| && tail[m] == t[j - 1];
            assert ys[m + 1] == t[j - 1];
          }
        } else {
          assert r[i] == t[i - 1] && r[j] == t[j - 1];
        }
      }
    }
  }

  /** Sorting never makes two elements share an identity they did not share before. */
  lemma {:induction false} SortDescDistinct<T, U>(xs: seq<T>, key: T -> real, id: T -> U)
    requires Distinct(xs, id)
    ensures Distinct(SortDesc(xs, key), id)
    decreases |xs|
  {
    if xs != [] {
      var rest := SortDesc(xs[1..], key);
      SortDescDistinct(xs[1..], key, id);
      SortDescPermutes(xs[1..], key);
      forall k | 0 <= k < |rest| ensures id(rest[k]) != id(xs[0]) {
        assert rest[k] in multiset(rest);
        var m :| 0 <= m < |xs[1..]| && xs[1..][m] == rest[k];
        assert xs[m + 1] == rest[k];
      }
      InsertDistinct(xs[0], rest, key, id);
    }
  }
}
