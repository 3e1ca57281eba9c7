/**
  A model of the library function `sorted(xs, key=f)`, once every key has been
  computed: a stable insertion sort. Only its result is modelled, not the
  library's algorithm.
*/
module KeySort {
  import opened Wrappers

  /**
    Computes `f` on each element in order, stopping at the first error, as
    `sorted` computes all keys before it compares any: the result is every
    value, or the error of the first element on which `f` fails.
  */
  function MapResults<T, V, E>(s: seq<T>, f: T -> Result<V, E>): (r: Result<seq<V>, E>)
    ensures r.Ok? <==> forall i :: 0 <= i < |s| ==> f(s[i]).Ok?
    ensures r.Ok? ==> |r.value| == |s| && forall i :: 0 <= i < |s| ==> r.value[i] == f(s[i]).value
    ensures r.Err? ==> exists i :: 0 <= i < |s| && f(s[i]) == Err(r.error) && forall j :: 0 <= j < i ==> f(s[j]).Ok?
  {
    if s == [] then Ok([])
    else match f(s[0])
      case Err(e) => Err(e)
      case Ok(v) =>
        match MapResults(s[1..], f)
        case Err(e) =>
          ghost var i :| 0 <= i < |s| - 1 && f(s[1..][i]) == Err(e) && forall j :: 0 <= j < i ==> f(s[1..][j]).Ok?;
          assert f(s[i + 1]) == Err(e) && forall j :: 0 <= j < i + 1 ==> f(s[j]).Ok?;
          Err(e)
        case Ok(vs) => Ok([v] + vs)
  }

  /** The keys of `s` never decrease from left to right. */
  predicate SortedBy<T(==)>(s: seq<T>, key: T -> int)
  {
    forall i, j :: 0 <= i < j < |s| ==> key(s[i]) <= key(s[j])
  }

  /** The first element of a sorted list has the least key. */
  lemma HeadLeast<T>(s: seq<T>, key: T -> int, x: T)
    requires SortedBy(s, key) && x in s
    ensures key(s[0]) <= key(x)
  {
    var k :| 0 <= k < |s| && s[k] == x;
    if k > 0 {
      assert key(s[0]) <= key(s[k]);
    }
  }

  /** A least element in front of a sorted list keeps it sorted. */
  lemma ConsSorted<T>(h: T, t: seq<T>, key: T -> int)
    requires SortedBy(t, key)
    requires forall y :: y in t ==> key(h) <= key(y)
    ensures SortedBy([h] + t, key)
  {
    var r := [h] + t;
    forall i, j | 0 <= i < j < |r| ensures key(r[i]) <= key(r[j]) {
      assert r[j] == t[j - 1];
      if i > 0 {
        assert r[i] == t[i - 1];
      }
    }
  }

  /**
    Inserts `x` into the sorted list `s` in front of the first element whose key
    is not smaller, so that among equal keys the inserted element comes first.
  */
  function Insert<T(==)>(x: T, s: seq<T>, key: T -> int): (r: seq<T>)
    requires SortedBy(s, key)
    ensures multiset(r) == multiset(s) + multiset{x}
    ensures SortedBy(r, key)
  {
    if s == [] || key(x) <= key(s[0]) then
      InsertInFront(x, s, key);
      [x] + s
    else
      var rest := Insert(x, s[1..], key);
      InsertBehind(x, s, key, rest);
      [s[0]] + rest
  }

  lemma InsertInFront<T>(x: T, s: seq<T>, key: T -> int)
    requires SortedBy(s, key)
    requires s == [] || key(x) <= key(s[0])
    ensures SortedBy([x] + s, key)
  {
    forall y | y in s ensures key(x) <= key(y) {
      HeadLeast(s, key, y);
    }
    ConsSorted(x, s, key);
  }

  lemma InsertBehind<T>(x: T, s: seq<T>, key: T -> int, rest: seq<T>)
    requires SortedBy(s, key)
    requires s != [] && key(s[0]) < key(x)
    requires multiset(rest) == multiset(s[1..]) + multiset{x}
    requires SortedBy(rest, key)
    ensures multiset([s[0]] + rest) == multiset(s) + multiset{x}
    ensures SortedBy([s[0]] + rest, key)
  {
    forall y | y in rest ensures key(s[0]) <= key(y) {
      assert y in multiset(rest);
      if y != x {
        assert y in s[1..];
        HeadLeast(s, key, y);
      }
    }
    ConsSorted(s[0], rest, key);
    assert s == [s[0]] + s[1..];
  }

  /** `sorted(s, key=key)`: a permutation of `s` whose keys never decrease. */
  function InsertionSort<T(==)>(s: seq<T>, key: T -> int): (r: seq<T>)
    ensures multiset(r) == multiset(s)
    ensures SortedBy(r, key)
  {
    if s == [] then []
    else
      assert s == [s[0]] + s[1..];
      Insert(s[0], InsertionSort(s[1..], key), key)
  }

  /** The elements of `s` whose key is `v`, in their order in `s`. */
  function WithKey<T>(s: seq<T>, key: T -> int, v: int): seq<T>
  {
    if s == [] then [] else (if key(s[0]) == v then [s[0]] else []) + WithKey(s[1..], key, v)
  }

  /**
    Among the elements with any one key, `Insert` places `x` first and keeps the
    others in their order.
  */
  lemma {:induction false} InsertWithKey<T>(x: T, s: seq<T>, key: T -> int, v: int)
    requires SortedBy(s, key)
    ensures WithKey(Insert(x, s, key), key, v) == (if key(x) == v then [x] else []) + WithKey(s, key, v)
  {
    if s == [] || key(x) <= key(s[0]) {
      assert ([x] + s)[1..] == s;
    } else {
      var rest := Insert(x, s[1..], key);
      assert SortedBy(s[1..], key);
      InsertWithKey(x, s[1..], key, v);
      assert ([s[0]] + rest)[1..] == rest;
    }
  }

  /**
    The sort is stable: for every key, the elements with that key appear in the
    result in the same order as in the input.
  */
  lemma {:induction false} InsertionSortStable<T>(s: seq<T>, key: T -> int)
    ensures forall v :: WithKey(InsertionSort(s, key), key, v) == WithKey(s, key, v)
  {
    if s != [] {
      InsertionSortStable(s[1..], key);
      forall v ensures WithKey(InsertionSort(s, key), key, v) == WithKey(s, key, v) {
        InsertWithKey(s[0], InsertionSort(s[1..], key), key, v);
      }
    }
  }

  /** Keys that strictly increase grow by at least one per position. */
  lemma {:induction false} StrictGap<T>(s: seq<T>, key: T -> int, i: nat, j: nat)
    requires forall a, b :: 0 <= a < b < |s| ==> key(s[a]) < key(s[b])
    requires i <= j < |s|
    ensures key(s[j]) - key(s[i]) >= j - i
  {
    if i < j {
      StrictGap(s, key, i, j - 1);
      assert key(s[j - 1]) < key(s[j]);
    }
  }

  /**
    A sorted list whose keys are pairwise different and all lie in `[0, |s|)`
    holds the element with key `k` at index `k`.
  */
  lemma KeysAreIndices<T>(s: seq<T>, key: T -> int)
    requires SortedBy(s, key)
    requires forall a, b :: 0 <= a < b < |s| ==> key(s[a]) != key(s[b])
    requires forall x :: x in s ==> 0 <= key(x) < |s|
    ensures forall k :: 0 <= k < |s| ==> key(s[k]) == k
  {
    forall k | 0 <= k < |s| ensures key(s[k]) == k {
      StrictGap(s, key, 0, k);
      StrictGap(s, key, k, |s| - 1);
      assert s[0] in s && s[|s| - 1] in s;
    }
  }
}
