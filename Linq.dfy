/**
 * The LINQ operators the data service relies on: `FirstOrDefault` with a predicate,
 * `Max` over a selector, and the stable `OrderBy` on an integer key. (`Select` is the
 * mapping `SelectEvcc` of the data service.)
 */
module Linq {
  import opened Wrappers

  /**
   * `source.FirstOrDefault(p)`, given as the position of the element it returns:
   * the first element satisfying `p`, or `None` (the default, `null`) when none does.
   */
  function FirstIndex<T>(s: seq<T>, p: T -> bool): (r: Option<nat>)
    ensures r.Some? ==> r.value < |s| && p(s[r.value])
    ensures r.Some? ==> forall k :: 0 <= k < r.value ==> !p(s[k])
    ensures r.None? <==> forall k :: 0 <= k < |s| ==> !p(s[k])
  {
    if s == [] then None
    else if p(s[0]) then Some(0)
    else match FirstIndex(s[1..], p)
      case None => None
      case Some(i) => Some(i + 1)
  }

  /** The position characterized by "satisfies `p`, and no earlier element does" is the one `FirstIndex` returns. */
  lemma FirstIndexIs<T>(s: seq<T>, p: T -> bool, i: nat)
    requires i < |s| && p(s[i]) && forall k :: 0 <= k < i ==> !p(s[k])
    ensures FirstIndex(s, p) == Some(i)
  {
    var r := FirstIndex(s, p);
    assert r.Some?;
    assert !(r.value < i);
  }

  /** `source.Max(f)` for a value type: the greatest `f` value, or `None` where LINQ throws on an empty source. */
  function Max<T>(s: seq<T>, f: T -> real): (r: Option<real>)
    ensures r.None? <==> s == []
    ensures r.Some? ==> forall k :: 0 <= k < |s| ==> f(s[k]) <= r.value
    ensures r.Some? ==> exists k :: 0 <= k < |s| && f(s[k]) == r.value
  {
    if s == [] then None
    else match Max(s[1..], f)
      case None => Some(f(s[0]))
      case Some(m) =>
        assert forall k :: 1 <= k < |s| ==> s[k] == s[1..][k - 1];
        Some(if f(s[0]) >= m then f(s[0]) else m)
  }

  predicate SortedBy<T>(s: seq<T>, key: T -> int) {
    forall i, j :: 0 <= i < j < |s| ==> key(s[i]) <= key(s[j])
  }

  /** The elements of `s` whose key is `k`, in their order in `s`. */
  function WithKey<T>(s: seq<T>, key: T -> int, k: int): seq<T> {
    if s == [] then []
    else (if key(s[0]) == k then [s[0]] else []) + WithKey(s[1..], key, k)
  }

  /** Inserts `x` into sorted `s` in front of the first element whose key is not smaller than its own. */
  function InsertBy<T>(x: T, s: seq<T>, key: T -> int): seq<T> {
    if s == [] || key(x) <= key(s[0]) then [x] + s
    else [s[0]] + InsertBy(x, s[1..], key)
  }

  lemma {:induction false} InsertByPermutes<T>(x: T, s: seq<T>, key: T -> int)
    ensures multiset(InsertBy(x, s, key)) == multiset(s) + multiset{x}
  {
    if s != [] && key(x) > key(s[0]) {
      InsertByPermutes(x, s[1..], key);
      assert s == [s[0]] + s[1..];
    }
  }

  lemma {:induction false} InsertBySorted<T>(x: T, s: seq<T>, key: T -> int)
    requires SortedBy(s, key)
    ensures SortedBy(InsertBy(x, s, key), key)
  {
    if s != [] && key(x) > key(s[0]) {
      var t := InsertBy(x, s[1..], key);
      InsertBySorted(x, s[1..], key);
      InsertByPermutes(x, s[1..], key);
      forall j | 0 <= j < |t| ensures key(s[0]) <= key(t[j]) {
        assert t[j] in multiset(t);
        if t[j] != x {
          assert t[j] in multiset(s[1..]);
          var m :| 0 <= m < |s[1..]| && s[1..][m] == t[j];
          assert s[1..][m] == s[m + 1];
        }
      }
      assert InsertBy(x, s, key) == [s[0]] + t;
    }
  }

  lemma {:induction false} InsertByWithKey<T>(x: T, s: seq<T>, key: T -> int, k: int)
    requires SortedBy(s, key)
    ensures WithKey(InsertBy(x, s, key), key, k) == (if key(x) == k then [x] else []) + WithKey(s, key, k)
  {
    if s == [] || key(x) <= key(s[0]) {
      assert ([x] + s)[1..] == s;
    } else {
      var t := InsertBy(x, s[1..], key);
      InsertByWithKey(x, s[1..], key, k);
      assert ([s[0]] + t)[1..] == t;
    }
  }

  /**
   * `source.OrderBy(key)`: sorted ascending by `key`, a permutation of the source, and
   * stable: the elements sharing any one key keep their relative order.
   */
  function OrderBy<T>(s: seq<T>, key: T -> int): (r: seq<T>)
    ensures SortedBy(r, key)
    ensures multiset(r) == multiset(s)
    ensures forall k :: WithKey(r, key, k) == WithKey(s, key, k)
  {
    if s == [] then []
    else
      var t := OrderBy(s[1..], key);
      InsertBySorted(s[0], t, key);
      InsertByPermutes(s[0], t, key);
      assert forall k :: WithKey(InsertBy(s[0], t, key), key, k)
                         == (if key(s[0]) == k then [s[0]] else []) + WithKey(t, key, k) by {
        forall k { InsertByWithKey(s[0], t, key, k); }
      }
      assert s == [s[0]] + s[1..];
      assert multiset(s) == multiset{s[0]} + multiset(s[1..]);
      InsertBy(s[0], t, key)
  }

  lemma {:induction false} WithKeyMembers<T>(s: seq<T>, key: T -> int, k: int, x: T)
    ensures x in WithKey(s, key, k) <==> x in s && key(x) == k
  {
    if s != [] {
      WithKeyMembers(s[1..], key, k, x);
      assert s == [s[0]] + s[1..];
    }
  }

  /** Dropping the head of `r` drops it from its key's group and leaves every other group alone. */
  lemma WithKeyTail<T>(r: seq<T>, key: T -> int, k: int)
    requires r != []
    ensures WithKey(r[1..], key, k) == if key(r[0]) == k then WithKey(r, key, k)[1..] else WithKey(r, key, k)
  {
  }

  /** Two sorted sequences with the same per-key order start with the same element. */
  lemma SameHead<T>(r1: seq<T>, r2: seq<T>, key: T -> int)
    requires r1 != [] && r2 != [] && SortedBy(r1, key) && SortedBy(r2, key)
    requires forall k :: WithKey(r1, key, k) == WithKey(r2, key, k)
    ensures r1[0] == r2[0]
  {
    var m1, m2 := key(r1[0]), key(r2[0]);
    WithKeyMembers(r2, key, m2, r2[0]);
    WithKeyMembers(r1, key, m2, r2[0]);
    WithKeyMembers(r1, key, m1, r1[0]);
    WithKeyMembers(r2, key, m1, r1[0]);
    assert m1 <= m2 by {
      var j :| 0 <= j < |r1| && r1[j] == r2[0];
    }
    assert m2 <= m1 by {
      var j :| 0 <= j < |r2| && r2[j] == r1[0];
    }
    assert WithKey(r1, key, m1)[0] == r1[0];
    assert WithKey(r2, key, m1)[0] == r2[0];
  }

  /**
   * Sortedness and per-key order determine a sequence: two sorted sequences whose elements
   * of every key appear in the same order are equal. So `OrderBy`'s contract fixes its result.
   */
  lemma {:induction false} StableSortUnique<T>(r1: seq<T>, r2: seq<T>, key: T -> int)
    requires SortedBy(r1, key) && SortedBy(r2, key)
    requires forall k :: WithKey(r1, key, k) == WithKey(r2, key, k)
    ensures r1 == r2
  {
    if r1 == [] || r2 == [] {
      var r := if r1 == [] then r2 else r1;
      if r != [] {
        WithKeyMembers(r, key, key(r[0]), r[0]);
        assert WithKey(r1, key, key(r[0])) != WithKey(r2, key, key(r[0]));
      }
    } else {
      SameHead(r1, r2, key);
      forall k ensures WithKey(r1[1..], key, k) == WithKey(r2[1..], key, k) {
        WithKeyTail(r1, key, k);
        WithKeyTail(r2, key, k);
      }
      StableSortUnique(r1[1..], r2[1..], key);
      assert r1 == [r1[0]] + r1[1..] && r2 == [r2[0]] + r2[1..];
    }
  }
}
