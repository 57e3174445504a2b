/**
 * The stable sort by a numeric key, most recent first, that the list view
 * performs with `sort((a, b) => key(b) - key(a))`: elements with a larger key
 * come first and elements with equal keys keep their stored order.
 *
 * `SortDesc` is an insertion sort. It is characterised independently of its
 * definition: its result is `Descending`, and for every key value it keeps
 * the elements carrying that key in their original order (`WithKey`). Any
 * sequence with those two properties equals it (`SortDescCharacterized`).
 */
module StableSort {
  import opened Sequences

  /** Keys never increase from left to right. */
  predicate Descending<T>(s: seq<T>, key: T -> int)
  {
    forall i, j :: 0 <= i < j < |s| ==> key(s[i]) >= key(s[j])
  }

  /** The elements whose key is `k`, in their order in `s`. */
  function WithKey<T>(s: seq<T>, key: T -> int, k: int): seq<T>
  {
    if s == [] then []
    else if key(s[0]) == k then [s[0]] + WithKey(s[1..], key, k)
    else WithKey(s[1..], key, k)
  }

  /** Puts `x` before the first element whose key is not larger than its own. */
  function Insert<T>(x: T, s: seq<T>, key: T -> int): seq<T>
  {
    if s == [] || key(s[0]) <= key(x) then [x] + s
    else [s[0]] + Insert(x, s[1..], key)
  }

  /**
   * Stable sort, largest key first: a rearrangement of `s` (same elements,
   * each as often) whose keys never increase. That it keeps equal keys in
   * stored order is `SortDescStable`.
   */
  function SortDesc<T>(s: seq<T>, key: T -> int): (r: seq<T>)
    ensures |r| == |s|
    ensures multiset(r) == multiset(s)
    ensures Descending(r, key)
  {
    if s == [] then []
    else
      var rest := SortDesc(s[1..], key);
      InsertPermutes(s[0], rest, key);
      InsertDescending(s[0], rest, key);
      assert s == [s[0]] + s[1..];
      var r := Insert(s[0], rest, key);
      assert |multiset(r)| == |r|;
      r
  }

  /**
   * The `n` elements with the largest keys, ties in stored order (`sort` then
   * `slice(0, n)`): min(n, |s|) elements of `s`, largest key first. That no
   * element left out has a larger key is `TopNKeepsLargest`.
   */
  function TopN<T>(s: seq<T>, key: T -> int, n: nat): (r: seq<T>)
    ensures |r| == if |s| < n then |s| else n
    ensures Descending(r, key)
    ensures multiset(r) <= multiset(s)
  {
    var sorted := SortDesc(s, key);
    var r := Take(sorted, n);
    assert sorted == r + sorted[|r|..];
    assert multiset(sorted) == multiset(r) + multiset(sorted[|r|..]);
    r
  }

  lemma {:induction false} InsertPermutes<T>(x: T, s: seq<T>, key: T -> int)
    ensures multiset(Insert(x, s, key)) == multiset{x} + multiset(s)
  {
    if s == [] || key(s[0]) <= key(x) {
    } else {
      InsertPermutes(x, s[1..], key);
      assert s == [s[0]] + s[1..];
    }
  }

  lemma {:induction false} InsertDescending<T>(x: T, s: seq<T>, key: T -> int)
    requires Descending(s, key)
    ensures Descending(Insert(x, s, key), key)
  {
    if s == [] || key(s[0]) <= key(x) {
      var r := [x] + s;
      forall i, j | 0 <= i < j < |r| ensures key(r[i]) >= key(r[j]) {
        if i == 0 {
          assert key(s[0]) >= key(s[j - 1]);
        }
      }
    } else {
      var rest := Insert(x, s[1..], key);
      InsertDescending(x, s[1..], key);
      InsertPermutes(x, s[1..], key);
      var r := [s[0]] + rest;
      forall i, j | 0 <= i < j < |r| ensures key(r[i]) >= key(r[j]) {
        if i == 0 {
          var y := rest[j - 1];
          assert y in multiset(rest);
          assert y == x || y in multiset(s[1..]);
          if y != x {
            var m :| 0 <= m < |s[1..]| && s[1..][m] == y;
            assert s[m + 1] == y;
          }
        }
      }
    }
  }

  lemma {:induction false} InsertWithKey<T>(x: T, s: seq<T>, key: T -> int, k: int)
    ensures WithKey(Insert(x, s, key), key, k) == (if key(x) == k then [x] else []) + WithKey(s, key, k)
  {
    if s == [] || key(s[0]) <= key(x) {
      assert ([x] + s)[1..] == s;
    } else {
      InsertWithKey(x, s[1..], key, k);
      var r := [s[0]] + Insert(x, s[1..], key);
      assert r[1..] == Insert(x, s[1..], key);
    }
  }

  /** Stability: for each key, the elements carrying it keep their stored order. */
  lemma {:induction false} SortDescStable<T>(s: seq<T>, key: T -> int, k: int)
    ensures WithKey(SortDesc(s, key), key, k) == WithKey(s, key, k)
  {
    if s != [] {
      SortDescStable(s[1..], key, k);
      InsertWithKey(s[0], SortDesc(s[1..], key), key, k);
    }
  }

  lemma {:induction false} WithKeyMember<T>(s: seq<T>, key: T -> int, k: int, i: nat)
    requires i < |WithKey(s, key, k)|
    ensures key(WithKey(s, key, k)[i]) == k
    ensures WithKey(s, key, k)[i] in s
  {
    if key(s[0]) == k && i == 0 {
    } else if key(s[0]) == k {
      WithKeyMember(s[1..], key, k, i - 1);
    } else {
      WithKeyMember(s[1..], key, k, i);
    }
  }

  lemma WithKeyOfHead<T>(s: seq<T>, key: T -> int)
    ensures s != [] ==> WithKey(s, key, key(s[0])) == [s[0]] + WithKey(s[1..], key, key(s[0]))
  {
  }

  /**
   * Two descending sequences that agree, key by key, on which elements carry
   * that key and in which order, are equal.
   */
  lemma {:induction false} DescendingUnique<T>(a: seq<T>, b: seq<T>, key: T -> int)
    requires Descending(a, key) && Descending(b, key)
    requires forall k :: WithKey(a, key, k) == WithKey(b, key, k)
    ensures a == b
  {
    // A nonempty sequence has a nonempty filter for its first key, so both are empty or neither is.
    WithKeyOfHead(a, key);
    WithKeyOfHead(b, key);
    if a != [] && b != [] {
      var m, n := key(a[0]), key(b[0]);
      // a[0] carries key m, so some element of b does too: n >= m; and symmetrically.
      assert WithKey(a, key, m)[0] == a[0];
      WithKeyMember(b, key, m, 0);
      var y := WithKey(b, key, m)[0];
      var jb :| 0 <= jb < |b| && b[jb] == y;
      assert n >= m;
      assert WithKey(b, key, n)[0] == b[0];
      WithKeyMember(a, key, n, 0);
      var z := WithKey(a, key, n)[0];
      var ja :| 0 <= ja < |a| && a[ja] == z;
      assert m >= n;
      assert a[0] == b[0];
      forall k ensures WithKey(a[1..], key, k) == WithKey(b[1..], key, k) {
        assert WithKey(a, key, k) == WithKey(b, key, k);
        if k == m {
          assert WithKey(a, key, k) == [a[0]] + WithKey(a[1..], key, k);
          assert WithKey(b, key, k) == [b[0]] + WithKey(b[1..], key, k);
          assert WithKey(a[1..], key, k) == WithKey(a, key, k)[1..];
          assert WithKey(b[1..], key, k) == WithKey(b, key, k)[1..];
        } else {
          assert WithKey(a, key, k) == WithKey(a[1..], key, k);
          assert WithKey(b, key, k) == WithKey(b[1..], key, k);
        }
      }
      DescendingUnique(a[1..], b[1..], key);
      assert a == [a[0]] + a[1..];
      assert b == [b[0]] + b[1..];
    }
  }

  /**
   * The sort is the only arrangement that is descending and stable: whatever
   * stable sort the runtime uses, its result is `SortDesc`.
   */
  lemma SortDescCharacterized<T>(s: seq<T>, key: T -> int, r: seq<T>)
    requires Descending(r, key)
    requires forall k :: WithKey(r, key, k) == WithKey(s, key, k)
    ensures r == SortDesc(s, key)
  {
    forall k ensures WithKey(r, key, k) == WithKey(SortDesc(s, key), key, k) {
      SortDescStable(s, key, k);
    }
    DescendingUnique(r, SortDesc(s, key), key);
  }

  /** No element that `TopN` leaves out has a larger key than an element it keeps. */
  lemma TopNKeepsLargest<T>(s: seq<T>, key: T -> int, n: nat)
    ensures forall x, y :: x in TopN(s, key, n) && y in multiset(s) - multiset(TopN(s, key, n)) ==> key(x) >= key(y)
  {
    var sorted := SortDesc(s, key);
    var r := TopN(s, key, n);
    var rest := sorted[|r|..];
    assert sorted == r + rest;
    assert multiset(s) == multiset(r) + multiset(rest);
    forall x, y | x in r && y in multiset(s) - multiset(r) ensures key(x) >= key(y) {
      assert y in rest;
      var i :| 0 <= i < |r| && r[i] == x;
      var j :| 0 <= j < |rest| && rest[j] == y;
      assert sorted[i] == x && sorted[|r| + j] == y;
    }
  }

  /** Moving along a map that preserves keys commutes with insertion. */
  lemma {:induction false} InsertMap<T>(f: T -> T, x: T, s: seq<T>, key: T -> int)
    requires forall y :: key(f(y)) == key(y)
    ensures Insert(f(x), Map(f, s), key) == Map(f, Insert(x, s, key))
  {
    if s == [] || key(s[0]) <= key(x) {
      assert Map(f, [x] + s) == [f(x)] + Map(f, s);
    } else {
      InsertMap(f, x, s[1..], key);
      assert Map(f, s)[1..] == Map(f, s[1..]);
      assert Map(f, [s[0]] + Insert(x, s[1..], key)) == [f(s[0])] + Map(f, Insert(x, s[1..], key));
    }
  }

  /** Sorting depends on nothing but the keys: a key-preserving map commutes with it. */
  lemma {:induction false} SortDescMap<T>(f: T -> T, s: seq<T>, key: T -> int)
    requires forall y :: key(f(y)) == key(y)
    ensures SortDesc(Map(f, s), key) == Map(f, SortDesc(s, key))
  {
    if s != [] {
      SortDescMap(f, s[1..], key);
      assert Map(f, s)[1..] == Map(f, s[1..]);
      InsertMap(f, s[0], SortDesc(s[1..], key), key);
    }
  }

  /** Keeping the first `n` commutes with a map. */
  lemma TakeMap<A, B>(f: A -> B, s: seq<A>, n: nat)
    ensures Take(Map(f, s), n) == Map(f, Take(s, n))
  {
  }

  /** An element with a strictly larger key than everything stored before it sorts first. */
  lemma {:induction false} SortDescNewest<T>(s: seq<T>, x: T, key: T -> int)
    requires forall k :: 0 <= k < |s| ==> key(s[k]) < key(x)
    ensures SortDesc(s + [x], key) == [x] + SortDesc(s, key)
  {
    if s == [] {
      assert [] + [x] == [x];
    } else {
      assert (s + [x])[1..] == s[1..] + [x];
      SortDescNewest(s[1..], x, key);
      assert (s + [x])[0] == s[0];
    }
  }
}
