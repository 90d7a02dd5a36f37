/** The stable sort that `Array.prototype.sort` performs since ECMAScript 2019
    (section 22.1.3.27 of ECMA-262, 10th edition), specialised to a
    comparator of the form `(a, b) => key(b) - key(a)`: descending by an
    integer key, with equal keys keeping their input order.

    `SortDesc` is the functional specification, `InsertionSortDesc` sorts an
    array in place against it, and the lemmas establish what a sort promises:
    a permutation, ordered by the key, stable. */
module ArraySort {

  /** `key` does not increase from left to right. */
  ghost predicate SortedDesc<T>(s: seq<T>, key: T -> int)
  {
    forall i, j :: 0 <= i < j < |s| ==> key(s[i]) >= key(s[j])
  }

  /** The elements of `s` whose key is `k`, in their order in `s`. */
  function WithKey<T>(s: seq<T>, key: T -> int, k: int): (r: seq<T>)
    ensures |r| <= |s|
    ensures forall x :: x in r ==> x in s && key(x) == k
  {
    if s == [] then []
    else (if key(s[0]) == k then [s[0]] else []) + WithKey(s[1..], key, k)
  }

  /** `s` and `r` hold, key by key, the same elements in the same order. */
  ghost predicate SameOrderPerKey<T>(s: seq<T>, r: seq<T>, key: T -> int)
  {
    forall k :: WithKey(r, key, k) == WithKey(s, key, k)
  }

  /** Places `x` after the elements of `t` whose key is at least `key(x)`,
      scanning from the right end of `t` as insertion sort does. */
  function InsertLast<T>(t: seq<T>, x: T, key: T -> int): seq<T>
  {
    if t == [] then [x]
    else if key(t[|t| - 1]) >= key(x) then t + [x]
    else InsertLast(t[..|t| - 1], x, key) + [t[|t| - 1]]
  }

  /** The stable descending sort of `s`: each element in turn is inserted into
      the sorted prefix before it. */
  function SortDesc<T>(s: seq<T>, key: T -> int): seq<T>
  {
    if s == [] then [] else InsertLast(SortDesc(s[..|s| - 1], key), s[|s| - 1], key)
  }

  lemma {:induction false} WithKeyAppend<T>(a: seq<T>, b: seq<T>, key: T -> int, k: int)
    ensures WithKey(a + b, key, k) == WithKey(a, key, k) + WithKey(b, key, k)
  {
    if a == [] {
      assert a + b == b;
    } else {
      assert (a + b)[0] == a[0] && (a + b)[1..] == a[1..] + b;
      WithKeyAppend(a[1..], b, key, k);
    }
  }

  /** Inserting `x` puts it at some position `p`: every element after it has a
      smaller key, and the element just before it has a key at least `key(x)`. */
  lemma {:induction false} InsertLastSplit<T>(t: seq<T>, x: T, key: T -> int) returns (p: nat)
    ensures p <= |t|
    ensures InsertLast(t, x, key) == t[..p] + [x] + t[p..]
    ensures forall i :: p <= i < |t| ==> key(t[i]) < key(x)
    ensures p > 0 ==> key(t[p - 1]) >= key(x)
  {
    if t == [] {
      p := 0;
    } else if key(t[|t| - 1]) >= key(x) {
      p := |t|;
      assert t[..p] == t;
    } else {
      var u := t[..|t| - 1];
      p := InsertLastSplit(u, x, key);
      assert u[..p] == t[..p];
      assert u[p..] + [t[|t| - 1]] == t[p..];
    }
  }

  lemma {:induction false} InsertLastPermutes<T>(t: seq<T>, x: T, key: T -> int)
    ensures |InsertLast(t, x, key)| == |t| + 1
    ensures multiset(InsertLast(t, x, key)) == multiset(t) + multiset{x}
  {
    var p := InsertLastSplit(t, x, key);
    assert t == t[..p] + t[p..];
  }

  /** Two sorted runs, every key of the first at least every key of the
      second, concatenate to a sorted run. */
  lemma SortedConcat<T>(a: seq<T>, b: seq<T>, key: T -> int)
    requires SortedDesc(a, key) && SortedDesc(b, key)
    requires forall i, j :: 0 <= i < |a| && 0 <= j < |b| ==> key(a[i]) >= key(b[j])
    ensures SortedDesc(a + b, key)
  {
    forall i, j | 0 <= i < j < |a + b|
      ensures key((a + b)[i]) >= key((a + b)[j])
    {
      if j < |a| {
        assert (a + b)[i] == a[i] && (a + b)[j] == a[j];
      } else if i < |a| {
        assert (a + b)[i] == a[i] && (a + b)[j] == b[j - |a|];
      } else {
        assert (a + b)[i] == b[i - |a|] && (a + b)[j] == b[j - |a|];
      }
    }
  }

  /** A slice of a sorted run is sorted. */
  lemma SortedSlice<T>(t: seq<T>, lo: nat, hi: nat, key: T -> int)
    requires lo <= hi <= |t| && SortedDesc(t, key)
    ensures SortedDesc(t[lo..hi], key)
  {
    forall i, j | 0 <= i < j < hi - lo ensures key(t[lo..hi][i]) >= key(t[lo..hi][j]) {
      assert t[lo..hi][i] == t[lo + i] && t[lo..hi][j] == t[lo + j];
    }
  }

  lemma {:induction false} InsertLastSorted<T>(t: seq<T>, x: T, key: T -> int)
    requires SortedDesc(t, key)
    ensures SortedDesc(InsertLast(t, x, key), key)
  {
    var p := InsertLastSplit(t, x, key);
    var lo, hi := t[..p], t[p..];
    SortedSlice(t, 0, p, key);
    SortedSlice(t, p, |t|, key);
    assert t[0..p] == lo && t[p..|t|] == hi;
    // the elements before `x` have keys at least `key(x)`
    forall i | 0 <= i < |lo| ensures key(lo[i]) >= key(x) {
      assert lo[i] == t[i] && lo[p - 1] == t[p - 1];
    }
    SortedConcat(lo, [x], key);
    // the elements after `x` have keys below `key(x)`
    forall i, j | 0 <= i < |lo + [x]| && 0 <= j < |hi|
      ensures key((lo + [x])[i]) >= key(hi[j])
    {
      assert hi[j] == t[p + j];
      if i < |lo| {
        assert (lo + [x])[i] == lo[i];
      }
    }
    SortedConcat(lo + [x], hi, key);
  }

  lemma {:induction false} InsertLastWithKey<T>(t: seq<T>, x: T, key: T -> int, k: int)
    ensures WithKey(InsertLast(t, x, key), key, k)
         == WithKey(t, key, k) + (if key(x) == k then [x] else [])
  {
    if key(x) == k {
      InsertLastWithOwnKey(t, x, key);
    } else {
      InsertLastWithOtherKey(t, x, key, k);
      assert WithKey(t, key, k) + [] == WithKey(t, key, k);
    }
  }

  lemma {:induction false} InsertLastWithOwnKey<T>(t: seq<T>, x: T, key: T -> int)
    ensures WithKey(InsertLast(t, x, key), key, key(x)) == WithKey(t, key, key(x)) + [x]
  {
    var k := key(x);
    if t == [] {
      assert WithKey([x], key, k) == [x] by {
        assert [x][1..] == [];
      }
      assert WithKey(t, key, k) + [x] == [x];
    } else if key(t[|t| - 1]) >= k {
      WithKeyAppend(t, [x], key, k);
      assert WithKey([x], key, k) == [x] by {
        assert [x][1..] == [];
      }
    } else {
      var u, y := t[..|t| - 1], t[|t| - 1];
      InsertLastWithOwnKey(u, x, key);
      assert InsertLast(t, x, key) == InsertLast(u, x, key) + [y];
      WithKeyAppend(InsertLast(u, x, key), [y], key, k);
      WithKeyLast(t, key, k);
      assert WithKey([y], key, k) == [] by {
        assert [y][1..] == [];
      }
      var wu := WithKey(u, key, k);
      assert WithKey(InsertLast(t, x, key), key, k) == wu + [x] + [];
      assert wu + [x] + [] == wu + [x];
      assert WithKey(t, key, k) == wu + [];
      assert wu + [] == wu;
    }
  }

  lemma {:induction false} InsertLastWithOtherKey<T>(t: seq<T>, x: T, key: T -> int, k: int)
    requires key(x) != k
    ensures WithKey(InsertLast(t, x, key), key, k) == WithKey(t, key, k)
  {
    if t == [] {
      assert WithKey([x], key, k) == [] by {
        assert [x][1..] == [];
      }
    } else if key(t[|t| - 1]) >= key(x) {
      WithKeyAppend(t, [x], key, k);
      assert WithKey([x], key, k) == [] by {
        assert [x][1..] == [];
      }
      assert WithKey(t, key, k) + [] == WithKey(t, key, k);
    } else {
      var u, y := t[..|t| - 1], t[|t| - 1];
      InsertLastWithOtherKey(u, x, key, k);
      assert InsertLast(t, x, key) == InsertLast(u, x, key) + [y];
      WithKeyAppend(InsertLast(u, x, key), [y], key, k);
      WithKeyLast(t, key, k);
      var wy := if key(y) == k then [y] else [];
      assert WithKey([y], key, k) == wy by {
        assert [y][1..] == [];
      }
      assert WithKey(InsertLast(t, x, key), key, k) == WithKey(u, key, k) + wy;
    }
  }

  lemma {:induction false} NoneWithKey<T>(s: seq<T>, key: T -> int, k: int)
    requires forall y :: y in s ==> key(y) != k
    ensures WithKey(s, key, k) == []
  {
    if s != [] {
      assert s[0] in s;
      assert forall y :: y in s[1..] ==> y in s;
      NoneWithKey(s[1..], key, k);
    }
  }

  lemma {:induction false} WithKeyLast<T>(s: seq<T>, key: T -> int, k: int)
    requires s != []
    ensures WithKey(s, key, k)
         == WithKey(s[..|s| - 1], key, k) + (if key(s[|s| - 1]) == k then [s[|s| - 1]] else [])
  {
    var x := s[|s| - 1];
    assert s == s[..|s| - 1] + [x];
    WithKeyAppend(s[..|s| - 1], [x], key, k);
    assert [x][1..] == [];
  }

  /** The sort is a permutation of its input. */
  lemma {:induction false} SortDescPermutes<T>(s: seq<T>, key: T -> int)
    ensures |SortDesc(s, key)| == |s|
    ensures multiset(SortDesc(s, key)) == multiset(s)
  {
    if s != [] {
      var u := s[..|s| - 1];
      SortDescPermutes(u, key);
      InsertLastPermutes(SortDesc(u, key), s[|s| - 1], key);
      assert s == u + [s[|s| - 1]];
    }
  }

  /** The sort is ordered by descending key. */
  lemma {:induction false} SortDescSorted<T>(s: seq<T>, key: T -> int)
    ensures SortedDesc(SortDesc(s, key), key)
  {
    if s != [] {
      SortDescSorted(s[..|s| - 1], key);
      InsertLastSorted(SortDesc(s[..|s| - 1], key), s[|s| - 1], key);
    }
  }

  /** The sort is stable: for every key, the elements carrying it appear in
      the output in their input order. */
  lemma {:induction false} SortDescStable<T>(s: seq<T>, key: T -> int)
    ensures SameOrderPerKey(s, SortDesc(s, key), key)
  {
    forall k {
      SortDescStableAt(s, key, k);
    }
  }

  lemma {:induction false} SortDescStableAt<T>(s: seq<T>, key: T -> int, k: int)
    ensures WithKey(SortDesc(s, key), key, k) == WithKey(s, key, k)
  {
    if s != [] {
      var u := s[..|s| - 1];
      SortDescStableAt(u, key, k);
      InsertLastWithKey(SortDesc(u, key), s[|s| - 1], key, k);
      WithKeyLast(s, key, k);
    }
  }

  /** When every element has the same key, the sort changes nothing. */
  lemma {:induction false} SortDescAllEqual<T>(s: seq<T>, key: T -> int)
    requires forall i, j :: 0 <= i < |s| && 0 <= j < |s| ==> key(s[i]) == key(s[j])
    ensures SortDesc(s, key) == s
  {
    if s != [] {
      var u := s[..|s| - 1];
      SortDescAllEqual(u, key);
      if u != [] {
        assert key(u[|u| - 1]) == key(s[|s| - 1]);
      }
      assert u + [s[|s| - 1]] == s;
    }
  }

  /** Where insertion puts `x`: after the last element whose key is at least
      `key(x)`, before the run of smaller keys that ends `t`. */
  lemma {:induction false} InsertLastAt<T>(t: seq<T>, x: T, key: T -> int, j: nat)
    requires j <= |t|
    requires forall k :: j <= k < |t| ==> key(t[k]) < key(x)
    requires j > 0 ==> key(t[j - 1]) >= key(x)
    ensures InsertLast(t, x, key) == t[..j] + [x] + t[j..]
  {
    if j < |t| {
      var u := t[..|t| - 1];
      InsertLastAt(u, x, key, j);
      assert u[..j] == t[..j];
      assert u[j..] + [t[|t| - 1]] == t[j..];
    } else {
      assert t[..j] == t;
    }
  }

  /** Selecting by one key and then by another is the same as selecting in
      the other order. */
  lemma {:induction false} WithKeyCommute<T>(s: seq<T>, k1: T -> int, v1: int, k2: T -> int, v2: int)
    ensures WithKey(WithKey(s, k1, v1), k2, v2) == WithKey(WithKey(s, k2, v2), k1, v1)
  {
    if s != [] {
      WithKeyCommute(s[1..], k1, v1, k2, v2);
      var x := s[0];
      var a := if k1(x) == v1 then [x] else [];
      var b := if k2(x) == v2 then [x] else [];
      WithKeyAppend(a, WithKey(s[1..], k1, v1), k2, v2);
      WithKeyAppend(b, WithKey(s[1..], k2, v2), k1, v1);
      assert [x][1..] == [];
    }
  }

  /** Selecting the elements with one key keeps a sequence sorted by another. */
  lemma {:induction false} WithKeyKeepsSorted<T>(s: seq<T>, key: T -> int, sel: T -> int, v: int)
    requires SortedDesc(s, key)
    ensures SortedDesc(WithKey(s, sel, v), key)
  {
    if s != [] {
      assert SortedDesc(s[1..], key) by {
        forall i, j | 0 <= i < j < |s[1..]| ensures key(s[1..][i]) >= key(s[1..][j]) {
          assert s[1..][i] == s[i + 1] && s[1..][j] == s[j + 1];
        }
      }
      WithKeyKeepsSorted(s[1..], key, sel, v);
      var rest := WithKey(s[1..], sel, v);
      forall y | y in rest ensures key(s[0]) >= key(y) {
        var j :| 0 <= j < |s[1..]| && s[1..][j] == y;
        assert y == s[j + 1];
      }
    }
  }

  /** Three stable sorts of the same sequence, by `k1`, then `k2`, then `k3`,
      order it lexicographically: by `k3`; among equal `k3`, by `k2`; among
      equal `k3` and `k2`, by `k1`; and among elements equal on all three
      keys, in the original order. */
  lemma ThreeSortsLexicographic<T>(s: seq<T>, k1: T -> int, k2: T -> int, k3: T -> int)
    ensures var r := SortDesc(SortDesc(SortDesc(s, k1), k2), k3);
      && SortedDesc(r, k3)
      && (forall c :: SortedDesc(WithKey(r, k3, c), k2))
      && (forall c, d :: SortedDesc(WithKey(WithKey(r, k3, c), k2, d), k1))
      && (forall c, d, t :: WithKey(WithKey(WithKey(r, k3, c), k2, d), k1, t)
                        == WithKey(WithKey(WithKey(s, k3, c), k2, d), k1, t))
  {
    var r1 := SortDesc(s, k1);
    var r2 := SortDesc(r1, k2);
    var r := SortDesc(r2, k3);
    SortDescSorted(r2, k3);
    forall c ensures SortedDesc(WithKey(r, k3, c), k2) {
      SortDescStableAt(r2, k3, c);
      SortDescSorted(r1, k2);
      WithKeyKeepsSorted(r2, k2, k3, c);
    }
    forall c, d ensures SortedDesc(WithKey(WithKey(r, k3, c), k2, d), k1) {
      SortDescStableAt(r2, k3, c);
      WithKeyCommute(r2, k3, c, k2, d);
      SortDescStableAt(r1, k2, d);
      SortDescSorted(s, k1);
      WithKeyKeepsSorted(r1, k1, k2, d);
      WithKeyKeepsSorted(WithKey(r1, k2, d), k1, k3, c);
    }
    forall c, d, t
      ensures WithKey(WithKey(WithKey(r, k3, c), k2, d), k1, t)
           == WithKey(WithKey(WithKey(s, k3, c), k2, d), k1, t)
    {
      SortDescStableAt(r2, k3, c);
      WithKeyCommute(r2, k3, c, k2, d);
      SortDescStableAt(r1, k2, d);
      // now the left side is WithKey(WithKey(WithKey(r1, k2, d), k3, c), k1, t)
      WithKeyCommute(WithKey(r1, k2, d), k3, c, k1, t);
      WithKeyCommute(r1, k2, d, k1, t);
      SortDescStableAt(s, k1, t);
      // now it is WithKey(WithKey(WithKey(s, k1, t), k2, d), k3, c)
      WithKeyCommute(s, k1, t, k2, d);
      WithKeyCommute(WithKey(s, k2, d), k1, t, k3, c);
      WithKeyCommute(s, k2, d, k3, c);
    }
  }

  /** Sorting an array in place, as `articles.sort(comparator)` does, by
      insertion: each element in turn is moved left past the elements of the
      sorted prefix that have a smaller key. */
  method InsertionSortDesc<T>(a: array<T>, key: T -> int)
    modifies a
    ensures a[..] == SortDesc(old(a[..]), key)
  {
    ghost var s := a[..];
    var i := 0;
    while i < a.Length
      invariant 0 <= i <= a.Length
      invariant a[..i] == SortDesc(s[..i], key)
      invariant a[i..] == s[i..]
    {
      ghost var before := a[..];
      assert before[i] == s[i] && before[i + 1..] == s[i + 1..] by {
        assert before[i..] == s[i..];
        assert before[i + 1..] == before[i..][1..] && s[i + 1..] == s[i..][1..];
      }
      InsertAt(a, i, key);
      assert a[i + 1..] == s[i + 1..];
      assert s[..i + 1][..i] == s[..i];
      i := i + 1;
    }
    assert s[..a.Length] == s;
    assert a[..a.Length] == a[..];
  }

  /** One step of insertion sort: `a[i]` is inserted into the sorted prefix
      `a[..i]`, shifting the elements with a smaller key one place right. */
  method InsertAt<T>(a: array<T>, i: nat, key: T -> int)
    requires i < a.Length
    modifies a
    ensures a[..i + 1] == InsertLast(old(a[..i]), old(a[i]), key)
    ensures a[i + 1..] == old(a[i + 1..])
  {
    var x := a[i];
    var kx := key(x);
    ghost var t := a[..i];
    var j := i;
    while j > 0 && key(a[j - 1]) < kx
      invariant 0 <= j <= i
      invariant forall k :: 0 <= k < j ==> a[k] == t[k]
      invariant forall k :: j < k <= i ==> a[k] == t[k - 1]
      invariant forall k :: i < k < a.Length ==> a[k] == old(a[k])
      invariant forall k :: j <= k < i ==> key(t[k]) < kx
    {
      a[j] := a[j - 1];
      j := j - 1;
    }
    a[j] := x;
    InsertLastAt(t, x, key, j);
    assert a[..i + 1] == t[..j] + [x] + t[j..];
  }
}
