/** Sequence model of the kernel's ordered-list utility, as the synchronization
    primitives use it: insertion ordered by a comparator, full re-sort, pop of the
    front element and removal by identity.

    A comparator follows the `list_less_func` convention: `less(a, b)` holds when
    `a` must be placed in front of `b`. */
module OrderedList {

  /** `less` is irreflexive and transitive on the elements of `q`. */
  ghost predicate StrictOrderOn<T>(less: (T, T) -> bool, q: seq<T>) {
    && (forall a :: a in q ==> !less(a, a))
    && (forall a, b, c :: a in q && b in q && c in q && less(a, b) && less(b, c) ==> less(a, c))
  }

  /** No element stands behind an element it must precede. */
  ghost predicate Sorted<T>(q: seq<T>, less: (T, T) -> bool) {
    forall i, j :: 0 <= i < j < |q| ==> !less(q[j], q[i])
  }

  /** The position in front of the first element that `x` must precede. */
  function InsertionPoint<T>(q: seq<T>, x: T, less: (T, T) -> bool): (k: nat)
    ensures k <= |q|
    ensures forall i :: 0 <= i < k ==> !less(x, q[i])
    ensures k < |q| ==> less(x, q[k])
  {
    if q == [] || less(x, q[0]) then 0 else 1 + InsertionPoint(q[1..], x, less)
  }

  /** list_insert_ordered: walks the list and links `x` in front of the first
      element `e` with `less(x, e)`, or at the back when there is none. */
  function InsertOrdered<T>(q: seq<T>, x: T, less: (T, T) -> bool): (r: seq<T>)
    ensures |r| == |q| + 1
  {
    if q == [] then [x]
    else if less(x, q[0]) then [x] + q
    else [q[0]] + InsertOrdered(q[1..], x, less)
  }

  /** Insertion adds exactly the one element and loses none. */
  lemma {:induction false} InsertOrderedMultiset<T>(q: seq<T>, x: T, less: (T, T) -> bool)
    ensures multiset(InsertOrdered(q, x, less)) == multiset(q) + multiset{x}
  {
    if q != [] && !less(x, q[0]) {
      InsertOrderedMultiset(q[1..], x, less);
      assert q == [q[0]] + q[1..];
    }
  }

  /** The inserted element lands exactly at the insertion point, with the
      elements in front of and behind it in their old order. */
  lemma {:induction false} InsertOrderedAt<T>(q: seq<T>, x: T, less: (T, T) -> bool)
    ensures InsertOrdered(q, x, less)
         == q[..InsertionPoint(q, x, less)] + [x] + q[InsertionPoint(q, x, less)..]
  {
    if q != [] && !less(x, q[0]) {
      InsertOrderedAt(q[1..], x, less);
      var k := InsertionPoint(q[1..], x, less);
      assert InsertionPoint(q, x, less) == k + 1;
      assert q[..k + 1] == [q[0]] + q[1..][..k];
      assert q[k + 1..] == q[1..][k..];
    }
  }

  /** list_sort: a stable insertion sort built from InsertOrdered. */
  function Sort<T>(q: seq<T>, less: (T, T) -> bool): (r: seq<T>)
    ensures multiset(r) == multiset(q)
    decreases |q|
  {
    if q == [] then []
    else
      var p, x := q[..|q| - 1], q[|q| - 1];
      InsertOrderedMultiset(Sort(p, less), x, less);
      assert q == p + [x];
      InsertOrdered(Sort(p, less), x, less)
  }

  /** list_remove: unlinks the first occurrence of `x`; a list without `x` is unchanged. */
  function Remove<T(==)>(q: seq<T>, x: T): (r: seq<T>)
    ensures x in q ==> |r| == |q| - 1
    ensures x !in q ==> r == q
  {
    if q == [] then []
    else if q[0] == x then q[1..]
    else [q[0]] + Remove(q[1..], x)
  }

  /** Removal takes out exactly one copy of a present element and nothing else. */
  lemma {:induction false} RemoveMultiset<T>(q: seq<T>, x: T)
    requires x in q
    ensures multiset(Remove(q, x)) == multiset(q) - multiset{x}
  {
    assert q == [q[0]] + q[1..];
    if q[0] != x {
      RemoveMultiset(q[1..], x);
    }
  }

  /** Insertion with a strict order keeps an ordered list ordered. */
  lemma {:induction false} InsertOrderedKeepsSorted<T>(q: seq<T>, x: T, less: (T, T) -> bool)
    requires StrictOrderOn(less, q + [x])
    requires Sorted(q, less)
    ensures Sorted(InsertOrdered(q, x, less), less)
  {
    var k := InsertionPoint(q, x, less);
    var r := InsertOrdered(q, x, less);
    InsertOrderedAt(q, x, less);
    assert x in q + [x];
    forall i, j | 0 <= i < j < |r| ensures !less(r[j], r[i]) {
      if i != k && j != k {
        assert r[i] == q[if i < k then i else i - 1] && r[j] == q[if j < k then j else j - 1];
      } else if i == k {
        assert r[i] == x && r[j] == q[j - 1] && less(x, q[k]);
        assert q[j - 1] in q + [x] && q[k] in q + [x];
        if j - 1 > k {
          assert !less(q[j - 1], q[k]);
        }
      } else {
        assert j == k && r[j] == x && r[i] == q[i];
      }
    }
  }

  /** The sort's result is ordered whenever the comparator is a strict order. */
  lemma {:induction false} SortSorted<T>(q: seq<T>, less: (T, T) -> bool)
    requires StrictOrderOn(less, q)
    ensures Sorted(Sort(q, less), less)
    decreases |q|
  {
    if q != [] {
      var p := q[..|q| - 1];
      assert StrictOrderOn(less, p) by {
        forall a | a in p ensures a in q { }
      }
      SortSorted(p, less);
      var s := Sort(p, less);
      assert StrictOrderOn(less, s + [q[|q| - 1]]) by {
        assert multiset(s) == multiset(p);
        forall a | a in s + [q[|q| - 1]] ensures a in q {
          if a in s {
            assert a in multiset(p);
          }
        }
      }
      InsertOrderedKeepsSorted(s, q[|q| - 1], less);
    }
  }

  /** An element that precedes nothing in the list is linked at the back. */
  lemma {:induction false} InsertOrderedAtBack<T>(q: seq<T>, x: T, less: (T, T) -> bool)
    requires forall i :: 0 <= i < |q| ==> !less(x, q[i])
    ensures InsertOrdered(q, x, less) == q + [x]
  {
    if q != [] {
      InsertOrderedAtBack(q[1..], x, less);
      assert q == [q[0]] + q[1..];
    }
  }

  /** Sorting an ordered list leaves it as it is, so a re-sort never disturbs
      an order that is still valid. */
  lemma {:induction false} SortOfSorted<T>(q: seq<T>, less: (T, T) -> bool)
    requires Sorted(q, less)
    ensures Sort(q, less) == q
    decreases |q|
  {
    if q != [] {
      var p, x := q[..|q| - 1], q[|q| - 1];
      assert Sorted(p, less);
      SortOfSorted(p, less);
      InsertOrderedAtBack(p, x, less);
      assert p + [x] == q;
    }
  }

  /** Removing an element keeps an ordered list ordered. */
  lemma {:induction false} RemoveKeepsSorted<T>(q: seq<T>, x: T, less: (T, T) -> bool)
    requires Sorted(q, less)
    ensures Sorted(Remove(q, x), less)
  {
    if q != [] && q[0] != x {
      assert Sorted(q[1..], less);
      RemoveKeepsSorted(q[1..], x, less);
      var r := Remove(q[1..], x);
      forall j | 0 <= j < |r| ensures !less(r[j], q[0]) {
        RemoveIsSubsequence(q[1..], x, j);
      }
    }
  }

  /** Every element left after a removal comes from behind the same or an earlier position. */
  lemma {:induction false} RemoveIsSubsequence<T>(q: seq<T>, x: T, j: nat)
    requires j < |Remove(q, x)|
    ensures exists i :: j <= i < |q| && Remove(q, x)[j] == q[i]
  {
    if q != [] && q[0] != x && j > 0 {
      RemoveIsSubsequence(q[1..], x, j - 1);
      var i :| j - 1 <= i < |q[1..]| && Remove(q[1..], x)[j - 1] == q[1..][i];
      assert Remove(q, x)[j] == q[i + 1];
    } else if q != [] && q[0] == x {
      assert Remove(q, x)[j] == q[j + 1];
    } else {
      assert Remove(q, x)[j] == q[j];
    }
  }

  /** The comparator of a list kept with the largest key in front (the shape of
      both priority comparators): `a` precedes `b` when its key is larger. */
  function Greater<T>(key: map<T, int>): (T, T) -> bool {
    (a: T, b: T) => a in key && b in key && key[a] > key[b]
  }

  /** Every element of `q` has a key. */
  ghost predicate Keyed<T>(q: seq<T>, key: map<T, int>) {
    forall x :: x in q ==> x in key
  }

  /** Keys never increase from the front to the back. */
  ghost predicate Descending<T>(q: seq<T>, key: map<T, int>)
    requires Keyed(q, key)
  {
    forall i, j :: 0 <= i < j < |q| ==> key[q[i]] >= key[q[j]]
  }

  /** For keyed elements, being ordered by Greater means descending keys. */
  lemma SortedGreaterIsDescending<T>(q: seq<T>, key: map<T, int>)
    requires Keyed(q, key)
    ensures Sorted(q, Greater(key)) <==> Descending(q, key)
  {
    if Sorted(q, Greater(key)) {
      forall i, j | 0 <= i < j < |q| ensures key[q[i]] >= key[q[j]] {
        assert !Greater(key)(q[j], q[i]);
      }
    }
  }

  /** Insertion by Greater keeps a descending list descending. */
  lemma InsertGreaterKeepsDescending<T>(q: seq<T>, x: T, key: map<T, int>)
    requires Keyed(q, key) && x in key && Descending(q, key)
    ensures Keyed(InsertOrdered(q, x, Greater(key)), key)
    ensures Descending(InsertOrdered(q, x, Greater(key)), key)
  {
    var r := InsertOrdered(q, x, Greater(key));
    InsertOrderedMultiset(q, x, Greater(key));
    assert Keyed(r, key) by {
      forall y | y in r ensures y in key {
        assert y in multiset(r);
      }
    }
    SortedGreaterIsDescending(q, key);
    InsertOrderedKeepsSorted(q, x, Greater(key));
    SortedGreaterIsDescending(r, key);
  }

  /** Sorting by Greater gives a descending list whose front has the largest key. */
  lemma SortGreaterFrontIsMax<T>(q: seq<T>, key: map<T, int>)
    requires Keyed(q, key)
    ensures Keyed(Sort(q, Greater(key)), key)
    ensures Descending(Sort(q, Greater(key)), key)
    ensures q != [] ==> forall x :: x in q ==> key[Sort(q, Greater(key))[0]] >= key[x]
  {
    var r := Sort(q, Greater(key));
    assert Keyed(r, key) by {
      forall y | y in r ensures y in key {
        assert y in multiset(r);
      }
    }
    SortSorted(q, Greater(key));
    SortedGreaterIsDescending(r, key);
    if q != [] {
      forall x | x in q ensures key[r[0]] >= key[x] {
        assert x in multiset(r);
        var j :| 0 <= j < |r| && r[j] == x;
        if j > 0 { }
      }
    }
  }

  /** The key of the front element once `q` is sorted by Greater: no element
      of `q` has a larger key. */
  function TopKey<T>(q: seq<T>, key: map<T, int>): (k: int)
    requires q != [] && Keyed(q, key)
    ensures forall x :: x in q ==> k >= key[x]
  {
    SortGreaterFrontIsMax(q, key);
    assert |Sort(q, Greater(key))| == |multiset(q)|;
    key[Sort(q, Greater(key))[0]]
  }

  /** The top key belongs to an element of `q`: the one sorted to the front. */
  lemma TopKeyIsAttained<T>(q: seq<T>, key: map<T, int>)
    requires q != [] && Keyed(q, key)
    ensures Sort(q, Greater(key))[0] in q
    ensures key[Sort(q, Greater(key))[0]] == TopKey(q, key)
  {
    var s := Sort(q, Greater(key));
    assert |s| == |multiset(q)|;
    assert s[0] in multiset(q);
  }
}
