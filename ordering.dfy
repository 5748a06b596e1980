/** Parent-before-child loading order: node descriptors are stably sorted by
    their loading order before they are saved, so that a parent is rebuilt
    before its children on load. */
module Ordering {
  import opened Seqs
  import opened PersistentGameObjects

  /** A sort key compared lexicographically (`OrderBy(major).ThenBy(minor)`). */
  datatype Key = Key(major: int, minor: int)

  predicate Le(a: Key, b: Key) {
    a.major < b.major || (a.major == b.major && a.minor <= b.minor)
  }

  /** Ascending by key. */
  predicate SortedBy<T>(s: seq<T>, key: T -> Key) {
    forall i, j :: 0 <= i < j < |s| ==> Le(key(s[i]), key(s[j]))
  }

  /** Inserts `x` after every element whose key is not greater than its own. */
  function Insert<T>(r: seq<T>, x: T, key: T -> Key): (out: seq<T>)
    ensures multiset(out) == multiset(r) + multiset{x}
    ensures |out| == |r| + 1
    ensures SortedBy(r, key) ==> SortedBy(out, key)
  {
    if |r| == 0 then [x]
    else
      var m := |r| - 1;
      if Le(key(r[m]), key(x)) then
        assert r == r[..m] + [r[m]];
        r + [x]
      else
        var front := Insert(r[..m], x, key);
        assert r == r[..m] + [r[m]];
        InsertBelow(r, x, key, front);
        front + [r[m]]
  }

  /** The recursive case of `Insert` appends the old last element after a
      sorted front whose elements all come from `r` or are `x`. */
  lemma InsertBelow<T>(r: seq<T>, x: T, key: T -> Key, front: seq<T>)
    requires |r| > 0 && !Le(key(r[|r| - 1]), key(x))
    requires SortedBy(r[..|r| - 1], key) ==> SortedBy(front, key)
    requires multiset(front) == multiset(r[..|r| - 1]) + multiset{x}
    ensures SortedBy(r, key) ==> SortedBy(front + [r[|r| - 1]], key)
  {
    var m := |r| - 1;
    if !SortedBy(r, key) {
      return;
    }
    assert SortedBy(r[..m], key);
    forall i | 0 <= i < |front|
      ensures Le(key(front[i]), key(r[m]))
    {
      assert front[i] in multiset(front);
      if front[i] != x {
        assert front[i] in r[..m];
      }
    }
  }

  /** `OrderBy(key)`: a stable sort, written as insertion of each element in
      turn into the sorted prefix. */
  function SortBy<T>(s: seq<T>, key: T -> Key): (r: seq<T>)
    ensures SortedBy(r, key)
    ensures multiset(r) == multiset(s)
  {
    if |s| == 0 then []
    else
      var n := |s| - 1;
      assert s == s[..n] + [s[n]];
      Insert(SortBy(s[..n], key), s[n], key)
  }

  /** The elements with key `k`, in order. */
  function WithKey<T(!new)>(s: seq<T>, key: T -> Key, k: Key): seq<T> {
    Filter(s, y => key(y) == k)
  }

  lemma {:induction false} FilterConcat<T(!new)>(a: seq<T>, b: seq<T>, p: T -> bool)
    ensures Filter(a + b, p) == Filter(a, p) + Filter(b, p)
  {
    if |a| == 0 {
      assert a + b == b;
    } else {
      assert (a + b)[0] == a[0];
      assert (a + b)[1..] == a[1..] + b;
      FilterConcat(a[1..], b, p);
    }
  }

  /** `WithKey` distributes over concatenation. */
  lemma WithKeyConcat<T(!new)>(a: seq<T>, b: seq<T>, key: T -> Key, k: Key)
    ensures WithKey(a + b, key, k) == WithKey(a, key, k) + WithKey(b, key, k)
  {
    FilterConcat(a, b, y => key(y) == k);
  }

  lemma WithKeySingleton<T(!new)>(x: T, key: T -> Key, k: Key)
    ensures WithKey([x], key, k) == if key(x) == k then [x] else []
  {
    assert [x][1..] == [];
  }

  /** Inserting into a sorted sequence keeps every element of equal key
      before the inserted one. */
  lemma {:induction false} InsertStable<T(!new)>(r: seq<T>, x: T, key: T -> Key, k: Key)
    requires SortedBy(r, key)
    ensures WithKey(Insert(r, x, key), key, k) == WithKey(r, key, k) + (if key(x) == k then [x] else [])
  {
    if |r| == 0 {
      assert Insert(r, x, key) == [x];
      WithKeySingleton(x, key, k);
      assert WithKey(r, key, k) == [];
    } else {
      var m := |r| - 1;
      var last := r[m];
      if Le(key(last), key(x)) {
        assert Insert(r, x, key) == r + [x];
        SnocWithKey(r + [x], key, k);
        assert (r + [x])[..|r|] == r;
      } else {
        var front := Insert(r[..m], x, key);
        assert Insert(r, x, key) == front + [last];
        assert SortedBy(r[..m], key);
        InsertStable(r[..m], x, key, k);
        SnocWithKey(front + [last], key, k);
        assert (front + [last])[..|front|] == front;
        SnocWithKey(r, key, k);
      }
    }
  }

  /** `SortBy` is stable: the elements of each key keep their order. */
  lemma {:induction false} SortByStable<T(!new)>(s: seq<T>, key: T -> Key, k: Key)
    ensures WithKey(SortBy(s, key), key, k) == WithKey(s, key, k)
  {
    if |s| == 0 {
      assert SortBy(s, key) == [];
    } else {
      var n := |s| - 1;
      var x := s[n];
      var sorted := SortBy(s[..n], key);
      SortByStable(s[..n], key, k);
      InsertStable(sorted, x, key, k);
      SnocWithKey(s, key, k);
      assert SortBy(s, key) == Insert(sorted, x, key);
    }
  }

  lemma SnocWithKey<T(!new)>(s: seq<T>, key: T -> Key, k: Key)
    requires |s| > 0
    ensures WithKey(s, key, k) == WithKey(s[..|s| - 1], key, k) + (if key(s[|s| - 1]) == k then [s[|s| - 1]] else [])
  {
    var n := |s| - 1;
    assert s == s[..n] + [s[n]];
    WithKeyConcat(s[..n], [s[n]], key, k);
    WithKeySingleton(s[n], key, k);
  }

  /** The key of a loading order: `x` first, then `y`. */
  function LoadingKey(o: LoadingOrder): Key {
    Key(o.x, o.y)
  }

  /** `OrderPersistentGameObjectsByLoadingOrder`: node descriptors sorted
      ascending by `loadingOrder.x`, then `loadingOrder.y`, keeping the
      order of equal keys. */
  function OrderPersistentGameObjectsByLoadingOrder<T>(zSavers: seq<T>, data: T -> GameObjectData): (r: seq<T>)
    ensures SortedBy(r, d => LoadingKey(data(d).loadingOrder))
    ensures multiset(r) == multiset(zSavers)
  {
    SortBy(zSavers, d => LoadingKey(data(d).loadingOrder))
  }

  /** The legacy sort keys on a single integer loading order. */
  function LegacyOrderByLoadingOrder<T>(zSavers: seq<T>, loadingOrder: T -> int): (r: seq<T>)
    ensures forall i, j :: 0 <= i < j < |r| ==> loadingOrder(r[i]) <= loadingOrder(r[j])
    ensures multiset(r) == multiset(zSavers)
  {
    SortBy(zSavers, d => Key(loadingOrder(d), 0))
  }

  /** Both sorts keep the relative order of descriptors with equal keys. */
  lemma LoadingOrderStable<T(!new)>(zSavers: seq<T>, data: T -> GameObjectData, o: LoadingOrder)
    ensures Filter(OrderPersistentGameObjectsByLoadingOrder(zSavers, data), d => data(d).loadingOrder == o)
         == Filter(zSavers, d => data(d).loadingOrder == o)
  {
    var key := d => LoadingKey(data(d).loadingOrder);
    SortByStable(zSavers, key, LoadingKey(o));
    FilterSame(SortBy(zSavers, key), d => key(d) == LoadingKey(o), d => data(d).loadingOrder == o);
    FilterSame(zSavers, d => key(d) == LoadingKey(o), d => data(d).loadingOrder == o);
  }

  lemma LegacyOrderStable<T(!new)>(zSavers: seq<T>, loadingOrder: T -> int, o: int)
    ensures Filter(LegacyOrderByLoadingOrder(zSavers, loadingOrder), d => loadingOrder(d) == o)
         == Filter(zSavers, d => loadingOrder(d) == o)
  {
    var key := d => Key(loadingOrder(d), 0);
    SortByStable(zSavers, key, Key(o, 0));
    FilterSame(SortBy(zSavers, key), d => key(d) == Key(o, 0), d => loadingOrder(d) == o);
    FilterSame(zSavers, d => key(d) == Key(o, 0), d => loadingOrder(d) == o);
  }

  /** Filtering by two predicates that agree gives the same result. */
  lemma {:induction false} FilterSame<T(!new)>(s: seq<T>, p: T -> bool, q: T -> bool)
    requires forall x :: p(x) == q(x)
    ensures Filter(s, p) == Filter(s, q)
  {
    if |s| > 0 {
      FilterSame(s[1..], p, q);
    }
  }
}
