/**
 * The orderings the view layer uses: a two-level key compared
 * lexicographically, as Comparator.comparing(..).thenComparing(..) builds,
 * and a stable sort by such a key, as Stream.sorted performs.
 */
module Sorting {

  /** A sort key: the major component first, then the minor one. */
  datatype Key = Key(major: int, minor: int)

  predicate KeyLt(a: Key, b: Key) {
    a.major < b.major || (a.major == b.major && a.minor < b.minor)
  }

  predicate KeyLe(a: Key, b: Key) {
    !KeyLt(b, a)
  }

  /** Integer.compare: -1, 0 or 1 as a is below, equal to or above b. */
  function IntCompare(a: int, b: int): int {
    if a < b then -1 else if a == b then 0 else 1
  }

  /** The lexicographic comparison of two keys. */
  function CompareKeys(a: Key, b: Key): (r: int)
    ensures r == -1 <==> KeyLt(a, b)
    ensures r == 0 <==> a == b
    ensures r == 1 <==> KeyLt(b, a)
  {
    var c := IntCompare(a.major, b.major);
    if c != 0 then c else IntCompare(a.minor, b.minor)
  }

  predicate SortedBy<T>(xs: seq<T>, key: T -> Key) {
    forall i, j :: 0 <= i < j < |xs| ==> KeyLe(key(xs[i]), key(xs[j]))
  }

  /** Inserts x after every element whose key is not above x's. */
  function Insert<T>(x: T, xs: seq<T>, key: T -> Key): (r: seq<T>)
    ensures |r| == |xs| + 1
    decreases |xs|
  {
    if xs == [] then [x]
    else if KeyLt(key(x), key(xs[0])) then [x] + xs
    else [xs[0]] + Insert(x, xs[1..], key)
  }

  /** Insertion adds exactly x. */
  lemma {:induction false} InsertPermutes<T>(x: T, xs: seq<T>, key: T -> Key)
    ensures multiset(Insert(x, xs, key)) == multiset(xs) + multiset{x}
    decreases |xs|
  {
    if xs != [] && !KeyLt(key(x), key(xs[0])) {
      InsertPermutes(x, xs[1..], key);
      assert xs == [xs[0]] + xs[1..];
    }
  }

  lemma SortedTail<T>(xs: seq<T>, key: T -> Key)
    requires xs != [] && SortedBy(xs, key)
    ensures SortedBy(xs[1..], key)
  {
    var tail := xs[1..];
    forall i, j | 0 <= i < j < |tail| ensures KeyLe(key(tail[i]), key(tail[j])) {
      assert tail[i] == xs[i + 1] && tail[j] == xs[j + 1];
    }
  }

  /** A lower bound of x and of every element stays a lower bound after the insertion. */
  lemma {:induction false} InsertLowerBound<T>(x: T, xs: seq<T>, key: T -> Key, b: Key)
    requires KeyLe(b, key(x)) && forall i :: 0 <= i < |xs| ==> KeyLe(b, key(xs[i]))
    ensures forall i :: 0 <= i < |Insert(x, xs, key)| ==> KeyLe(b, key(Insert(x, xs, key)[i]))
    decreases |xs|
  {
    if xs != [] && !KeyLt(key(x), key(xs[0])) {
      InsertLowerBound(x, xs[1..], key, b);
    }
  }

  /** Insertion into a sorted sequence keeps it sorted. */
  lemma {:induction false} InsertSorted<T>(x: T, xs: seq<T>, key: T -> Key)
    requires SortedBy(xs, key)
    ensures SortedBy(Insert(x, xs, key), key)
    decreases |xs|
  {
    if xs != [] && !KeyLt(key(x), key(xs[0])) {
      var tail := xs[1..];
      SortedTail(xs, key);
      InsertSorted(x, tail, key);
      forall i | 0 <= i < |tail| ensures KeyLe(key(xs[0]), key(tail[i])) {
        assert tail[i] == xs[i + 1];
      }
      InsertLowerBound(x, tail, key, key(xs[0]));
    }
  }

  /** A stable sort: insertion of each element, last one last. */
  function SortByKey<T>(xs: seq<T>, key: T -> Key): (r: seq<T>)
    ensures multiset(r) == multiset(xs)
    ensures SortedBy(r, key)
    decreases |xs|
  {
    if xs == [] then []
    else
      var n := |xs| - 1;
      assert xs == xs[..n] + [xs[n]];
      var sorted := SortByKey(xs[..n], key);
      InsertSorted(xs[n], sorted, key);
      InsertPermutes(xs[n], sorted, key);
      Insert(xs[n], sorted, key)
  }

  lemma SortKeepsLength<T>(xs: seq<T>, key: T -> Key)
    ensures |SortByKey(xs, key)| == |xs|
  {
    assert |multiset(SortByKey(xs, key))| == |multiset(xs)|;
  }

  // ------------------------------------------------------------- stability

  /** The elements whose key is k, in their order. */
  function WithKey<T>(xs: seq<T>, key: T -> Key, k: Key): seq<T>
    decreases |xs|
  {
    if xs == [] then []
    else (if key(xs[0]) == k then [xs[0]] else []) + WithKey(xs[1..], key, k)
  }

  lemma {:induction false} WithKeyAppend<T>(a: seq<T>, b: seq<T>, key: T -> Key, k: Key)
    ensures WithKey(a + b, key, k) == WithKey(a, key, k) + WithKey(b, key, k)
    decreases |a|
  {
    if a != [] {
      assert (a + b)[1..] == a[1..] + b;
      WithKeyAppend(a[1..], b, key, k);
    } else {
      assert a + b == b;
    }
  }

  lemma {:induction false} WithKeyAbsent<T>(xs: seq<T>, key: T -> Key, k: Key)
    requires forall i :: 0 <= i < |xs| ==> key(xs[i]) != k
    ensures WithKey(xs, key, k) == []
    decreases |xs|
  {
    if xs != [] {
      WithKeyAbsent(xs[1..], key, k);
    }
  }

  lemma WithKeyCons<T>(y: T, ys: seq<T>, key: T -> Key, k: Key)
    ensures WithKey([y] + ys, key, k) == (if key(y) == k then [y] else []) + WithKey(ys, key, k)
  {
    assert ([y] + ys)[1..] == ys;
  }

  /** Inserting in front of a sorted sequence whose first key is above x's adds x in front of its key class. */
  lemma InsertStableFront<T>(x: T, xs: seq<T>, key: T -> Key, k: Key)
    requires SortedBy(xs, key) && xs != [] && KeyLt(key(x), key(xs[0]))
    ensures WithKey([x] + xs, key, k) == WithKey(xs, key, k) + (if key(x) == k then [x] else [])
  {
    WithKeyCons(x, xs, key, k);
    if key(x) == k {
      forall i | 0 <= i < |xs| ensures key(xs[i]) != k {
        if i > 0 {
          assert KeyLe(key(xs[0]), key(xs[i]));
        }
      }
      WithKeyAbsent(xs, key, k);
    }
  }

  lemma {:induction false} InsertStable<T>(x: T, xs: seq<T>, key: T -> Key, k: Key)
    requires SortedBy(xs, key)
    ensures WithKey(Insert(x, xs, key), key, k)
      == WithKey(xs, key, k) + (if key(x) == k then [x] else [])
    decreases |xs|
  {
    if xs == [] {
      WithKeyCons(x, [], key, k);
    } else if KeyLt(key(x), key(xs[0])) {
      InsertStableFront(x, xs, key, k);
    } else {
      var tail := xs[1..];
      SortedTail(xs, key);
      InsertStable(x, tail, key, k);
      InsertStableStep(x, xs, key, k);
    }
  }

  /** The step of the induction: x goes behind the first element. */
  lemma InsertStableStep<T>(x: T, xs: seq<T>, key: T -> Key, k: Key)
    requires xs != [] && !KeyLt(key(x), key(xs[0]))
    requires WithKey(Insert(x, xs[1..], key), key, k) == WithKey(xs[1..], key, k) + (if key(x) == k then [x] else [])
    ensures WithKey(Insert(x, xs, key), key, k) == WithKey(xs, key, k) + (if key(x) == k then [x] else [])
  {
    var tail := xs[1..];
    var ins := Insert(x, tail, key);
    var c0, cx := (if key(xs[0]) == k then [xs[0]] else []), (if key(x) == k then [x] else []);
    assert Insert(x, xs, key) == [xs[0]] + ins;
    WithKeyCons(xs[0], ins, key, k);
    assert WithKey(xs, key, k) == c0 + WithKey(tail, key, k);
    assert c0 + (WithKey(tail, key, k) + cx) == (c0 + WithKey(tail, key, k)) + cx;
  }

  /** Sorting a non-empty sequence inserts its last element into the sorted rest. */
  lemma SortByKeyLast<T>(xs: seq<T>, key: T -> Key)
    requires xs != []
    ensures SortByKey(xs, key) == Insert(xs[|xs| - 1], SortByKey(xs[..|xs| - 1], key), key)
  {
  }

  lemma WithKeyLast<T>(xs: seq<T>, key: T -> Key, k: Key)
    requires xs != []
    ensures var n := |xs| - 1;
      WithKey(xs, key, k) == WithKey(xs[..n], key, k) + (if key(xs[n]) == k then [xs[n]] else [])
  {
    var n := |xs| - 1;
    assert xs == xs[..n] + [xs[n]];
    WithKeyAppend(xs[..n], [xs[n]], key, k);
    assert [xs[n]][1..] == [];
  }

  /** Elements with equal keys keep their relative order. */
  lemma {:induction false} SortStable<T>(xs: seq<T>, key: T -> Key, k: Key)
    ensures WithKey(SortByKey(xs, key), key, k) == WithKey(xs, key, k)
    decreases |xs|
  {
    if xs != [] {
      var n := |xs| - 1;
      SortStable(xs[..n], key, k);
      SortByKeyLast(xs, key);
      InsertStable(xs[n], SortByKey(xs[..n], key), key, k);
      WithKeyLast(xs, key, k);
    }
  }

  /** Sorting an already sorted sequence changes nothing. */
  lemma {:induction false} SortOfSorted<T>(xs: seq<T>, key: T -> Key)
    requires SortedBy(xs, key)
    ensures SortByKey(xs, key) == xs
    decreases |xs|
  {
    if xs != [] {
      var n := |xs| - 1;
      var init := xs[..n];
      assert SortedBy(init, key) by {
        forall i, j | 0 <= i < j < |init| ensures KeyLe(key(init[i]), key(init[j])) {
          assert init[i] == xs[i] && init[j] == xs[j];
        }
      }
      SortOfSorted(init, key);
      forall i | 0 <= i < |init| ensures KeyLe(key(init[i]), key(xs[n])) {
        assert init[i] == xs[i];
      }
      InsertAtEnd(xs[n], init, key);
      assert xs == init + [xs[n]];
    }
  }

  lemma {:induction false} InsertAtEnd<T>(x: T, xs: seq<T>, key: T -> Key)
    requires forall i :: 0 <= i < |xs| ==> KeyLe(key(xs[i]), key(x))
    ensures Insert(x, xs, key) == xs + [x]
    decreases |xs|
  {
    if xs != [] {
      InsertAtEnd(x, xs[1..], key);
      assert [xs[0]] + (xs[1..] + [x]) == xs + [x];
    }
  }
}
