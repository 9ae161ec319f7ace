/** A stable sort by a key, least first. */
module StableSort {
  ghost predicate Ascending<T>(xs: seq<T>, key: T -> real) {
    forall i, j :: 0 <= i < j < |xs| ==> key(xs[i]) <= key(xs[j])
  }

  function Insert<T>(x: T, xs: seq<T>, key: T -> real): (r: seq<T>)
    decreases |xs|
  {
    var n := |xs| - 1;
    if xs == [] || key(xs[n]) <= key(x) then xs + [x] else Insert(x, xs[..n], key) + [xs[n]]
  }

  function Sort<T>(xs: seq<T>, key: T -> real): (r: seq<T>)
    decreases |xs|
  {
    if xs == [] then [] else Insert(xs[|xs| - 1], Sort(xs[..|xs| - 1], key), key)
  }

  lemma {:induction false} InsertKeeps<T>(x: T, xs: seq<T>, key: T -> real)
    ensures multiset(Insert(x, xs, key)) == multiset(xs) + multiset{x}
    decreases |xs|
  {
    var n := |xs| - 1;
    if xs != [] && key(xs[n]) > key(x) {
      InsertKeeps(x, xs[..n], key);
      assert xs[..n] + [xs[n]] == xs;
    }
  }

  lemma {:induction false} InsertSorts<T>(x: T, xs: seq<T>, key: T -> real)
    requires Ascending(xs, key)
    ensures var r := Insert(x, xs, key);
            && |r| == |xs| + 1 && Ascending(r, key) && key(r[|xs|]) >= key(x)
            && (xs != [] ==> key(r[|xs|]) >= key(xs[|xs| - 1]))
    decreases |xs|
  {
    var n := |xs| - 1;
    if xs != [] && key(xs[n]) > key(x) {
      InsertSorts(x, xs[..n], key);
    }
  }

  lemma {:induction false} SortSorts<T>(xs: seq<T>, key: T -> real)
    ensures Ascending(Sort(xs, key), key) && |Sort(xs, key)| == |xs|
    decreases |xs|
  {
    if xs != [] {
      var n := |xs| - 1;
      SortSorts(xs[..n], key);
      InsertSorts(xs[n], Sort(xs[..n], key), key);
    }
  }

  lemma {:induction false} SortKeeps<T>(xs: seq<T>, key: T -> real)
    ensures multiset(Sort(xs, key)) == multiset(xs)
    decreases |xs|
  {
    if xs != [] {
      var n := |xs| - 1;
      SortKeeps(xs[..n], key);
      InsertKeeps(xs[n], Sort(xs[..n], key), key);
      assert xs[..n] + [xs[n]] == xs;
    }
  }

  lemma SameMembers<T>(xs: seq<T>, key: T -> real)
    ensures forall x :: x in Sort(xs, key) <==> x in xs
  {
    SortKeeps(xs, key);
    forall x
      ensures x in Sort(xs, key) <==> x in xs
    {
      assert x in multiset(Sort(xs, key)) <==> x in multiset(xs);
    }
  }

  function WithKey<T>(xs: seq<T>, key: T -> real, k: real): (r: seq<T>)
    decreases |xs|
  {
    if xs == [] then []
    else
      var n := |xs| - 1;
      WithKey(xs[..n], key, k) + (if key(xs[n]) == k then [xs[n]] else [])
  }

  lemma {:induction false} InsertIsStable<T>(x: T, xs: seq<T>, key: T -> real, k: real)
    ensures WithKey(Insert(x, xs, key), key, k) == WithKey(xs, key, k) + (if key(x) == k then [x] else [])
    decreases |xs|
  {
    var n := |xs| - 1;
    if xs != [] && key(xs[n]) > key(x) {
      var r := Insert(x, xs[..n], key);
      InsertIsStable(x, xs[..n], key, k);
      assert (r + [xs[n]])[..|r|] == r;
    } else {
      assert (xs + [x])[..|xs|] == xs;
    }
  }

  /** Elements of one key stay in the order they came in. */
  lemma {:induction false} SortIsStable<T>(xs: seq<T>, key: T -> real, k: real)
    ensures WithKey(Sort(xs, key), key, k) == WithKey(xs, key, k)
    decreases |xs|
  {
    if xs != [] {
      var n := |xs| - 1;
      SortIsStable(xs[..n], key, k);
      InsertIsStable(xs[n], Sort(xs[..n], key), key, k);
    }
  }
}
