/** The built-in stable sort in descending order of a key. */
module StableSort {

  datatype Entry<T, K> = Entry(item: T, key: K)

  ghost predicate TotalOrder<K(!new)>(less: (K, K) -> bool) {
    && (forall a, b :: less(a, b) ==> !less(b, a))
    && (forall a, b, c :: !less(a, b) && !less(b, c) ==> !less(a, c))
  }

  ghost predicate NonIncreasing<T, K>(less: (K, K) -> bool, s: seq<Entry<T, K>>) {
    forall i, j | 0 <= i < j < |s| :: !less(s[i].key, s[j].key)
  }

  function Place<T, K>(less: (K, K) -> bool, sorted: seq<Entry<T, K>>, x: Entry<T, K>): seq<Entry<T, K>> {
    if sorted == [] || !less(sorted[|sorted| - 1].key, x.key) then sorted + [x]
    else Place(less, sorted[..|sorted| - 1], x) + [sorted[|sorted| - 1]]
  }

  function SortDescending<T, K>(less: (K, K) -> bool, s: seq<Entry<T, K>>): seq<Entry<T, K>> {
    if s == [] then [] else Place(less, SortDescending(less, s[..|s| - 1]), s[|s| - 1])
  }

  function Tied<T, K>(less: (K, K) -> bool, e: Entry<T, K>, key: K): seq<Entry<T, K>> {
    if !less(e.key, key) && !less(key, e.key) then [e] else []
  }

  /** The entries whose key ties with `key`, in order. */
  function Ties<T, K>(less: (K, K) -> bool, s: seq<Entry<T, K>>, key: K): seq<Entry<T, K>> {
    if s == [] then [] else Ties(less, s[..|s| - 1], key) + Tied(less, s[|s| - 1], key)
  }

  lemma TiesAppend<T, K>(less: (K, K) -> bool, s: seq<Entry<T, K>>, x: Entry<T, K>, key: K)
    ensures Ties(less, s + [x], key) == Ties(less, s, key) + Tied(less, x, key)
  {
    assert (s + [x])[..|s|] == s;
  }

  lemma TiesSwap<T, K(!new)>(less: (K, K) -> bool, ties: seq<Entry<T, K>>, a: Entry<T, K>, b: Entry<T, K>, key: K)
    requires TotalOrder(less) && less(a.key, b.key)
    ensures ties + Tied(less, b, key) + Tied(less, a, key) == ties + Tied(less, a, key) + Tied(less, b, key)
  {
    assert Tied(less, a, key) == [] || Tied(less, b, key) == [];
  }

  lemma {:induction false} PlaceKeepsTies<T, K(!new)>(less: (K, K) -> bool, sorted: seq<Entry<T, K>>, x: Entry<T, K>, key: K)
    requires TotalOrder(less)
    ensures Ties(less, Place(less, sorted, x), key) == Ties(less, sorted, key) + Tied(less, x, key)
  {
    TiesAppend(less, sorted, x, key);
    if sorted != [] && less(sorted[|sorted| - 1].key, x.key) {
      var init, last := sorted[..|sorted| - 1], sorted[|sorted| - 1];
      PlaceKeepsTies(less, init, x, key);
      TiesAppend(less, Place(less, init, x), last, key);
      TiesSwap(less, Ties(less, init, key), last, x, key);
    }
  }

  lemma {:induction false} PlaceKeepsAll<T, K>(less: (K, K) -> bool, sorted: seq<Entry<T, K>>, x: Entry<T, K>)
    ensures multiset(Place(less, sorted, x)) == multiset(sorted) + multiset{x}
  {
    if sorted != [] && less(sorted[|sorted| - 1].key, x.key) {
      PlaceKeepsAll(less, sorted[..|sorted| - 1], x);
      assert sorted == sorted[..|sorted| - 1] + [sorted[|sorted| - 1]];
    }
  }

  lemma {:induction false} PlaceKeepsOrder<T, K(!new)>(less: (K, K) -> bool, sorted: seq<Entry<T, K>>, x: Entry<T, K>)
    requires TotalOrder(less) && NonIncreasing(less, sorted)
    ensures NonIncreasing(less, Place(less, sorted, x))
    ensures forall e | e in Place(less, sorted, x) :: e in sorted || e == x
  {
    if sorted != [] && less(sorted[|sorted| - 1].key, x.key) {
      var init, last := sorted[..|sorted| - 1], sorted[|sorted| - 1];
      PlaceKeepsOrder(less, init, x);
      var placed := Place(less, init, x);
      forall i | 0 <= i < |placed| ensures !less(placed[i].key, last.key) {
        assert placed[i] in placed;
        if placed[i] != x {
          var k :| 0 <= k < |init| && init[k] == placed[i];
          assert sorted[k] == init[k];
        }
      }
    }
  }

  lemma {:induction false} SortIsOrdered<T, K(!new)>(less: (K, K) -> bool, s: seq<Entry<T, K>>)
    requires TotalOrder(less)
    ensures NonIncreasing(less, SortDescending(less, s)) && multiset(SortDescending(less, s)) == multiset(s)
  {
    if s != [] {
      var init, last := s[..|s| - 1], s[|s| - 1];
      var sorted := SortDescending(less, init);
      SortIsOrdered(less, init);
      PlaceKeepsAll(less, sorted, last);
      PlaceKeepsOrder(less, sorted, last);
      assert s == init + [last];
    }
  }

  /** Ties keep their order. */
  lemma {:induction false} SortIsStable<T, K(!new)>(less: (K, K) -> bool, s: seq<Entry<T, K>>, key: K)
    requires TotalOrder(less)
    ensures Ties(less, SortDescending(less, s), key) == Ties(less, s, key)
  {
    if s != [] {
      SortIsStable(less, s[..|s| - 1], key);
      PlaceKeepsTies(less, SortDescending(less, s[..|s| - 1]), s[|s| - 1], key);
    }
  }

  lemma {:induction false} SortedStays<T, K>(less: (K, K) -> bool, s: seq<Entry<T, K>>)
    requires NonIncreasing(less, s)
    ensures SortDescending(less, s) == s
  {
    if s != [] {
      var init := s[..|s| - 1];
      SortedStays(less, init);
      assert s == init + [s[|s| - 1]];
      if init != [] { assert init[|init| - 1] == s[|s| - 2]; }
    }
  }

  /** A sequence is its own sorted form exactly when it is non-increasing. */
  lemma {:induction false} SortIsFixed<T, K(!new)>(less: (K, K) -> bool, s: seq<Entry<T, K>>)
    requires TotalOrder(less)
    ensures SortDescending(less, s) == s <==> NonIncreasing(less, s)
  {
    SortIsOrdered(less, s);
    if NonIncreasing(less, s) { SortedStays(less, s); }
  }
}
