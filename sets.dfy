/** The generic set container of package sets: a Go `map[T]struct{}` whose keys are the
    members.  The map is kept as its key set `elems`; the empty struct stored with each key
    carries no information. */
module Sets {
  import opened Ordering

  datatype Option<T> = None | Some(value: T)

  class Set<T(==)> {
    /** The keys of the backing map. */
    var elems: set<T>

    /** New(keys...): an empty map, then each key inserted in turn. */
    constructor New(keys: seq<T>)
      ensures elems == Elements(keys)
    {
      elems := {};
      new;
      for i := 0 to |keys|
        invariant elems == Elements(keys[..i])
      {
        assert keys[..i + 1] == keys[..i] + [keys[i]];
        Insert([keys[i]]);
      }
    }

    /** Insert(keys...): stores every key; a key already present stays once. */
    method Insert(keys: seq<T>)
      modifies this
      ensures elems == old(elems) + Elements(keys)
    {
      for i := 0 to |keys|
        invariant elems == old(elems) + Elements(keys[..i])
      {
        assert keys[..i + 1] == keys[..i] + [keys[i]];
        elems := elems + {keys[i]};
      }
    }

    /** Delete(keys...): removes every key; an absent key is ignored. */
    method Delete(keys: seq<T>)
      modifies this
      ensures elems == old(elems) - Elements(keys)
    {
      for i := 0 to |keys|
        invariant elems == old(elems) - Elements(keys[..i])
      {
        assert keys[..i + 1] == keys[..i] + [keys[i]];
        elems := elems - {keys[i]};
      }
    }

    /** Has(k): the map lookup's presence flag; a set that has some key is not empty. */
    predicate Has(k: T)
      reads this
      ensures Has(k) ==> Len() > 0
    {
      k in elems
    }

    /** Len(): the number of keys in the map; zero exactly for the empty set. */
    function Len(): (n: nat)
      reads this
      ensures n == 0 <==> elems == {}
    {
      |elems|
    }

    /** HasAll(keys...): stops at the first key that is missing. */
    method HasAll(keys: seq<T>) returns (b: bool)
      ensures b <==> forall k | k in keys :: k in elems
    {
      for i := 0 to |keys|
        invariant forall j | 0 <= j < i :: keys[j] in elems
      {
        if !Has(keys[i]) {
          return false;
        }
      }
      return true;
    }

    /** HasAny(items...): stops at the first item that is present. */
    method HasAny(items: seq<T>) returns (b: bool)
      ensures b <==> exists k | k in items :: k in elems
    {
      for i := 0 to |items|
        invariant forall j | 0 <= j < i :: items[j] !in elems
      {
        if Has(items[i]) {
          return true;
        }
      }
      return false;
    }

    /** IsSuperset(s2): walks s2 in map order and stops at the first item this set lacks. */
    method IsSuperset(s2: Set<T>) returns (b: bool)
      ensures b <==> s2.elems <= elems
    {
      var remaining := s2.elems;
      while remaining != {}
        invariant remaining <= s2.elems
        invariant s2.elems - remaining <= elems
        decreases remaining
      {
        var item :| item in remaining;
        if !Has(item) {
          return false;
        }
        remaining := remaining - {item};
      }
      return true;
    }

    /** Equal(s2): the same length, and then a superset.  The two clauses together are
        exactly equality of membership. */
    method Equal(s2: Set<T>) returns (b: bool)
      ensures b <==> elems == s2.elems
    {
      if Len() != s2.Len() {
        return false;
      }
      b := IsSuperset(s2);
      if b {
        SameSizeSupersetIsEqual(elems, s2.elems);
      }
    }

    /** List(): every key once, collected in map order; then, when the key kind supplies
        a `less` (Go's `less != nil`), sorted in place by it. */
    method List(less: Option<(T, T) -> bool>) returns (res: seq<T>)
      requires less.Some? ==> StrictTotalOrderOn(less.value, elems)
      ensures |res| == |elems|
      ensures forall k :: k in res <==> k in elems
      ensures Distinct(res)
      ensures less.Some? ==> StrictlyAscending(res, less.value)
    {
      res := [];
      var remaining := elems;
      while remaining != {}
        invariant remaining <= elems
        invariant forall k :: k in res <==> k in elems - remaining
        invariant |res| == |elems - remaining|
        decreases remaining
      {
        var k :| k in remaining;
        assert elems - (remaining - {k}) == (elems - remaining) + {k};
        res := res + [k];
        remaining := remaining - {k};
      }
      assert Elements(res) == elems;
      DistinctIfNoFewerElements(res);
      if less.Some? {
        var a := new T[|res|](i requires 0 <= i < |res| => res[i]);
        assert a[..] == res;
        SortSlice(a, less.value, elems);
        SortedDistinctIsAscending(a[..], res, less.value, elems);
        res := a[..];
      }
    }

    /** Difference(s2): a fresh set of the keys of this set that s2 lacks. */
    method Difference(s2: Set<T>) returns (result: Set<T>)
      ensures fresh(result)
      ensures result.elems == elems - s2.elems
    {
      result := new Set<T>.New([]);
      var remaining := elems;
      while remaining != {}
        invariant remaining <= elems
        invariant fresh(result)
        invariant result.elems == (elems - remaining) - s2.elems
        decreases remaining
      {
        var key :| key in remaining;
        if !s2.Has(key) {
          result.Insert([key]);
        }
        remaining := remaining - {key};
      }
    }

    /** Union(s2): a fresh set filled from this set, then from s2. */
    method Union(s2: Set<T>) returns (result: Set<T>)
      ensures fresh(result)
      ensures result.elems == elems + s2.elems
    {
      result := new Set<T>.New([]);
      var remaining := elems;
      while remaining != {}
        invariant remaining <= elems
        invariant fresh(result)
        invariant result.elems == elems - remaining
        decreases remaining
      {
        var key :| key in remaining;
        result.Insert([key]);
        remaining := remaining - {key};
      }
      remaining := s2.elems;
      while remaining != {}
        invariant remaining <= s2.elems
        invariant fresh(result)
        invariant result.elems == elems + (s2.elems - remaining)
        decreases remaining
      {
        var key :| key in remaining;
        result.Insert([key]);
        remaining := remaining - {key};
      }
    }

    /** Intersection(s2): walks the smaller operand (this one when strictly smaller, else s2)
        and keeps the keys the other operand has; either walk gives the same set. */
    method Intersection(s2: Set<T>) returns (result: Set<T>)
      ensures fresh(result)
      ensures result.elems == elems * s2.elems
    {
      var walk, other;
      result := new Set<T>.New([]);
      if Len() < s2.Len() {
        walk, other := this, s2;
      } else {
        walk, other := s2, this;
      }
      var remaining := walk.elems;
      while remaining != {}
        invariant remaining <= walk.elems
        invariant fresh(result)
        invariant result.elems == (walk.elems - remaining) * other.elems
        decreases remaining
      {
        var key :| key in remaining;
        if other.Has(key) {
          result.Insert([key]);
        }
        remaining := remaining - {key};
      }
    }
  }

  /** Equal's two clauses: a superset of the same size has exactly the same members. */
  lemma {:induction false} SameSizeSupersetIsEqual<T>(a: set<T>, b: set<T>)
    requires |a| == |b| && b <= a
    ensures a == b
  {
    if a != b {
      assert !(a <= b);
      var x :| x in a && x !in b;
      assert b <= a - {x};
      SubsetNoLarger(b, a - {x});
    }
  }

  lemma {:induction false} SubsetNoLarger<T>(a: set<T>, b: set<T>)
    requires a <= b
    ensures |a| <= |b|
  {
    assert b == a + (b - a);
  }

  /** A listing of distinct values that is sorted by a strict total order is strictly
      ascending; it keeps the listing's values, length and distinctness. */
  lemma SortedDistinctIsAscending<T>(sorted: seq<T>, listing: seq<T>, less: (T, T) -> bool, dom: set<T>)
    requires multiset(sorted) == multiset(listing)
    requires Distinct(listing) && Elements(listing) == dom
    requires ConnectedOn(less, dom) && SortedBy(sorted, less)
    ensures |sorted| == |listing| && Elements(sorted) == dom
    ensures Distinct(sorted) && StrictlyAscending(sorted, less)
  {
    assert |sorted| == |multiset(sorted)| == |listing|;
    forall x ensures x in sorted <==> x in listing {
      assert x in sorted <==> x in multiset(sorted);
      assert x in listing <==> x in multiset(listing);
    }
    assert Elements(sorted) == Elements(listing);
    DistinctIfNoFewerElements(listing);
    DistinctSameElementsSameLength(listing, sorted);
    DistinctIfNoFewerElements(sorted);
  }

  lemma {:induction false} DistinctSameElementsSameLength<T>(s: seq<T>, t: seq<T>)
    requires Distinct(s) && Elements(s) == Elements(t) && |s| == |t|
    ensures |Elements(t)| == |t|
  {
    DistinctCardinality(s);
  }

  lemma {:induction false} DistinctCardinality<T>(s: seq<T>)
    requires Distinct(s)
    ensures |Elements(s)| == |s|
  {
    if s != [] {
      var t := s[1..];
      assert s == [s[0]] + t;
      assert Elements(s) == {s[0]} + Elements(t);
      assert s[0] !in t by {
        forall k | 0 <= k < |t| ensures t[k] != s[0] {
          assert t[k] == s[k + 1];
        }
      }
      assert Distinct(t) by {
        forall p, q | 0 <= p < q < |t| ensures t[p] != t[q] {
          assert t[p] == s[p + 1] && t[q] == s[q + 1];
        }
      }
      DistinctCardinality(t);
    }
  }
}
