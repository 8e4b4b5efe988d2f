/** Orderings used by Set.List: the `less` relations the listing sorts by, the
    properties a `less` must have, and the in-place sort (Go's sort.Slice). */
module Ordering {

  /** `less` never relates a value of `dom` to itself. */
  ghost predicate IrreflexiveOn<T>(less: (T, T) -> bool, dom: set<T>) {
    forall x | x in dom :: !less(x, x)
  }

  /** `less` is transitive on `dom`. */
  ghost predicate TransitiveOn<T>(less: (T, T) -> bool, dom: set<T>) {
    forall x, y, z | x in dom && y in dom && z in dom :: less(x, y) && less(y, z) ==> less(x, z)
  }

  /** Any two distinct values of `dom` are related one way or the other. */
  ghost predicate ConnectedOn<T>(less: (T, T) -> bool, dom: set<T>) {
    forall x, y | x in dom && y in dom :: x != y ==> less(x, y) || less(y, x)
  }

  /** `less` is a strict total order on `dom`. */
  ghost predicate StrictTotalOrderOn<T>(less: (T, T) -> bool, dom: set<T>) {
    IrreflexiveOn(less, dom) && TransitiveOn(less, dom) && ConnectedOn(less, dom)
  }

  /** Sorted in the sense of sort.Slice: no later element is less than an earlier one. */
  ghost predicate SortedBy<T>(s: seq<T>, less: (T, T) -> bool) {
    forall p, q | 0 <= p < q < |s| :: !less(s[q], s[p])
  }

  /** Every element is less than every later one. */
  ghost predicate StrictlyAscending<T>(s: seq<T>, less: (T, T) -> bool) {
    forall p, q | 0 <= p < q < |s| :: less(s[p], s[q])
  }

  /** No value occurs twice. */
  ghost predicate Distinct<T>(s: seq<T>) {
    forall p, q | 0 <= p < q < |s| :: s[p] != s[q]
  }

  /** The values occurring in `s`. */
  ghost function Elements<T>(s: seq<T>): set<T> {
    set x | x in s
  }

  /** The order of Go's signed integer kinds (`Int() <`): the keys widened to 64 bits and
      compared; Dafny's integers are unbounded, so no width changes the order. */
  predicate IntLess(a: int, b: int)
    ensures IntLess(a, b) ==> a != b
    ensures IntLess(a, b) || a == b || b < a
  {
    a < b
  }

  /** The order of Go's unsigned integer kinds (`Uint() <`), on natural numbers. */
  predicate UintLess(a: nat, b: nat)
    ensures UintLess(a, b) ==> a != b
    ensures UintLess(a, b) || a == b || b < a
  {
    a < b
  }

  /** The order of Go's string kind: lexicographic, a proper prefix first.  Go compares
      the UTF-8 bytes; on Unicode scalar values that order is the code-point order used here. */
  predicate StringLess(a: string, b: string)
    ensures StringLess(a, b) ==> a != b
    ensures |a| < |b| && a == b[..|a|] ==> StringLess(a, b)
  {
    if |a| == 0 then |b| > 0
    else if |b| == 0 then false
    else if a[0] != b[0] then a[0] < b[0]
    else StringLess(a[1..], b[1..])
  }

  lemma IntLessIsStrictTotalOrder(dom: set<int>)
    ensures StrictTotalOrderOn(IntLess, dom)
  {
  }

  lemma UintLessIsStrictTotalOrder(dom: set<nat>)
    ensures StrictTotalOrderOn(UintLess, dom)
  {
  }

  lemma {:induction false} StringLessTransitive(a: string, b: string, c: string)
    requires StringLess(a, b) && StringLess(b, c)
    ensures StringLess(a, c)
  {
    if |a| > 0 && a[0] == b[0] && b[0] == c[0] {
      StringLessTransitive(a[1..], b[1..], c[1..]);
    }
  }

  lemma {:induction false} StringLessConnected(a: string, b: string)
    requires a != b
    ensures StringLess(a, b) || StringLess(b, a)
  {
    if |a| > 0 && |b| > 0 && a[0] == b[0] {
      assert a == [a[0]] + a[1..] && b == [b[0]] + b[1..];
      StringLessConnected(a[1..], b[1..]);
    }
  }

  lemma StringLessIsStrictTotalOrder(dom: set<string>)
    ensures StrictTotalOrderOn(StringLess, dom)
  {
    forall x, y, z | x in dom && y in dom && z in dom && StringLess(x, y) && StringLess(y, z)
      ensures StringLess(x, z)
    {
      StringLessTransitive(x, y, z);
    }
    forall x, y | x in dom && y in dom && x != y ensures StringLess(x, y) || StringLess(y, x) {
      StringLessConnected(x, y);
    }
  }

  /** A sequence has at most as many distinct values as it has positions, and exactly as
      many only when no value repeats. */
  lemma {:induction false} DistinctIfNoFewerElements<T>(s: seq<T>)
    ensures |Elements(s)| <= |s|
    ensures |Elements(s)| == |s| ==> Distinct(s)
  {
    if s != [] {
      var t := s[1..];
      DistinctIfNoFewerElements(t);
      assert Elements(s) == {s[0]} + Elements(t) by {
        assert s == [s[0]] + t;
      }
      if s[0] in t {
        assert Elements(s) == Elements(t);
      } else if |Elements(s)| == |s| {
        forall p, q | 0 <= p < q < |s| ensures s[p] != s[q] {
          if p > 0 {
            assert s[p] == t[p - 1] && s[q] == t[q - 1];
          } else {
            assert s[q] == t[q - 1];
          }
        }
      }
    }
  }

  lemma NoElementsOnlyIfEmpty<T>(s: seq<T>)
    ensures Elements(s) == {} <==> s == []
  {
    if s != [] {
      assert s[0] in Elements(s);
    }
  }

  /** Two strictly ascending sequences over the same values are the same sequence:
      a sorted listing of a set is unique. */
  lemma {:induction false} AscendingListingUnique<T>(s: seq<T>, t: seq<T>, less: (T, T) -> bool)
    requires Elements(s) == Elements(t)
    requires IrreflexiveOn(less, Elements(s)) && TransitiveOn(less, Elements(s))
    requires StrictlyAscending(s, less) && StrictlyAscending(t, less)
    ensures s == t
  {
    NoElementsOnlyIfEmpty(s);
    NoElementsOnlyIfEmpty(t);
    if s != [] {
      assert s[0] in Elements(t);
      assert t[0] in Elements(s);
      var i :| 0 <= i < |s| && s[i] == t[0];
      var j :| 0 <= j < |t| && t[j] == s[0];
      if i > 0 && j > 0 {
        // then less(s[0], t[0]) and less(t[0], s[0])
        assert false;
      }
      assert s[0] == t[0];
      var s', t' := s[1..], t[1..];
      assert Elements(s') == Elements(s) - {s[0]} by {
        assert s == [s[0]] + s';
        forall x | x in s' ensures x != s[0] {
          var k :| 0 <= k < |s'| && s'[k] == x;
          assert less(s[0], s[k + 1]);
        }
      }
      assert Elements(t') == Elements(t) - {t[0]} by {
        assert t == [t[0]] + t';
        forall x | x in t' ensures x != t[0] {
          var k :| 0 <= k < |t'| && t'[k] == x;
          assert less(t[0], t[k + 1]);
        }
      }
      AscendingListingUnique(s', t', less);
    }
  }

  /** Exchanges a[i] and a[j]. */
  method Swap<T>(a: array<T>, i: nat, j: nat)
    requires i < a.Length && j < a.Length
    modifies a
    ensures a[i] == old(a[j]) && a[j] == old(a[i])
    ensures forall k | 0 <= k < a.Length && k != i && k != j :: a[k] == old(a[k])
    ensures multiset(a[..]) == old(multiset(a[..]))
  {
    a[i], a[j] := a[j], a[i];
  }

  /** Go's sort.Slice: sorts `a` in place by `less`.  Its algorithm is not modelled; this
      selection sort keeps its contract (a permutation, and sorted by `less`) for any `less`
      that is irreflexive and transitive on the values in the array. */
  method SortSlice<T>(a: array<T>, less: (T, T) -> bool, ghost dom: set<T>)
    requires forall k | 0 <= k < a.Length :: a[k] in dom
    requires IrreflexiveOn(less, dom) && TransitiveOn(less, dom)
    modifies a
    ensures SortedBy(a[..], less)
    ensures multiset(a[..]) == old(multiset(a[..]))
  {
    var i := 0;
    while i < a.Length
      invariant 0 <= i <= a.Length
      invariant forall k | 0 <= k < a.Length :: a[k] in dom
      invariant forall p, q | 0 <= p < q < i :: !less(a[q], a[p])
      invariant forall p, q | 0 <= p < i <= q < a.Length :: !less(a[q], a[p])
      invariant multiset(a[..]) == old(multiset(a[..]))
    {
      var m := i;
      var j := i + 1;
      while j < a.Length
        invariant i <= m < j <= a.Length
        invariant forall k | i <= k < j :: !less(a[k], a[m])
      {
        if less(a[j], a[m]) {
          m := j;
        }
        j := j + 1;
      }
      Swap(a, i, m);
      i := i + 1;
    }
  }
}
