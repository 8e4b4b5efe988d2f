/** The string-set scenarios of the package's tests, each replayed on the model; every
    observation the test checks is returned and fixed by the postcondition. */
module SetScenarios {
  import opened Ordering
  import opened Sets

  /** Insert, Has and Delete on a growing set. */
  method InsertHasDelete() returns (lens: seq<nat>, checks: seq<bool>)
    ensures lens == [0, 2]
    ensures checks == [false, true, false]
  {
    var s := new Set<string>.New([]);
    var len0 := s.Len();
    s.Insert(["a", "b"]);
    assert s.elems == {"a", "b"};
    var len2 := s.Len();
    s.Insert(["c"]);
    var hasD, hasA := s.Has("d"), s.Has("a");
    s.Delete(["a"]);
    var hasA' := s.Has("a");
    lens, checks := [len0, len2], [hasD, hasA, hasA'];
  }

  /** HasAll and IsSuperset on the same set, continued. */
  method HasAllSuperset() returns (checks: seq<bool>)
    ensures checks == [false, true, false, true]
  {
    var s := new Set<string>.New([]);
    var s2 := new Set<string>.New([]);
    s.Insert(["a", "b"]);
    s.Insert(["c"]);
    s.Delete(["a"]);
    s.Insert(["a"]);
    assert s.elems == {"a", "b", "c"};
    assert "d" !in s.elems;
    var all3 := s.HasAll(["a", "b", "d"]);
    var all2 := s.HasAll(["a", "b"]);
    s2.Insert(["a", "b", "d"]);
    assert "d" in s2.elems;
    var sup := s.IsSuperset(s2);
    s2.Delete(["d"]);
    assert s2.elems == {"a", "b"};
    var sup' := s.IsSuperset(s2);
    checks := [all3, all2, sup, sup'];
  }

  /** Deleting several keys at once. */
  method DeleteMultiples() returns (lenBefore: nat, lenAfter: nat, hasA: bool, hasC: bool, hasB: bool)
    ensures lenBefore == 3 && lenAfter == 1
    ensures !hasA && !hasC && hasB
  {
    var s := new Set<string>.New([]);
    s.Insert(["a", "b", "c"]);
    assert s.elems == {"a", "b", "c"};
    lenBefore := s.Len();
    s.Delete(["a", "c"]);
    assert s.elems == {"b"};
    lenAfter := s.Len();
    hasA, hasC, hasB := s.Has("a"), s.Has("c"), s.Has("b");
  }

  /** New with initial keys. */
  method NewWithKeys() returns (len: nat, hasAll: bool)
    ensures len == 3 && hasAll
  {
    var s := new Set<string>.New(["a", "b", "c"]);
    assert s.elems == {"a", "b", "c"};
    len := s.Len();
    hasAll := s.Has("a") && s.Has("b") && s.Has("c");
  }

  /** List of a string set is in ascending order. */
  method ListSorted() returns (res: seq<string>)
    ensures res == ["a", "x", "y", "z"]
  {
    var s := new Set<string>.New(["z", "y", "x", "a"]);
    StringLessIsStrictTotalOrder(s.elems);
    res := s.List(Some(StringLess));
    var expected := ["a", "x", "y", "z"];
    assert StrictlyAscending(expected, StringLess);
    assert Elements(res) == s.elems == Elements(expected);
    AscendingListingUnique(res, expected, StringLess);
  }

  /** List of a signed-integer set is in ascending order. */
  method ListSortedInts() returns (res: seq<int>)
    ensures res == [-5, 0, 7]
  {
    var s := new Set<int>.New([7, -5, 0, 7]);
    IntLessIsStrictTotalOrder(s.elems);
    res := s.List(Some(IntLess));
    var expected := [-5, 0, 7];
    assert Elements(res) == s.elems == Elements(expected);
    AscendingListingUnique(res, expected, IntLess);
  }

  /** List of an unsigned-integer set is in ascending order. */
  method ListSortedUints() returns (res: seq<nat>)
    ensures res == [1, 2, 3]
  {
    var s := new Set<nat>.New([3, 1, 2, 3]);
    UintLessIsStrictTotalOrder(s.elems);
    res := s.List(Some(UintLess));
    var expected: seq<nat> := [1, 2, 3];
    assert Elements(res) == s.elems == Elements(expected);
    AscendingListingUnique(res, expected, UintLess);
  }

  /** Difference is not symmetric. */
  method DifferenceBothWays() returns (c: Set<string>, d: Set<string>)
    ensures c.Len() == 1 && c.Has("3")
    ensures d.Len() == 2 && d.Has("4") && d.Has("5")
  {
    var a := new Set<string>.New(["1", "2", "3"]);
    var b := new Set<string>.New(["1", "2", "4", "5"]);
    c := a.Difference(b);
    d := b.Difference(a);
    assert c.elems == {"3"};
    assert d.elems == {"4", "5"};
  }

  /** HasAny with one present and with no present item. */
  method HasAnyItems() returns (some: bool, none: bool)
    ensures some && !none
  {
    var a := new Set<string>.New(["1", "2", "3"]);
    assert a.elems == {"1", "2", "3"};
    assert "1" in ["1", "4"];
    some := a.HasAny(["1", "4"]);
    none := a.HasAny(["0", "4"]);
  }

  /** Equal ignores insertion order and duplicates. */
  method EqualsOrderAndDuplicates() returns (results: seq<bool>)
    ensures results == [true, true]
  {
    var a := new Set<string>.New(["1", "2"]);
    var b := new Set<string>.New(["2", "1"]);
    var e1 := a.Equal(b);
    b := new Set<string>.New(["2", "2", "1"]);
    var e2 := a.Equal(b);
    results := [e1, e2];
  }

  /** Equal on empty sets, and an empty set against non-empty ones. */
  method EqualsEmpty() returns (results: seq<bool>)
    ensures results == [true, false, false]
  {
    var a := new Set<string>.New([]);
    var b := new Set<string>.New([]);
    var e1 := a.Equal(b);
    b := new Set<string>.New(["1", "2", "3"]);
    assert "1" in b.elems;
    var e2 := a.Equal(b);
    b := new Set<string>.New(["1", "2", ""]);
    assert "1" in b.elems;
    var e3 := a.Equal(b);
    results := [e1, e2, e3];
  }

  /** Equal follows later Insert and Delete calls. */
  method EqualsAfterMutation() returns (results: seq<bool>)
    ensures results == [false, false, true, false]
  {
    var b := new Set<string>.New(["1", "2", ""]);
    assert b.elems == {"1", "2", ""};
    var a := new Set<string>.New([]);
    a.Insert(["1"]);
    assert a.elems == {"1"} && "2" !in a.elems;
    var e1 := a.Equal(b);
    a.Insert(["2"]);
    assert a.elems == {"1", "2"} && "" !in a.elems;
    var e2 := a.Equal(b);
    a.Insert([""]);
    assert a.elems == {"1", "2", ""};
    var e3 := a.Equal(b);
    a.Delete([""]);
    assert a.elems == {"1", "2"} && "" !in a.elems;
    var e4 := a.Equal(b);
    results := [e1, e2, e3, e4];
  }

  /** One row of the Union table: s1.Union(s2) has the expected length and is Equal to it. */
  method UnionRow(s1: seq<string>, s2: seq<string>, expected: seq<string>) returns (sameLen: bool, equal: bool)
    ensures equal <==> Elements(s1) + Elements(s2) == Elements(expected)
    ensures equal ==> sameLen
  {
    var a := new Set<string>.New(s1);
    var b := new Set<string>.New(s2);
    var x := new Set<string>.New(expected);
    var u := a.Union(b);
    sameLen := u.Len() == x.Len();
    equal := u.Equal(x);
  }

  /** One row of the Intersection table. */
  method IntersectionRow(s1: seq<string>, s2: seq<string>, expected: seq<string>) returns (sameLen: bool, equal: bool)
    ensures equal <==> Elements(s1) * Elements(s2) == Elements(expected)
    ensures equal ==> sameLen
  {
    var a := new Set<string>.New(s1);
    var b := new Set<string>.New(s2);
    var x := new Set<string>.New(expected);
    var i := a.Intersection(b);
    sameLen := i.Len() == x.Len();
    equal := i.Equal(x);
  }

  /** The Union table: every row passes. */
  method UnionTable() returns (passed: seq<bool>)
    ensures passed == [true, true, true, true]
  {
    var l, e := UnionRow(["1", "2", "3", "4"], ["3", "4", "5", "6"], ["1", "2", "3", "4", "5", "6"]);
    assert Elements(["1", "2", "3", "4"]) + Elements(["3", "4", "5", "6"]) == Elements(["1", "2", "3", "4", "5", "6"]);
    passed := [l && e];
    l, e := UnionRow(["1", "2", "3", "4"], [], ["1", "2", "3", "4"]);
    passed := passed + [l && e];
    l, e := UnionRow([], ["1", "2", "3", "4"], ["1", "2", "3", "4"]);
    passed := passed + [l && e];
    l, e := UnionRow([], [], []);
    passed := passed + [l && e];
  }

  /** The Intersection table: every row passes. */
  method IntersectionTable() returns (passed: seq<bool>)
    ensures passed == [true, true, true, true, true]
  {
    var l, e := IntersectionRow(["1", "2", "3", "4"], ["3", "4", "5", "6"], ["3", "4"]);
    assert Elements(["1", "2", "3", "4"]) * Elements(["3", "4", "5", "6"]) == Elements(["3", "4"]);
    passed := [l && e];
    l, e := IntersectionRow(["1", "2", "3", "4"], ["1", "2", "3", "4"], ["1", "2", "3", "4"]);
    passed := passed + [l && e];
    l, e := IntersectionRow(["1", "2", "3", "4"], [], []);
    passed := passed + [l && e];
    l, e := IntersectionRow([], ["1", "2", "3", "4"], []);
    passed := passed + [l && e];
    l, e := IntersectionRow([], [], []);
    passed := passed + [l && e];
  }
}
