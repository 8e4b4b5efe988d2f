/** Algebraic laws of the set container, stated on its operations: each method runs the
    operations a caller would and its postcondition is the law. */
module SetLaws {
  import opened Ordering
  import opened Sets

  /** a.Union(b).Equal(b.Union(a)) */
  method UnionCommutes<T>(a: Set<T>, b: Set<T>) returns (equal: bool)
    ensures equal
  {
    var ab := a.Union(b);
    var ba := b.Union(a);
    equal := ab.Equal(ba);
  }

  /** a.Union(b).Union(c).Equal(a.Union(b.Union(c))) */
  method UnionAssociates<T>(a: Set<T>, b: Set<T>, c: Set<T>) returns (equal: bool)
    ensures equal
  {
    var ab := a.Union(b);
    var abc := ab.Union(c);
    var bc := b.Union(c);
    var abc' := a.Union(bc);
    equal := abc.Equal(abc');
  }

  /** a.Intersection(b).Equal(b.Intersection(a)): whichever operand is walked. */
  method IntersectionCommutes<T>(a: Set<T>, b: Set<T>) returns (equal: bool)
    ensures equal
  {
    var ab := a.Intersection(b);
    var ba := b.Intersection(a);
    equal := ab.Equal(ba);
  }

  /** a.Intersection(b).Intersection(c).Equal(a.Intersection(b.Intersection(c))) */
  method IntersectionAssociates<T>(a: Set<T>, b: Set<T>, c: Set<T>) returns (equal: bool)
    ensures equal
  {
    var ab := a.Intersection(b);
    var abc := ab.Intersection(c);
    var bc := b.Intersection(c);
    var abc' := a.Intersection(bc);
    equal := abc.Equal(abc');
  }

  /** a.Union(a).Equal(a) and a.Intersection(a).Equal(a) */
  method Idempotent<T>(a: Set<T>) returns (unionEqual: bool, intersectionEqual: bool)
    ensures unionEqual && intersectionEqual
  {
    var u := a.Union(a);
    unionEqual := u.Equal(a);
    var i := a.Intersection(a);
    intersectionEqual := i.Equal(a);
  }

  /** a.Difference(b).Len() + b.Intersection(a).Len() == a.Len() */
  method DifferencePlusIntersection<T>(a: Set<T>, b: Set<T>) returns (differenceLen: nat, intersectionLen: nat)
    ensures differenceLen + intersectionLen == a.Len()
  {
    var d := a.Difference(b);
    var i := b.Intersection(a);
    differenceLen, intersectionLen := d.Len(), i.Len();
  }

  /** a.IsSuperset(New()) always holds; New().IsSuperset(a) holds exactly for an empty a. */
  method EmptySuperset<T(==)>(a: Set<T>) returns (aOverEmpty: bool, emptyOverA: bool)
    ensures aOverEmpty
    ensures emptyOverA <==> a.Len() == 0
  {
    var empty := new Set<T>.New([]);
    aOverEmpty := a.IsSuperset(empty);
    emptyOverA := empty.IsSuperset(a);
  }

  /** For a single key, HasAll and HasAny both answer what Has answers. */
  method SingleKeyQueries<T>(s: Set<T>, k: T) returns (all: bool, any: bool)
    ensures all == s.Has(k) && any == s.Has(k)
  {
    all := s.HasAll([k]);
    any := s.HasAny([k]);
  }

  /** Deleting a key the set lacks changes nothing. */
  method DeleteAbsent<T>(s: Set<T>, k: T)
    requires !s.Has(k)
    modifies s
    ensures s.elems == old(s.elems) && s.Len() == old(s.Len())
  {
    s.Delete([k]);
  }

  /** Deleting removes only the given keys. */
  method DeleteKeepsOthers<T>(s: Set<T>, keys: seq<T>, k: T)
    requires s.Has(k) && k !in keys
    modifies s
    ensures s.Has(k)
  {
    s.Delete(keys);
  }

  /** Inserting a key the set has keeps its length. */
  method InsertDuplicate<T>(s: Set<T>, k: T)
    requires s.Has(k)
    modifies s
    ensures s.elems == old(s.elems) && s.Len() == old(s.Len())
  {
    s.Insert([k]);
  }

  /** New(keys...) equals an empty New() into which the same keys are inserted. */
  method NewIsInsert<T(==)>(keys: seq<T>) returns (equal: bool)
    ensures equal
  {
    var s := new Set<T>.New(keys);
    var t := new Set<T>.New([]);
    t.Insert(keys);
    equal := s.Equal(t);
  }
}
