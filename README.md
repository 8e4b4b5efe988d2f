# Generic set container (package `sets`), modelled in Dafny

The package provides `Set[T]`, a Go `map[T]struct{}` used as a set of comparable values:
`New` builds one from a list of keys, `Insert` and `Delete` change it in place, `Has`,
`HasAll`, `HasAny`, `IsSuperset`, `Equal` and `Len` query it, `Difference`, `Union` and
`Intersection` build a fresh result set, and `List` enumerates the members, sorted when the
key kind is an integer or a string.

The model is imperative, as the Go code is:

- `Sets.Set<T>` is a class whose one field `elems: set<T>` is the key set of the backing
  map (the `struct{}` stored with each key carries nothing). `New` is its constructor;
  `Insert` and `Delete` are methods with `modifies this` whose loops walk the variadic key
  list; `Has` and `Len` are the functions `k in elems` and `|elems|`, and every other
  contract is written with `elems`.
- `HasAll`, `HasAny` and `IsSuperset` are early-return loops. `Equal` is a method that
  returns false on differing `Len` and otherwise calls the `IsSuperset` loop, as the Go code
  does.
- `Difference`, `Union` and `Intersection` allocate a result with `New` and fill it with
  `Insert` while walking a map. A Go `range` over a map visits the keys in an unspecified
  order, so each walk picks an arbitrary remaining key (`var key :| key in remaining`).
  None of these methods has a `modifies` clause, so their operands stay unchanged; each
  result is `fresh`. `Intersection` walks the receiver when it is strictly smaller and the
  argument otherwise; both branches give `elems * s2.elems`.
- `List` collects the keys in map order and then, when a `less` is supplied, sorts them in
  place in an array with `Ordering.SortSlice`, which stands for Go's `sort.Slice` (its
  algorithm is not part of this model, so a selection sort with the same contract takes
  its place). The Go code picks `less` by reflecting on the key kind. This model passes the
  pick in as `Option<(T, T) -> bool>` instead: `Some(IntLess)` for a `Set<int>` (the signed
  integer kinds), `Some(UintLess)` for a `Set<nat>` (the unsigned integer kinds),
  `Some(StringLess)` for a `Set<string>`, and `None` for every other kind (the Go code's
  `less == nil`).
- `SetLaws` holds the algebraic laws as client methods that run the real operations. Each
  method's postcondition is one law: commutativity, associativity, idempotence, the
  difference/intersection size split, supersets of the empty set, and delete/insert no-ops.
- `SetScenarios` replays the package's string-set tests. Each method returns what the test
  observes, and its postcondition fixes those values.

Strings are `seq<char>` holding Unicode scalar values. `StringLess` compares them by code
point, lexicographically, with a proper prefix first. On valid UTF-8 this is the same order
as Go's byte-wise string comparison.

## Model

| member | source | states |
|---|---|---|
| `Sets.Set.New` | pkg/util/sets/generic.go:143-150 | the new set holds exactly the given keys, duplicates once |
| `Sets.Set.Insert` | pkg/util/sets/generic.go:10-14 | the new contents are the old contents plus the keys; nothing is removed |
| `Sets.Set.Delete` | pkg/util/sets/generic.go:16-20 | the new contents are the old contents minus the keys; absent keys are ignored and no other key is removed |
| `Sets.Set.Has` | pkg/util/sets/generic.go:22-25 | membership of one key (`k in elems`, the observer the other contracts use); a set that has a key is not empty |
| `Sets.Set.Len` | pkg/util/sets/generic.go:119-121 | the number of keys, zero exactly for the empty set |
| `Sets.Set.HasAll` | pkg/util/sets/generic.go:27-35 | true iff every given key is a member (so true for no keys) |
| `Sets.Set.HasAny` | pkg/util/sets/generic.go:93-101 | true iff some given key is a member (so false for no keys) |
| `Sets.Set.IsSuperset` | pkg/util/sets/generic.go:37-45 | true iff every member of the argument is a member of the receiver |
| `Sets.Set.Equal` | pkg/util/sets/generic.go:103-105 | the length check followed by the superset walk is true iff both sets have exactly the same members |
| `Sets.SameSizeSupersetIsEqual` | pkg/util/sets/generic.go:103-105 | a superset with the same number of members is the same set, which is what makes Equal's two clauses an equality test |
| `Sets.Set.List` | pkg/util/sets/generic.go:47-80 | the result lists every member exactly once (no duplicates, length equal to Len); with a `less` for the key kind it is strictly ascending |
| `Sets.SortedDistinctIsAscending` | pkg/util/sets/generic.go:75-77 | sorting the distinct listing by a strict total order keeps its members and length and makes it strictly ascending |
| `Sets.Set.Difference` | pkg/util/sets/generic.go:82-91 | a fresh set holding the receiver's members that the argument lacks |
| `Sets.Set.Union` | pkg/util/sets/generic.go:107-117 | a fresh set holding the members of either operand |
| `Sets.Set.Intersection` | pkg/util/sets/generic.go:123-141 | a fresh set holding the members of both operands, whichever operand is walked |
| `Ordering.SortSlice` | pkg/util/sets/generic.go:75-77 | the array is permuted (same multiset) and no later element is `less` than an earlier one |
| `Ordering.IntLess` | pkg/util/sets/generic.go:57-60 | the signed-integer `less`: never relates equal keys, and of two keys one is less or they are equal |
| `Ordering.UintLess` | pkg/util/sets/generic.go:61-64 | the unsigned-integer `less` on natural numbers, with the same two properties |
| `Ordering.StringLess` | pkg/util/sets/generic.go:69-72 | the string `less`, lexicographic by code point: never relates equal strings, and a proper prefix is less than the longer string |
| `Ordering.UintLessIsStrictTotalOrder` | pkg/util/sets/generic.go:61-64 | the order used for unsigned integer keys is a strict total order |
| `Ordering.IntLessIsStrictTotalOrder` | pkg/util/sets/generic.go:57-60 | the order used for signed integer keys is a strict total order |
| `Ordering.StringLessTransitive` | pkg/util/sets/generic.go:69-72 | the string order is transitive |
| `Ordering.StringLessConnected` | pkg/util/sets/generic.go:69-72 | of two different strings one is less than the other |
| `Ordering.StringLessIsStrictTotalOrder` | pkg/util/sets/generic.go:69-72 | the string order is a strict total order on any set of keys, so List may sort string keys by it |
| `Ordering.AscendingListingUnique` | pkg/util/sets/generic.go:47-80 | two strictly ascending listings of the same members are identical, so List of an ordered key kind is determined by the members alone |
| `SetLaws.UnionCommutes` | pkg/util/sets/generic.go:107-117 | `a.Union(b).Equal(b.Union(a))` |
| `SetLaws.UnionAssociates` | pkg/util/sets/generic.go:107-117 | `a.Union(b).Union(c).Equal(a.Union(b.Union(c)))` |
| `SetLaws.IntersectionAssociates` | pkg/util/sets/generic.go:123-141 | `a.Intersection(b).Intersection(c).Equal(a.Intersection(b.Intersection(c)))` |
| `SetLaws.SingleKeyQueries` | pkg/util/sets/generic.go:22-35 | `HasAll(k)` and `HasAny(k)` both equal `Has(k)` |
| `SetLaws.IntersectionCommutes` | pkg/util/sets/generic.go:126-132 | `a.Intersection(b).Equal(b.Intersection(a))`, although the two calls may walk different operands |
| `SetLaws.Idempotent` | pkg/util/sets/generic.go:107-141 | `a.Union(a).Equal(a)` and `a.Intersection(a).Equal(a)` |
| `SetLaws.DifferencePlusIntersection` | pkg/util/sets/generic.go:123-141 | `a.Difference(b).Len() + b.Intersection(a).Len() == a.Len()` |
| `SetLaws.EmptySuperset` | pkg/util/sets/generic.go:37-45 | every set is a superset of `New()`, and `New()` is a superset of `a` exactly when `a` is empty |
| `SetLaws.DeleteAbsent` | pkg/util/sets/generic.go:16-20 | deleting a non-member changes neither the members nor Len |
| `SetLaws.DeleteKeepsOthers` | pkg/util/sets/generic.go:16-20 | a member not among the deleted keys stays |
| `SetLaws.InsertDuplicate` | pkg/util/sets/generic.go:10-14 | inserting a member changes neither the members nor Len |
| `SetLaws.NewIsInsert` | pkg/util/sets/generic.go:143-150 | `New(keys...)` is Equal to `New()` followed by `Insert(keys...)` |
| `SetScenarios.InsertHasDelete` | pkg/util/sets/set_test.go:158-178 | lengths 0 then 2; `Has("d")` false, `Has("a")` true, and false again after `Delete("a")` |
| `SetScenarios.HasAllSuperset` | pkg/util/sets/set_test.go:179-193 | `HasAll("a","b","d")` false, `HasAll("a","b")` true; IsSuperset false while s2 holds "d", true after it is deleted |
| `SetScenarios.DeleteMultiples` | pkg/util/sets/set_test.go:196-216 | Len 3, then 1 after deleting two keys; only "b" remains |
| `SetScenarios.NewWithKeys` | pkg/util/sets/set_test.go:219-227 | `New("a","b","c")` has Len 3 and all three keys |
| `SetScenarios.ListSorted` | pkg/util/sets/set_test.go:229-233 | `New("z","y","x","a").List()` is `["a","x","y","z"]` |
| `SetScenarios.ListSortedInts` | pkg/util/sets/generic.go:57-60 | `New(7,-5,0,7).List()` on signed-integer keys is `[-5,0,7]` |
| `SetScenarios.ListSortedUints` | pkg/util/sets/generic.go:61-64 | `New(3,1,2,3).List()` on unsigned-integer keys is `[1,2,3]` |
| `SetScenarios.DifferenceBothWays` | pkg/util/sets/set_test.go:236-253 | `a.Difference(b)` is `{"3"}` and `b.Difference(a)` holds "4" and "5" with Len 2 |
| `SetScenarios.HasAnyItems` | pkg/util/sets/set_test.go:255-265 | `HasAny("1","4")` true, `HasAny("0","4")` false |
| `SetScenarios.EqualsOrderAndDuplicates` | pkg/util/sets/set_test.go:268-279 | sets built in a different order or with duplicates are Equal |
| `SetScenarios.EqualsEmpty` | pkg/util/sets/set_test.go:281-296 | two empty sets are Equal; an empty set is not Equal to a non-empty one |
| `SetScenarios.EqualsAfterMutation` | pkg/util/sets/set_test.go:298-318 | Equal becomes true once the last missing key is inserted and false again after it is deleted |
| `SetScenarios.UnionRow` | pkg/util/sets/set_test.go:349-358 | a Union row passes exactly when the union of the given keys is the expected set, and then the lengths agree |
| `SetScenarios.UnionTable` | pkg/util/sets/set_test.go:321-359 | every row of the Union table passes |
| `SetScenarios.IntersectionRow` | pkg/util/sets/set_test.go:394-403 | an Intersection row passes exactly when the intersection of the given keys is the expected set, and then the lengths agree |
| `SetScenarios.IntersectionTable` | pkg/util/sets/set_test.go:361-404 | every row of the Intersection table passes |

## Left out

- Reflection on the key kind in `List` (pkg/util/sets/generic.go:56-73): Dafny has no run-time kind inspection. The caller passes the `less` that the kind would select. The listing's ordering guarantee is stated for any `less` that is a strict total order on the members, and it is proved for `IntLess` and `StringLess`.
- The floating-point branch of `List` (pkg/util/sets/generic.go:65-68): floats are not modelled. With NaN keys, `<` is not a strict order, so sorting gives no ordering guarantee.
- Integer widths: Go's `Int()` and `Uint()` widen every integer kind to 64 bits before comparing. Dafny's unbounded integers give the same order on every value of those kinds.
- Strings holding invalid UTF-8: `seq<char>` cannot represent such strings. Go compares them byte-wise.
- `sort.Slice` is standard-library code and not part of this model. `Ordering.SortSlice` implements only its contract.
- Go map iteration order and the capacity growth of `append`: iteration order is modelled as an arbitrary choice.
- Sets.Set.List: on an empty set the Go code returns a nil slice (pkg/util/sets/generic.go:49); the model returns the empty sequence, because Dafny sequences have no nil.
- The nil map: a `Set[T]` whose value is the zero value is a nil map. `Insert` on it panics on the assignment at pkg/util/sets/generic.go:12, while the queries, `Delete`, `List` and the algebra treat it as empty. The model's `Set<T>` is a non-null object that `New` always creates, so this panic is not modelled; every set here is one built by `New`.
- Keys without a reflexive equality: Go's `comparable` admits `float64` keys, and NaN is not equal to itself. So `New(NaN, NaN)` has Len 2, `Has(NaN)` is false, and `s.Equal(s)` is false; `SetLaws.Idempotent` and the other laws do not hold for such sets. Interface keys whose dynamic type is not hashable make `Insert` and `Has` panic at run time. The model's `T(==)` is a reflexive, total equality, so neither case is modelled. The container was designed for element types with a total equality notion.
- Unsigned integer keys: Go's unsigned kinds are modelled as `nat` keys in a `Set<nat>`, listed with `UintLess`; `IntLess` serves `Set<int>` only.
- Concurrency: the container is unsynchronized. Sharing one map between two `Set` values by shallow copy is also not modelled; every `Set` here owns its own `elems`.
- The test adapters and the generated `String` set type (pkg/util/sets/set_test.go:24-156): `NewString` and the `String` type are not part of this model. The scenarios run on the generic set only.
