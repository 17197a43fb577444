# In-memory repository and AND-specification, modelled in Dafny

This project models the in-memory core of a small Java library for the
Specification pattern:

- `SetBasedRepository<T>` owns a set of entities. `add` inserts one entity
  and refuses null. `add(Collection)` inserts a batch all at once and refuses
  a null batch or a batch holding a null. `selectAll`, `selectSatisfying` and
  `selectUnique` read the set. The sorted variants order their result with a
  caller's comparator.
- `AndSpecification<T>` is a composite predicate. It asks its
  sub-specifications in list order and stops at the first that fails. Its
  `equals` compares the sub-specification lists as multisets, and its
  `hashCode` folds their hash codes in list order.
- `MatchAllSpecification<T>` is the predicate that always holds.

Files and modules:

| file | module | models |
|---|---|---|
| `wrappers.dfy` | `Wrappers` | `Option`, standing for a nullable reference |
| `collections.dfy` | `Collections` | comparator requirements, sortedness, and a stable sort standing for `Collections.sort` |
| `match_all_specification.dfy` | `MatchAllSpecification` | `MatchAllSpecification.isSatisfiedBy` |
| `and_specification.dfy` | `AndSpecifications` | class `AndSpecification`: constructors, `isSatisfiedBy`, `equals`, `hashCode` |
| `set_based_repository.dfy` | `Repository` | class `SetBasedRepository`: constructors, both `add`s, all selections |
| `scenarios.dfy` | `Scenarios` | the unit tests' situations, as clients of the contracts above |

Conventions of the model:

- An entity is a value of a type `T` with equality. Java `null` is `None`.
  An exception is the `Threw` case of `Outcome`.
- A specification handed to the repository is its `isSatisfiedBy`, a
  function `T -> bool`. A comparator is its `compare`, a function
  `(T, T) -> int`.
- A sub-specification of a composite is an opaque value of a type `S`. Its
  `equals` is `==` on `S`. Its `isSatisfiedBy` is the dispatch function
  `sat(s, x)`. Its `hashCode` is the function `hash(s)`.
- The order in which a `HashSet` is iterated is unspecified. Every loop over
  the owned set therefore picks its next element arbitrarily (`:|`).
- `IsSatisfiedBy` returns a ghost count of the sub-specifications it asked.
  This stands for the tests' check that later sub-specifications are never
  invoked.

In `add(Collection)` the code scans the whole batch for null before its
single `addAll`
(src/main/java/com/thoughtworks/repository/SetBasedRepository.java:36-41).
So a batch holding a null inserts nothing, and the unit test checks that the
repository is still empty afterwards
(src/unit/java/com/thoughtworks/repository/SetBasedRepositoryTest.java:180-184).
The model is all-or-nothing in the same way. The repository has no operation
that counts matching entities, so the model has none.

## Model

| member | source | states |
|---|---|---|
| `MatchAllSpecification.IsSatisfiedBy` | src/main/java/com/thoughtworks/specification/MatchAllSpecification.java:7-9 | every object satisfies it |
| `MatchAllSpecification.VerdictIgnoresObject` | src/main/java/com/thoughtworks/specification/MatchAllSpecification.java:8 | its verdict is the same for any two objects |
| `AndSpecifications.AndSpecification.FromCollection` | src/main/java/com/thoughtworks/specification/AndSpecification.java:15-17 | the sub-specifications are the collection's elements in its iteration order |
| `AndSpecifications.AndSpecification.constructor` | src/main/java/com/thoughtworks/specification/AndSpecification.java:19-21 | the sub-specifications are the varargs array's elements in array order |
| `AndSpecifications.AndSpecification.IsSatisfiedBy` | src/main/java/com/thoughtworks/specification/AndSpecification.java:23-30 | true iff every sub-specification holds; when true every sub-specification was asked; when false the last one asked is the first that fails, all before it hold, and none after it was asked |
| `AndSpecifications.AllSatisfyMeansEvery` | src/main/java/com/thoughtworks/specification/AndSpecification.java:23-30 | left-to-right evaluation with early exit is true exactly when every sub-specification holds |
| `AndSpecifications.EmptyConjunctionHolds` | src/main/java/com/thoughtworks/specification/AndSpecification.java:29 | a composite with no sub-specifications holds of every object |
| `AndSpecifications.ShortCircuit` | src/main/java/com/thoughtworks/specification/AndSpecification.java:24-27 | once the sub-specification at k fails, the verdict is false whatever the sub-specifications after k answer |
| `AndSpecifications.MatchAllIsNeutral` | src/main/java/com/thoughtworks/specification/AndSpecification.java:24-27 | inserting a MatchAllSpecification at any position does not change the verdict |
| `AndSpecifications.SameCountsIffSameMultiset` | src/main/java/com/thoughtworks/specification/AndSpecification.java:48 | "same size and every element of the first occurs equally often in the second" holds iff the two lists are the same multiset |
| `AndSpecifications.IsEqualCollection` | src/main/java/com/thoughtworks/specification/AndSpecification.java:48 | the cardinality comparison of the two sub-specification lists is true iff they are equal as multisets |
| `AndSpecifications.AndSpecification.Equals` | src/main/java/com/thoughtworks/specification/AndSpecification.java:40-49 | false for anything that is not an AndSpecification; otherwise true iff both sub-specification lists are the same multiset (so true for the object itself) |
| `AndSpecifications.EqualsReflexiveAndSymmetric` | src/main/java/com/thoughtworks/specification/AndSpecification.java:41-46 | every composite equals itself, and a equals b iff b equals a |
| `AndSpecifications.EqualsTransitive` | src/main/java/com/thoughtworks/specification/AndSpecification.java:48 | equality of composites is transitive |
| `AndSpecifications.PermutedCompositesAreEqual` | src/main/java/com/thoughtworks/specification/AndSpecification.java:48 | composites over p + q and q + p are equal |
| `AndSpecifications.DifferentSizesAreUnequal` | src/unit/java/com/thoughtworks/specification/AndSpecificationTest.java:110-121 | composites whose lists differ in size are never equal |
| `AndSpecifications.AndSpecification.HashCode` | src/main/java/com/thoughtworks/specification/AndSpecification.java:52-58 | the hash code is the left fold of one builder step per sub-specification hash, in list order, from the builder's seed |
| `AndSpecifications.OrderSensitiveHash` | src/main/java/com/thoughtworks/specification/AndSpecification.java:52-58 | whenever two builder steps do not commute, the equal composites over [p, q] and [q, p] get different hash codes |
| `AndSpecifications.HashCodeBuilderBreaksEqualsContract` | src/main/java/com/thoughtworks/specification/AndSpecification.java:52-58 | with the multiply-by-37-and-add step from seed 17 and hash codes 0 and 1, the equal composites [p, q] and [q, p] hash to 23274 and 23310 |
| `AndSpecifications.OrderFreeHashRespectsEquals` | src/main/java/com/thoughtworks/specification/AndSpecification.java:52-58 | the order-free hash (sum of the sub-specification hashes) is the same for any two lists that are the same multiset |
| `AndSpecifications.EqualCompositesShareOrderFreeHash` | src/main/java/com/thoughtworks/specification/AndSpecification.java:52-58 | composites that are equal have the same order-free hash |
| `Collections.Sort` | src/main/java/com/thoughtworks/repository/SetBasedRepository.java:50 | the sorted list holds the same elements as its input, each equally often |
| `Collections.SortIsSorted` | src/main/java/com/thoughtworks/repository/SetBasedRepository.java:50 | under a comparator that totally preorders the elements, the sorted list is in non-decreasing order |
| `Collections.PermutationKeepsNoDuplicates` | src/main/java/com/thoughtworks/repository/SetBasedRepository.java:51 | a rearrangement of a duplicate-free list is duplicate-free, so the final LinkedHashSet keeps the sorted order |
| `Repository.CopyToList` | src/main/java/com/thoughtworks/repository/SetBasedRepository.java:49 | the copy of the set into a list holds each element exactly once |
| `Repository.SetBasedRepository.constructor` | src/main/java/com/thoughtworks/repository/SetBasedRepository.java:17-19 | a new repository is empty |
| `Repository.SetBasedRepository.FromCollection` | src/main/java/com/thoughtworks/repository/SetBasedRepository.java:21-23 | the repository holds exactly the collection's elements |
| `Repository.SetBasedRepository.Add` | src/main/java/com/thoughtworks/repository/SetBasedRepository.java:25-30 | null raises NullObjectAddedException and leaves the set unchanged; otherwise the set becomes old ∪ {e}, which is the old set when e was present |
| `Repository.SetBasedRepository.AddCollection` | src/main/java/com/thoughtworks/repository/SetBasedRepository.java:32-42 | a null collection raises IllegalArgumentException and a collection holding a null raises NullObjectAddedException, both leaving the set unchanged; otherwise the set becomes old ∪ the collection's entities |
| `Repository.SetBasedRepository.SelectAll` | src/main/java/com/thoughtworks/repository/SetBasedRepository.java:44-46 | the result equals the owned set and nothing changes |
| `Repository.SetBasedRepository.SelectAllOrdered` | src/main/java/com/thoughtworks/repository/SetBasedRepository.java:48-52 | the result holds every owned entity exactly once, in non-decreasing order under the comparator |
| `Repository.SetBasedRepository.SelectSatisfyingIntoCollection` | src/main/java/com/thoughtworks/repository/SetBasedRepository.java:74-82 | the target's contents stay in front; after them come exactly the owned entities the specification holds of, each once |
| `Repository.SetBasedRepository.SelectSatisfying` | src/main/java/com/thoughtworks/repository/SetBasedRepository.java:54-56 | the result is exactly the owned entities the specification holds of (empty for an empty repository) |
| `Repository.SetBasedRepository.SelectSatisfyingOrdered` | src/main/java/com/thoughtworks/repository/SetBasedRepository.java:58-62 | the result holds exactly the entities SelectSatisfying returns, each once, in non-decreasing order under the comparator |
| `Repository.SetBasedRepository.SelectUnique` | src/main/java/com/thoughtworks/repository/SetBasedRepository.java:64-72 | returns null iff nothing matches, returns the match iff exactly one entity matches, raises NonUniqueObjectSelectedException iff two or more match |
| `Repository.SetBasedRepository.MatchAllMatchesEverything` | src/main/java/com/thoughtworks/repository/SetBasedRepository.java:76-78 | MatchAllSpecification selects the whole owned set, which selectAll returns |
| `Repository.SetBasedRepository.MatchAllIsNotUnique` | src/unit/java/com/thoughtworks/repository/SetBasedRepositoryTest.java:110-117 | with two or more entities, MatchAllSpecification matches two or more |
| `Scenarios.NullInBatchInsertsNothing` | src/unit/java/com/thoughtworks/repository/SetBasedRepositoryTest.java:173-186 | adding [1, null, 2] to an empty repository raises NullObjectAddedException and leaves it empty |
| `Scenarios.NullBatchIsIllegal` | src/unit/java/com/thoughtworks/repository/SetBasedRepositoryTest.java:188-192 | adding a null collection raises IllegalArgumentException |
| `Scenarios.NullEntityIsRefused` | src/unit/java/com/thoughtworks/repository/SetBasedRepositoryTest.java:167-171 | adding null to an empty repository raises NullObjectAddedException and leaves it empty |
| `Scenarios.AddedEntityIsSelectedUniquely` | src/unit/java/com/thoughtworks/repository/SetBasedRepositoryTest.java:147-154 | after adding e, a specification matching only e selects e uniquely |
| `Scenarios.MatchAllOverTwoIsNotUnique` | src/unit/java/com/thoughtworks/repository/SetBasedRepositoryTest.java:110-117 | selectUnique with MatchAllSpecification over two entities raises NonUniqueObjectSelectedException |
| `Scenarios.AllInComparatorOrder` | src/unit/java/com/thoughtworks/repository/SetBasedRepositoryTest.java:43-62 | over {1, 2}, selectAll with a comparator that puts 2 before 1 yields exactly [2, 1] |
| `Scenarios.FilterThenOrder` | src/unit/java/com/thoughtworks/repository/SetBasedRepositoryTest.java:86-108 | over {1, 2}, a specification true of both and a comparator that puts 2 before 1 select exactly [2, 1] |
| `Scenarios.StopsAtFirstFailure` | src/unit/java/com/thoughtworks/specification/AndSpecificationTest.java:39-63 | of ten sub-specifications where the sixth fails, exactly six are asked and the verdict is false |
| `Scenarios.BothConstructorsAgree` | src/unit/java/com/thoughtworks/specification/AndSpecificationTest.java:135-152 | the collection constructor, given the elements in any order (as a HashSet iterates them), and the varargs constructor yield equal composites |
| `Scenarios.SameOrderSameHashCode` | src/unit/java/com/thoughtworks/specification/AndSpecificationTest.java:123-133 | composites built from the same sub-specifications in the same order have equal hash codes |

## Findings

| source | as written | input that shows it | evidently intended | confidence | as-written member | corrected member |
|---|---|---|---|---|---|---|
| src/main/java/com/thoughtworks/specification/AndSpecification.java:52-58 | `hashCode` feeds the sub-specification hashes to a HashCodeBuilder in list order, which is order-sensitive, while `equals` (line 48) ignores order | sub-specifications p and q with hash codes 0 and 1: And(p, q) equals And(q, p), but their hash codes are 23274 and 23310 | equal objects have equal hash codes (the `Object.hashCode` contract), for example by summing the sub-specification hashes | not executed | `AndSpecifications.HashCodeBuilderBreaksEqualsContract` | `AndSpecifications.OrderFreeHashRespectsEquals` |

The class method `HashCode` keeps the code's order-sensitive fold. No other
part of the model uses hash codes.

## Left out

- `HibernateRepository` and every `populateCriteria` method, including the
  throwing stub in `MatchAllSpecification`. They only drive an external query
  library whose behaviour is not visible here.
- The interfaces `Specification` and `OrderComparator` and their copies in
  the `ddd` package. They declare signatures only. They appear as the
  function parameters `spec`, `sat` and `cmp`.
- `Repository.SetBasedRepository.FromCollection`: a null collection (a
  NullPointerException in the code) and null elements (which `new HashSet`
  accepts, bypassing `add`'s null check) are not modelled. The parameter is a
  null-free list.
- `Repository.SetBasedRepository.SelectAllOrdered` and
  `Repository.SetBasedRepository.SelectSatisfyingOrdered` require the
  comparator to totally preorder the entities sorted. `Collections.sort`
  makes no promise for other comparators. The unit tests' comparator
  `(e1.equals(entity1)) ? 1 : -1` is outside that contract (it compares
  `entity1` as greater than itself). The scenarios `AllInComparatorOrder` and
  `FilterThenOrder` therefore use a lawful descending comparator that gives
  the order those tests expect.
- The internals of `Collections.sort`. `Collections.Sort` is a stable
  insertion sort standing in for it. Only "sorted and a permutation" is
  claimed; stability is not stated.
- Sorting an `ArrayList` in place is modelled on values. The `LinkedHashSet`
  built from the sorted, duplicate-free list is modelled as that list.
- The order in which `HashSet` is iterated is left arbitrary.
- `AndSpecifications.AndSpecification.HashCode` does not model HashCodeBuilder's
  arithmetic. Its seed and its append step are parameters. The concrete
  values 17 and 37 and 32-bit wrap-around (`ToInt32`) appear only in the
  counterexample lemma.
- `AndSpecifications.AndSpecification.constructor`: `Arrays.asList` keeps a
  view of the varargs array, so later writes to the array would show through.
  The model takes a snapshot of the array.
- `AndSpecifications.AndSpecification.Equals`: the argument is either an
  AndSpecification or anything else (`Other`). Sub-specification equality is
  `==` on `S`, which is consistent with `hash`. The code's cardinality
  comparison looks elements up by hash code, so for nested composites, whose
  hash codes are order-sensitive, it can disagree with `equals`; this is not
  modelled.
- `AndSpecifications.AndSpecification.FromCollection` and
  `AndSpecifications.AndSpecification.constructor`: a null collection or a
  null array raises NullPointerException in the code
  (src/main/java/com/thoughtworks/specification/AndSpecification.java:16, :20).
  The model's parameters cannot be null, so this path is not modelled.
- `AndSpecifications.AndSpecification.IsSatisfiedBy`: a null
  sub-specification makes the code throw NullPointerException when it is
  consulted (AndSpecification.java:25). Sub-specifications here are values of
  `S`, and `sat` gives a verdict for every one of them. The code's hashCode
  counts a null sub-specification as 0, and its equals accepts nulls. Neither
  behaviour is modelled.
- Sub-specifications are assumed free of side effects and deterministic, as
  the `Specification` interface intends. Their evaluation is the pure
  function `sat`.
