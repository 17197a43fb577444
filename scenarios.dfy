/**
 * The behaviours the unit tests exercise, as clients that rely only on the
 * contracts of the repository and of the composite specification.
 */
module Scenarios {
  import opened Wrappers
  import opened Collections
  import opened Repository
  import opened AndSpecifications
  import MatchAllSpecification

  /** A batch holding a null is refused before anything is inserted. */
  method NullInBatchInsertsNothing() returns (outcome: Outcome<()>, all: set<int>)
    ensures outcome == Threw(NullObjectAdded)
    ensures all == {}
  {
    var repository := new SetBasedRepository<int>();
    var batch := [Some(1), None, Some(2)];
    assert batch[1].None?;
    outcome := repository.AddCollection(Some(batch));
    all := repository.SelectAll();
  }

  /** A null batch is refused with IllegalArgumentException. */
  method NullBatchIsIllegal() returns (outcome: Outcome<()>)
    ensures outcome == Threw(IllegalArgument)
  {
    var repository := new SetBasedRepository<int>();
    outcome := repository.AddCollection(None);
  }

  /** Adding null to an empty repository fails and leaves it empty. */
  method NullEntityIsRefused() returns (outcome: Outcome<()>, all: set<int>)
    ensures outcome == Threw(NullObjectAdded)
    ensures all == {}
  {
    var repository := new SetBasedRepository<int>();
    outcome := repository.Add(None);
    all := repository.SelectAll();
  }

  /** An added entity is what a specification matching only it selects uniquely. */
  method AddedEntityIsSelectedUniquely(e: int) returns (outcome: Outcome<Option<int>>)
    ensures outcome == Returned(Some(e))
  {
    var repository := new SetBasedRepository<int>();
    var added := repository.Add(Some(e));
    outcome := repository.SelectUnique(x => x == e);
    assert repository.Matching(x => x == e) == {e};
  }

  /** MatchAllSpecification over two entities is not unique. */
  method MatchAllOverTwoIsNotUnique() returns (outcome: Outcome<Option<int>>)
    ensures outcome == Threw(NonUniqueObjectSelected)
  {
    var repository := new SetBasedRepository<int>.FromCollection([1, 2]);
    assert repository.objectSet == {1, 2};
    repository.MatchAllIsNotUnique();
    outcome := repository.SelectUnique(MatchAllSpecification.IsSatisfiedBy);
  }

  /** A duplicate-free list of exactly 1 and 2, in descending order, is [2, 1]. */
  lemma {:induction false} DescendingOneAndTwo(s: seq<int>)
    requires NoDuplicates(s)
    requires forall x :: x in s <==> x == 1 || x == 2
    requires forall i, j :: 0 <= i < j < |s| ==> s[j] <= s[i]
    ensures s == [2, 1]
  {
    forall x ensures multiset(s)[x] == multiset{1, 2}[x] {
      AtMostOnce(s, x);
      assert x in s <==> x in multiset{1, 2};
    }
    assert multiset(s) == multiset{1, 2};
    assert |s| == |multiset(s)| == 2;
    assert s[0] in s && s[1] in s;
  }

  /** Two entities, a descending comparator: all of them, the larger first. */
  method AllInComparatorOrder() returns (ordered: seq<int>)
    ensures ordered == [2, 1]
  {
    var repository := new SetBasedRepository<int>.FromCollection([1, 2]);
    assert repository.objectSet == {1, 2};
    var descending := (a: int, b: int) => b - a;
    ordered := repository.SelectAllOrdered(descending);
    DescendingOneAndTwo(ordered);
  }

  /** Two entities, a specification true of both, a descending order: both, the larger first. */
  method FilterThenOrder() returns (ordered: seq<int>)
    ensures ordered == [2, 1]
  {
    var repository := new SetBasedRepository<int>.FromCollection([1, 2]);
    assert repository.objectSet == {1, 2};
    var descending := (a: int, b: int) => b - a;
    ordered := repository.SelectSatisfyingOrdered(x => true, descending);
    DescendingOneAndTwo(ordered);
  }

  /** Ten sub-specifications of which the sixth fails: six are consulted, the result is false. */
  method StopsAtFirstFailure(entity: int) returns (satisfied: bool, ghost consulted: nat)
    ensures !satisfied && consulted == 6
  {
    var subs := new int[10](i => i);
    var composite := new AndSpecification<int, int>(subs);
    assert forall i :: 0 <= i < 10 ==> composite.subSpecifications[i] == i;
    satisfied, consulted := composite.IsSatisfiedBy((s, x) => s != 5, entity);
    assert composite.subSpecifications[5] == 5;
  }

  /**
   * The collection constructor, given the elements in whatever order a set
   * iterates them, and the varargs constructor yield equal composites.
   */
  method BothConstructorsAgree<S(==), T>(specifications: array<S>, iterated: seq<S>) returns (equal: bool)
    requires multiset(iterated) == multiset(specifications[..])
    ensures equal
  {
    var fromCollection := new AndSpecification<S, T>.FromCollection(iterated);
    var fromVarargs := new AndSpecification<S, T>(specifications);
    equal := fromCollection.Equals(AnAndSpecification(fromVarargs));
  }

  /** Composites built from the same sub-specifications in the same order hash alike. */
  method SameOrderSameHashCode<S(==), T>(specifications: array<S>, hash: S -> int, step: (int, int) -> int, seed: int)
    returns (h1: int, h2: int)
    ensures h1 == h2
  {
    var fromVarargs := new AndSpecification<S, T>(specifications);
    var fromCollection := new AndSpecification<S, T>.FromCollection(specifications[..]);
    h1 := fromVarargs.HashCode(hash, step, seed);
    h2 := fromCollection.HashCode(hash, step, seed);
  }
}
