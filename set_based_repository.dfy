/**
 * SetBasedRepository: an in-memory repository owning a set of entities,
 * selected by specification and optionally ordered by a comparator.
 *
 * A specification is its `isSatisfiedBy` as a function `T -> bool`; a
 * comparator is its `compare` as a function `(T, T) -> int`. The order in
 * which the backing hash set is iterated is left open: each walk over the
 * set picks the next element arbitrarily.
 */
module Repository {
  import opened Wrappers
  import opened Collections
  import MatchAllSpecification

  /** The exceptions the repository raises. */
  datatype Exception = NullObjectAdded | IllegalArgument | NonUniqueObjectSelected

  /** A Java call's outcome: a returned value or a raised exception. */
  datatype Outcome<R> = Returned(value: R) | Threw(exception: Exception)

  /** Some element of the collection is null. */
  ghost predicate HasNull<T>(entities: seq<Option<T>>) {
    exists i :: 0 <= i < |entities| && entities[i].None?
  }

  /** The entities a null-free collection holds. */
  ghost function Entities<T>(entities: seq<Option<T>>): set<T>
    requires !HasNull(entities)
  {
    set i | 0 <= i < |entities| :: entities[i].value
  }

  /**
   * A list holding each element of `s` once, in the set's iteration order:
   * the copy `new ArrayList<T>(set)` makes.
   */
  method CopyToList<T(==)>(s: set<T>) returns (list: seq<T>)
    ensures NoDuplicates(list)
    ensures forall x :: x in list <==> x in s
  {
    list := [];
    var remaining := s;
    while remaining != {}
      invariant remaining <= s
      invariant forall x :: x in list <==> x in s && x !in remaining
      invariant NoDuplicates(list)
      decreases remaining
    {
      var x :| x in remaining;
      list := list + [x];
      remaining := remaining - {x};
    }
  }

  class SetBasedRepository<T(==)> {
    /** The owned entities. */
    var objectSet: set<T>

    /** The owned entities a specification holds of. */
    ghost function Matching(spec: T -> bool): set<T>
      reads this
    {
      set x | x in objectSet && spec(x)
    }

    /** An empty repository. */
    constructor ()
      ensures objectSet == {}
    {
      objectSet := {};
    }

    /** A repository owning the elements of `entities`, duplicates collapsed. */
    constructor FromCollection(entities: seq<T>)
      ensures forall x :: x in objectSet <==> x in entities
    {
      objectSet := set x | x in entities;
    }

    /**
     * `add(entity)`: null is refused with NullObjectAddedException and
     * nothing changes; otherwise the entity joins the set (a no-op when it
     * is already there).
     */
    method Add(entity: Option<T>) returns (outcome: Outcome<()>)
      modifies this
      ensures entity.None? ==> outcome == Threw(NullObjectAdded) && objectSet == old(objectSet)
      ensures entity.Some? ==> outcome == Returned(()) && objectSet == old(objectSet) + {entity.value}
    {
      if entity.None? {
        return Threw(NullObjectAdded);
      }
      objectSet := objectSet + {entity.value};
      outcome := Returned(());
    }

    /**
     * `add(Collection)`: a null collection is refused with
     * IllegalArgumentException; a collection holding a null is refused with
     * NullObjectAddedException before anything is inserted; otherwise all
     * of its entities join the set at once.
     */
    method AddCollection(entities: Option<seq<Option<T>>>) returns (outcome: Outcome<()>)
      modifies this
      ensures entities.None? ==> outcome == Threw(IllegalArgument) && objectSet == old(objectSet)
      ensures entities.Some? && HasNull(entities.value) ==>
                outcome == Threw(NullObjectAdded) && objectSet == old(objectSet)
      ensures entities.Some? && !HasNull(entities.value) ==>
                outcome == Returned(()) && objectSet == old(objectSet) + Entities(entities.value)
    {
      if entities.None? {
        return Threw(IllegalArgument);
      }
      var list := entities.value;
      for i := 0 to |list|
        invariant forall k :: 0 <= k < i ==> list[k].Some?
      {
        if list[i].None? {
          return Threw(NullObjectAdded);
        }
      }
      objectSet := objectSet + set i | 0 <= i < |list| :: list[i].value;
      outcome := Returned(());
    }

    /** `selectAll()`: a fresh set equal to the owned one. */
    method SelectAll() returns (all: set<T>)
      ensures all == objectSet
    {
      all := objectSet;
    }

    /**
     * `selectAll(comparator)`: every owned entity once, in non-decreasing
     * order under the comparator.
     */
    method SelectAllOrdered(cmp: (T, T) -> int) returns (ordered: seq<T>)
      requires TotalPreorder(cmp, objectSet)
      ensures forall x :: x in ordered <==> x in objectSet
      ensures NoDuplicates(ordered)
      ensures Sorted(ordered, cmp)
    {
      var result := CopyToList(objectSet);
      SortIsSorted(result, cmp, objectSet);
      PermutationKeepsNoDuplicates(result, Sort(result, cmp));
      SameElements(result, Sort(result, cmp));
      result := Sort(result, cmp);
      // The LinkedHashSet built from a list without duplicates keeps its order.
      ordered := result;
    }

    /**
     * Walks the owned set and appends each entity the specification holds
     * of to `target`: each such entity lands there exactly once.
     */
    method SelectSatisfyingIntoCollection(spec: T -> bool, target: seq<T>) returns (result: seq<T>)
      ensures |target| <= |result| && result[..|target|] == target
      ensures forall x :: x in result[|target|..] <==> x in objectSet && spec(x)
      ensures NoDuplicates(result[|target|..])
    {
      result := target;
      var remaining := objectSet;
      while remaining != {}
        invariant remaining <= objectSet
        invariant |target| <= |result| && result[..|target|] == target
        invariant forall x :: x in result[|target|..] <==> x in objectSet && x !in remaining && spec(x)
        invariant NoDuplicates(result[|target|..])
        decreases remaining
      {
        var candidate :| candidate in remaining;
        if spec(candidate) {
          assert (result + [candidate])[|target|..] == result[|target|..] + [candidate];
          result := result + [candidate];
        }
        remaining := remaining - {candidate};
      }
    }

    /** `selectSatisfying(spec)`: exactly the owned entities the specification holds of. */
    method SelectSatisfying(spec: T -> bool) returns (selected: set<T>)
      ensures forall x :: x in selected <==> x in objectSet && spec(x)
    {
      var list := SelectSatisfyingIntoCollection(spec, []);
      assert list[0..] == list;
      selected := set x | x in list;
    }

    /**
     * `selectSatisfying(spec, comparator)`: the entities `selectSatisfying`
     * returns, each once, in non-decreasing order under the comparator.
     */
    method SelectSatisfyingOrdered(spec: T -> bool, cmp: (T, T) -> int) returns (ordered: seq<T>)
      requires TotalPreorder(cmp, Matching(spec))
      ensures forall x :: x in ordered <==> x in objectSet && spec(x)
      ensures NoDuplicates(ordered)
      ensures Sorted(ordered, cmp)
    {
      var result := SelectSatisfyingIntoCollection(spec, []);
      assert result[0..] == result;
      SortIsSorted(result, cmp, Matching(spec));
      PermutationKeepsNoDuplicates(result, Sort(result, cmp));
      SameElements(result, Sort(result, cmp));
      result := Sort(result, cmp);
      ordered := result;
    }

    /**
     * `selectUnique(spec)`: null when nothing matches, the match when
     * exactly one entity does, NonUniqueObjectSelectedException otherwise.
     */
    method SelectUnique(spec: T -> bool) returns (outcome: Outcome<Option<T>>)
      ensures Matching(spec) == {} <==> outcome == Returned(None)
      ensures |Matching(spec)| == 1 <==> outcome.Returned? && outcome.value.Some?
      ensures outcome.Returned? && outcome.value.Some? ==> Matching(spec) == {outcome.value.value}
      ensures |Matching(spec)| >= 2 <==> outcome == Threw(NonUniqueObjectSelected)
    {
      var results := SelectSatisfyingIntoCollection(spec, []);
      assert results[0..] == results;
      if |results| == 1 {
        assert Matching(spec) == {results[0]};
        return Returned(Some(results[0]));
      } else if |results| != 0 {
        var two := {results[0], results[1]};
        assert |two| == 2;
        assert Matching(spec) == two + (Matching(spec) - two);
        return Threw(NonUniqueObjectSelected);
      }
      assert Matching(spec) == {};
      return Returned(None);
    }

    /** Selecting with MatchAllSpecification selects everything `selectAll` returns. */
    lemma MatchAllMatchesEverything()
      ensures Matching(MatchAllSpecification.IsSatisfiedBy) == objectSet
    {
    }

    /** With two or more entities, MatchAllSpecification never selects a unique one. */
    lemma MatchAllIsNotUnique()
      requires |objectSet| >= 2
      ensures |Matching(MatchAllSpecification.IsSatisfiedBy)| >= 2
    {
      MatchAllMatchesEverything();
    }
  }
}
