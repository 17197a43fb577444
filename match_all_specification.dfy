/** The specification that every entity satisfies (MatchAllSpecification). */
module MatchAllSpecification {

  /** `isSatisfiedBy` holds of every entity: the neutral element of a conjunction. */
  function IsSatisfiedBy<T>(entity: T): (satisfied: bool)
    ensures satisfied
  {
    true
  }

  /** The verdict does not depend on the entity it is asked about. */
  lemma VerdictIgnoresObject<T>(a: T, b: T)
    ensures IsSatisfiedBy(a) == IsSatisfiedBy(b)
  {
  }
}
