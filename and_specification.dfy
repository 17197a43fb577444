/**
 * AndSpecification: a composite specification that holds of an entity when
 * all of its sub-specifications do, compared by the multiset of its
 * sub-specifications.
 *
 * Sub-specifications are opaque values of a type `S`; their own `equals` is
 * Dafny's `==` on `S`, their `isSatisfiedBy` is the dispatch function
 * `sat(s, x)` and their `hashCode` is the function `hash(s)`.
 */
module AndSpecifications {
  import MatchAllSpecification

  /** The conjunction of the sub-specifications, evaluated left to right. */
  function AllSatisfy<S, T>(subs: seq<S>, sat: (S, T) -> bool, entity: T): (satisfied: bool)
  {
    subs == [] || (sat(subs[0], entity) && AllSatisfy(subs[1..], sat, entity))
  }

  /** The left-to-right evaluation holds exactly when every sub-specification does. */
  lemma {:induction false} AllSatisfyMeansEvery<S, T>(subs: seq<S>, sat: (S, T) -> bool, entity: T)
    ensures AllSatisfy(subs, sat, entity) <==> forall i :: 0 <= i < |subs| ==> sat(subs[i], entity)
  {
    if subs != [] {
      AllSatisfyMeansEvery(subs[1..], sat, entity);
      assert forall i :: 1 <= i < |subs| ==> subs[i] == subs[1..][i - 1];
    }
  }

  /** With no sub-specifications the composite holds of every entity. */
  lemma EmptyConjunctionHolds<S, T>(sat: (S, T) -> bool, entity: T)
    ensures AllSatisfy([], sat, entity)
  {
  }

  /**
   * Short circuit: once the sub-specification at `k` fails, the result is
   * false whatever the sub-specifications after it would answer — any
   * dispatch `other` that agrees with `sat` up to `k` gives the same verdict.
   */
  lemma {:induction false} ShortCircuit<S, T>(subs: seq<S>, sat: (S, T) -> bool, other: (S, T) -> bool, entity: T, k: nat)
    requires k < |subs| && !sat(subs[k], entity)
    requires forall i :: 0 <= i <= k ==> other(subs[i], entity) == sat(subs[i], entity)
    ensures !AllSatisfy(subs, other, entity)
    ensures !AllSatisfy(subs, sat, entity)
  {
    if k > 0 {
      assert forall i :: 0 <= i <= k - 1 ==> subs[1..][i] == subs[i + 1];
      ShortCircuit(subs[1..], sat, other, entity, k - 1);
    }
  }

  /**
   * Putting a MatchAllSpecification anywhere among the sub-specifications
   * does not change the verdict.
   */
  lemma {:induction false} MatchAllIsNeutral<S, T>(subs: seq<S>, i: nat, m: S, sat: (S, T) -> bool, entity: T)
    requires i <= |subs|
    requires forall y :: sat(m, y) == MatchAllSpecification.IsSatisfiedBy(y)
    ensures AllSatisfy(subs[..i] + [m] + subs[i..], sat, entity) == AllSatisfy(subs, sat, entity)
  {
    var extended := subs[..i] + [m] + subs[i..];
    if i == 0 {
      assert extended == [m] + subs;
      assert extended[1..] == subs;
    } else {
      MatchAllIsNeutral(subs[1..], i - 1, m, sat, entity);
      assert extended[0] == subs[0];
      assert extended[1..] == subs[1..][..i - 1] + [m] + subs[1..][i - 1..];
    }
  }

  /** Number of occurrences of `x` in `s`. */
  function Count<S(==)>(s: seq<S>, x: S): (n: nat)
  {
    if s == [] then 0 else (if s[0] == x then 1 else 0) + Count(s[1..], x)
  }

  lemma {:induction false} CountIsMultiplicity<S>(s: seq<S>, x: S)
    ensures Count(s, x) == multiset(s)[x]
  {
    if s != [] {
      assert s == [s[0]] + s[1..];
      CountIsMultiplicity(s[1..], x);
    }
  }

  /**
   * Two lists of the same size in which every element of the first occurs
   * equally often in the second are the same multiset, and conversely.
   */
  lemma SameCountsIffSameMultiset<S>(a: seq<S>, b: seq<S>)
    ensures (|a| == |b| && forall x :: x in a ==> Count(a, x) == Count(b, x))
            <==> multiset(a) == multiset(b)
  {
    forall x ensures Count(a, x) == multiset(a)[x] && Count(b, x) == multiset(b)[x] {
      CountIsMultiplicity(a, x);
      CountIsMultiplicity(b, x);
    }
    if |a| == |b| && forall x :: x in a ==> Count(a, x) == Count(b, x) {
      var ma, mb := multiset(a), multiset(b);
      assert ma <= mb by {
        forall x ensures ma[x] <= mb[x] {
          if x in a {
            assert Count(a, x) == Count(b, x);
          } else {
            assert x !in ma;
          }
        }
      }
      assert mb == ma + (mb - ma);
      assert |mb - ma| == 0;
    }
  }

  /**
   * Equality of two collections by cardinality, as Apache Commons'
   * CollectionUtils.isEqualCollection decides it: same size, and every
   * element occurs equally often in both.
   */
  function IsEqualCollection<S(==)>(a: seq<S>, b: seq<S>): (r: bool)
    ensures r <==> multiset(a) == multiset(b)
  {
    SameCountsIffSameMultiset(a, b);
    |a| == |b| && forall x :: x in a ==> Count(a, x) == Count(b, x)
  }

  /**
   * The hash code as the source computes it: a left fold of `step` (one
   * HashCodeBuilder.append) over the sub-specifications' hash codes, in
   * list order, starting from `seed`.
   */
  function HashFold<S>(subs: seq<S>, hash: S -> int, step: (int, int) -> int, seed: int): (h: int)
  {
    if subs == [] then seed
    else step(HashFold(subs[..|subs| - 1], hash, step, seed), hash(subs[|subs| - 1]))
  }

  /**
   * The fold is order-sensitive: whenever two appends do not commute, the
   * composites over [p, q] and [q, p] are equal yet hash differently.
   */
  lemma OrderSensitiveHash<S>(p: S, q: S, hash: S -> int, step: (int, int) -> int, seed: int)
    requires step(step(seed, hash(p)), hash(q)) != step(step(seed, hash(q)), hash(p))
    ensures IsEqualCollection([p, q], [q, p])
    ensures HashFold([p, q], hash, step, seed) != HashFold([q, p], hash, step, seed)
  {
    assert [p, q][..1] == [p] && [q, p][..1] == [q];
    assert [p][..0] == [] && [q][..0] == [];
    assert HashFold([p], hash, step, seed) == step(seed, hash(p));
    assert HashFold([q], hash, step, seed) == step(seed, hash(q));
  }

  /** Java `int` arithmetic: the two's-complement 32-bit value of `x`. */
  function ToInt32(x: int): (r: int)
    ensures -0x8000_0000 <= r < 0x8000_0000
    ensures (r - x) % 0x1_0000_0000 == 0
  {
    (x + 0x8000_0000) % 0x1_0000_0000 - 0x8000_0000
  }

  /** Values that fit in an `int` are their own 32-bit value. */
  lemma ToInt32OfInt32(x: int)
    requires -0x8000_0000 <= x < 0x8000_0000
    ensures ToInt32(x) == x
  {
    assert 0 <= x + 0x8000_0000 < 0x1_0000_0000;
  }

  /**
   * A concrete instance: HashCodeBuilder's append (multiply by 37, add the
   * element's hash) from its seed 17, with two sub-specifications whose hash
   * codes are 0 and 1.
   */
  lemma HashCodeBuilderBreaksEqualsContract()
    ensures var hash := (s: int) => s;
            var step := (acc: int, h: int) => ToInt32(acc * 37 + h);
            IsEqualCollection([0, 1], [1, 0]) &&
            HashFold([0, 1], hash, step, 17) == 23274 &&
            HashFold([1, 0], hash, step, 17) == 23310
  {
    var hash := (s: int) => s;
    var step := (acc: int, h: int) => ToInt32(acc * 37 + h);
    assert [0, 1][..1] == [0] && [1, 0][..1] == [1];
    assert [0][..0] == [] && [1][..0] == [];
    ToInt32OfInt32(629);
    ToInt32OfInt32(630);
    ToInt32OfInt32(23274);
    ToInt32OfInt32(23310);
    assert HashFold([0], hash, step, 17) == step(17, 0) == 629;
    assert HashFold([1], hash, step, 17) == step(17, 1) == 630;
    assert HashFold([0, 1], hash, step, 17) == step(629, 1) == 23274;
    assert HashFold([1, 0], hash, step, 17) == step(630, 0) == 23310;
    assert multiset([0, 1]) == multiset([1, 0]);
  }

  /**
   * An order-independent hash code: the sum of the sub-specifications' hash
   * codes (the combination java.util.AbstractSet uses), which composites
   * that are equal must share.
   */
  function OrderFreeHash<S>(subs: seq<S>, hash: S -> int): (h: int)
  {
    if subs == [] then 0 else hash(subs[0]) + OrderFreeHash(subs[1..], hash)
  }

  lemma {:induction false} OrderFreeHashAppend<S>(a: seq<S>, b: seq<S>, hash: S -> int)
    ensures OrderFreeHash(a + b, hash) == OrderFreeHash(a, hash) + OrderFreeHash(b, hash)
  {
    if a == [] {
      assert a + b == b;
    } else {
      assert (a + b)[1..] == a[1..] + b;
      OrderFreeHashAppend(a[1..], b, hash);
    }
  }

  /** Taking one element out of a list takes its hash out of the sum. */
  lemma OrderFreeHashRemove<S>(b: seq<S>, i: nat, hash: S -> int)
    requires i < |b|
    ensures OrderFreeHash(b, hash) == hash(b[i]) + OrderFreeHash(b[..i] + b[i + 1..], hash)
  {
    assert b == b[..i] + ([b[i]] + b[i + 1..]);
    OrderFreeHashAppend(b[..i], [b[i]] + b[i + 1..], hash);
    OrderFreeHashAppend(b[..i], b[i + 1..], hash);
    assert ([b[i]] + b[i + 1..])[1..] == b[i + 1..];
  }

  /** Taking one element out of a list takes one occurrence out of its multiset. */
  lemma MultisetRemove<S>(b: seq<S>, i: nat)
    requires i < |b|
    ensures multiset(b[..i] + b[i + 1..]) == multiset(b) - multiset{b[i]}
  {
    assert b == b[..i] + [b[i]] + b[i + 1..];
    assert multiset(b) == multiset(b[..i]) + multiset{b[i]} + multiset(b[i + 1..]);
  }

  /** Equal composites (same multiset of sub-specifications) have the same order-free hash. */
  lemma {:induction false} OrderFreeHashRespectsEquals<S>(a: seq<S>, b: seq<S>, hash: S -> int)
    requires multiset(a) == multiset(b)
    ensures OrderFreeHash(a, hash) == OrderFreeHash(b, hash)
    decreases |a|
  {
    if a != [] {
      var x := a[0];
      assert x in multiset(b);
      var i :| 0 <= i < |b| && b[i] == x;
      var rest := b[..i] + b[i + 1..];
      MultisetRemove(a, 0);
      MultisetRemove(b, i);
      assert a[..0] + a[1..] == a[1..];
      OrderFreeHashRespectsEquals(a[1..], rest, hash);
      OrderFreeHashRemove(b, i, hash);
    }
  }

  /**
   * What `equals` may be handed: another AndSpecification, or anything else
   * (another kind of specification, any other object, or null).
   */
  datatype Other<S(==), T> = AnAndSpecification(spec: AndSpecification<S, T>) | NotAnAndSpecification

  /** A composite over entities of type `T` with sub-specifications of type `S`. */
  class AndSpecification<S(==), T> {
    /** The sub-specifications, fixed at construction, in evaluation order. */
    const subSpecifications: seq<S>

    /** From a collection, in that collection's iteration order. */
    constructor FromCollection(specifications: seq<S>)
      ensures subSpecifications == specifications
    {
      subSpecifications := specifications;
    }

    /** From the varargs array, in array order. */
    constructor (specifications: array<S>)
      ensures subSpecifications == specifications[..]
    {
      subSpecifications := specifications[..];
    }

    /**
     * Asks the sub-specifications in list order and stops at the first one
     * that fails. `consulted` is how many were asked: all of them when the
     * result is true, otherwise exactly up to and including the failing
     * one, so those after it are never asked.
     */
    method IsSatisfiedBy(sat: (S, T) -> bool, entity: T) returns (satisfied: bool, ghost consulted: nat)
      ensures satisfied <==> forall i :: 0 <= i < |subSpecifications| ==> sat(subSpecifications[i], entity)
      ensures satisfied == AllSatisfy(subSpecifications, sat, entity)
      ensures consulted <= |subSpecifications|
      ensures forall i :: 0 <= i < consulted - 1 ==> sat(subSpecifications[i], entity)
      ensures satisfied ==> consulted == |subSpecifications|
      ensures !satisfied ==> 0 < consulted && !sat(subSpecifications[consulted - 1], entity)
    {
      AllSatisfyMeansEvery(subSpecifications, sat, entity);
      consulted := 0;
      for i := 0 to |subSpecifications|
        invariant consulted == i
        invariant forall k :: 0 <= k < i ==> sat(subSpecifications[k], entity)
      {
        consulted := consulted + 1;
        if !sat(subSpecifications[i], entity) {
          return false, consulted;
        }
      }
      satisfied := true;
    }

    /**
     * Not equal to anything that is not an AndSpecification; otherwise
     * equal exactly when both hold the same sub-specifications equally
     * often, whatever their order.
     */
    function Equals(obj: Other<S, T>): (r: bool)
      ensures r <==> obj.AnAndSpecification? && multiset(subSpecifications) == multiset(obj.spec.subSpecifications)
    {
      if !obj.AnAndSpecification? then false
      else if obj.spec == this then true
      else IsEqualCollection(subSpecifications, obj.spec.subSpecifications)
    }

    /** The hash code: HashCodeBuilder fed each sub-specification's hash in list order. */
    method HashCode(hash: S -> int, step: (int, int) -> int, seed: int) returns (h: int)
      ensures h == HashFold(subSpecifications, hash, step, seed)
    {
      h := seed;
      for i := 0 to |subSpecifications|
        invariant h == HashFold(subSpecifications[..i], hash, step, seed)
      {
        assert subSpecifications[..i + 1][..i] == subSpecifications[..i];
        h := step(h, hash(subSpecifications[i]));
      }
      assert subSpecifications[..|subSpecifications|] == subSpecifications;
    }
  }

  /** Every composite equals itself, and `equals` is symmetric. */
  lemma EqualsReflexiveAndSymmetric<S, T>(a: AndSpecification<S, T>, b: AndSpecification<S, T>)
    ensures a.Equals(AnAndSpecification(a))
    ensures a.Equals(AnAndSpecification(b)) == b.Equals(AnAndSpecification(a))
  {
  }

  /** `equals` is transitive. */
  lemma EqualsTransitive<S, T>(a: AndSpecification<S, T>, b: AndSpecification<S, T>, c: AndSpecification<S, T>)
    requires a.Equals(AnAndSpecification(b)) && b.Equals(AnAndSpecification(c))
    ensures a.Equals(AnAndSpecification(c))
  {
  }

  /** Composites over permuted lists compare equal. */
  lemma PermutedCompositesAreEqual<S, T>(a: AndSpecification<S, T>, b: AndSpecification<S, T>, p: seq<S>, q: seq<S>)
    requires a.subSpecifications == p + q && b.subSpecifications == q + p
    ensures a.Equals(AnAndSpecification(b))
  {
  }

  /** Composites with sub-specification lists of different sizes are never equal. */
  lemma DifferentSizesAreUnequal<S, T>(a: AndSpecification<S, T>, b: AndSpecification<S, T>)
    requires |a.subSpecifications| != |b.subSpecifications|
    ensures !a.Equals(AnAndSpecification(b))
  {
    assert |multiset(a.subSpecifications)| != |multiset(b.subSpecifications)|;
  }

  /** With the order-free hash, composites that are equal always share their hash code. */
  lemma EqualCompositesShareOrderFreeHash<S, T>(a: AndSpecification<S, T>, b: AndSpecification<S, T>, hash: S -> int)
    requires a.Equals(AnAndSpecification(b))
    ensures OrderFreeHash(a.subSpecifications, hash) == OrderFreeHash(b.subSpecifications, hash)
  {
    OrderFreeHashRespectsEquals(a.subSpecifications, b.subSpecifications, hash);
  }
}
