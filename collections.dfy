/**
 * Ordering glue used by the repository's sorted selections: what a
 * `java.util.Comparator` is required to be, what a list sorted under it is,
 * and a stable sort that stands for `java.util.Collections.sort`.
 */
module Collections {

  /**
   * A comparator (negative, zero or positive, as `compare` returns) whose
   * "not greater than" relation is a total preorder on `elems`: every two
   * of them are comparable and the relation is transitive.
   */
  ghost predicate TotalPreorder<T>(cmp: (T, T) -> int, elems: set<T>) {
    && (forall a, b :: a in elems && b in elems ==> cmp(a, b) <= 0 || cmp(b, a) <= 0)
    && (forall a, b, c :: a in elems && b in elems && c in elems && cmp(a, b) <= 0 && cmp(b, c) <= 0 ==> cmp(a, c) <= 0)
  }

  /** Every element is not greater than any element after it. */
  ghost predicate Sorted<T>(s: seq<T>, cmp: (T, T) -> int) {
    forall i, j :: 0 <= i < j < |s| ==> cmp(s[i], s[j]) <= 0
  }

  /** No element occurs twice, as in any list that enumerates a set. */
  ghost predicate NoDuplicates<T>(s: seq<T>) {
    forall i, j :: 0 <= i < j < |s| ==> s[i] != s[j]
  }

  /**
   * Inserts `x` into `s` in front of the first element it is not greater
   * than, so that `x` stays ahead of the elements it ties with.
   */
  function Insert<T>(x: T, s: seq<T>, cmp: (T, T) -> int): (r: seq<T>)
    ensures multiset(r) == multiset(s) + multiset{x}
  {
    if s == [] then [x]
    else if cmp(x, s[0]) <= 0 then [x] + s
    else
      assert s == [s[0]] + s[1..];
      [s[0]] + Insert(x, s[1..], cmp)
  }

  /**
   * A stable insertion sort, standing for `Collections.sort`: the result
   * holds the same elements as `s`, each as often (see SortIsSorted for the
   * order).
   */
  function Sort<T>(s: seq<T>, cmp: (T, T) -> int): (r: seq<T>)
    ensures multiset(r) == multiset(s)
  {
    if s == [] then []
    else
      assert s == [s[0]] + s[1..];
      Insert(s[0], Sort(s[1..], cmp), cmp)
  }

  /** A list is sorted if its tail is and its head is not greater than any of the tail. */
  lemma SortedCons<T>(h: T, t: seq<T>, cmp: (T, T) -> int)
    requires Sorted(t, cmp)
    requires forall y :: y in t ==> cmp(h, y) <= 0
    ensures Sorted([h] + t, cmp)
  {
    forall i, j | 0 <= i < j < |[h] + t| ensures cmp(([h] + t)[i], ([h] + t)[j]) <= 0 {
      if i > 0 {
        assert ([h] + t)[i] == t[i - 1];
      }
      assert ([h] + t)[j] == t[j - 1];
    }
  }

  lemma {:induction false} InsertIsSorted<T>(x: T, s: seq<T>, cmp: (T, T) -> int, elems: set<T>)
    requires TotalPreorder(cmp, elems) && x in elems && forall y :: y in s ==> y in elems
    requires Sorted(s, cmp)
    ensures Sorted(Insert(x, s, cmp), cmp)
  {
    if s == [] {
    } else if cmp(x, s[0]) <= 0 {
      forall y | y in s ensures cmp(x, y) <= 0 {
        var j :| 0 <= j < |s| && s[j] == y;
        if j > 0 {
          assert cmp(s[0], s[j]) <= 0;
          assert s[0] in elems && y in elems;
        }
      }
      SortedCons(x, s, cmp);
    } else {
      assert s[0] in elems;
      assert cmp(s[0], x) <= 0;
      assert Sorted(s[1..], cmp) by {
        forall i, j | 0 <= i < j < |s[1..]| ensures cmp(s[1..][i], s[1..][j]) <= 0 {
          assert s[1..][i] == s[i + 1] && s[1..][j] == s[j + 1];
        }
      }
      InsertIsSorted(x, s[1..], cmp, elems);
      var rest := Insert(x, s[1..], cmp);
      forall y | y in rest ensures cmp(s[0], y) <= 0 {
        assert y in multiset(rest);
        if y != x {
          assert y in s[1..];
          var j :| 1 <= j < |s| && s[j] == y;
          assert cmp(s[0], s[j]) <= 0;
        }
      }
      SortedCons(s[0], rest, cmp);
    }
  }

  /** Sort orders any list whose elements its comparator totally preorders. */
  lemma {:induction false} SortIsSorted<T>(s: seq<T>, cmp: (T, T) -> int, elems: set<T>)
    requires TotalPreorder(cmp, elems) && forall y :: y in s ==> y in elems
    ensures Sorted(Sort(s, cmp), cmp)
  {
    if s != [] {
      assert s == [s[0]] + s[1..];
      assert forall y :: y in s[1..] ==> y in s;
      SortIsSorted(s[1..], cmp, elems);
      var rest := Sort(s[1..], cmp);
      forall y | y in rest ensures y in elems {
        assert y in multiset(rest);
      }
      InsertIsSorted(s[0], rest, cmp, elems);
    }
  }

  /** A rearrangement of a list without duplicates has none either. */
  lemma {:induction false} PermutationKeepsNoDuplicates<T>(s: seq<T>, r: seq<T>)
    requires multiset(r) == multiset(s) && NoDuplicates(s)
    ensures NoDuplicates(r)
  {
    forall i, j | 0 <= i < j < |r| ensures r[i] != r[j] {
      if r[i] == r[j] {
        assert r == r[..j] + [r[j]] + r[j + 1..];
        assert r[i] in r[..j];
        assert multiset(r)[r[i]] >= 2 by {
          assert multiset(r) == multiset(r[..j]) + multiset{r[j]} + multiset(r[j + 1..]);
        }
        AtMostOnce(s, r[i]);
        assert false;
      }
    }
  }

  /** In a list without duplicates, each value occurs at most once. */
  lemma {:induction false} AtMostOnce<T>(s: seq<T>, x: T)
    requires NoDuplicates(s)
    ensures multiset(s)[x] <= 1
  {
    if s != [] {
      assert s == [s[0]] + s[1..];
      assert NoDuplicates(s[1..]) by {
        forall i, j | 0 <= i < j < |s[1..]| ensures s[1..][i] != s[1..][j] {
          assert s[1..][i] == s[i + 1] && s[1..][j] == s[j + 1];
        }
      }
      AtMostOnce(s[1..], x);
      if s[0] == x {
        assert x !in s[1..];
      }
    }
  }

  /** A list without duplicates whose only element is `x` is `[x]`. */
  lemma OnlyElement<T>(s: seq<T>, x: T)
    requires NoDuplicates(s) && x in s
    requires forall y :: y in s ==> y == x
    ensures s == [x]
  {
    assert |s| >= 2 ==> s[0] != s[1];
    forall i | 0 <= i < |s| ensures s[i] == x {
      assert s[i] in s;
    }
  }

  /** Lists that are rearrangements of each other hold the same elements. */
  lemma SameElements<T>(s: seq<T>, r: seq<T>)
    requires multiset(r) == multiset(s)
    ensures forall x :: x in r <==> x in s
  {
    forall x ensures x in r <==> x in s {
      assert x in r <==> x in multiset(r);
      assert x in s <==> x in multiset(s);
    }
  }
}
