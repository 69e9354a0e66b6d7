/**
 The free relational operators of the list, over the element sequences that
 `begin()`..`end()` visits (a list's `Contents`).

 `<` is the standard library's lexicographical compare under the element
 order `lt`; `>`, `<=` and `>=` are derived from it as the header derives
 them; `==` is the three-iterator `std::equal`, which walks only the left
 operand. The as-written `<=` and `==` are kept beside corrected versions,
 and lemmas show where the two differ.
 */
module Relational {

  /** Neither of `x` and `y` is less than the other. */
  predicate Equivalent<T>(x: T, y: T, lt: (T, T) -> bool)
  {
    !lt(x, y) && !lt(y, x)
  }

  /** `lt` is a strict total order: irreflexive, transitive, and any two distinct values are ordered. */
  ghost predicate StrictTotalOrder<T(!new)>(lt: (T, T) -> bool)
  {
    && (forall x :: !lt(x, x))
    && (forall x, y, z :: lt(x, y) && lt(y, z) ==> lt(x, z))
    && (forall x, y :: x != y ==> lt(x, y) || lt(y, x))
  }

  /**
   `std::lexicographical_compare(a, b)`: walking both in lockstep, the first
   pair where one element is less than the other decides; if one sequence
   runs out first, it is less exactly when it is `a` and `b` still has elements.
   */
  function Less<T>(a: seq<T>, b: seq<T>, lt: (T, T) -> bool): (r: bool)
    ensures r <==> LexLess(a, b, lt)
    ensures r ==> b != []
    decreases |a|
  {
    if a == [] || b == [] then
      assert EquivalentPrefix(a, b, 0, lt);
      a == [] && b != []
    else if lt(a[0], b[0]) then
      assert EquivalentPrefix(a, b, 0, lt);
      true
    else if lt(b[0], a[0]) then
      assert forall k :: 0 < k <= |a| && k <= |b| ==> !EquivalentPrefix(a, b, k, lt);
      false
    else
      LexLessTail(a, b, lt);
      Less(a[1..], b[1..], lt)
  }

  /** `lhs > rhs` is `rhs < lhs`. */
  function Greater<T>(a: seq<T>, b: seq<T>, lt: (T, T) -> bool): (r: bool)
    ensures r <==> LexLess(b, a, lt)
  {
    Less(b, a, lt)
  }

  /** `lhs >= rhs` is `!(lhs < rhs)`. */
  function GreaterOrEqual<T>(a: seq<T>, b: seq<T>, lt: (T, T) -> bool): (r: bool)
    ensures r <==> !LexLess(a, b, lt)
  {
    !Less(a, b, lt)
  }

  /** `lhs <= rhs` as written: `!(rhs > lhs)`, which is `!(lhs < rhs)`. */
  function LessOrEqualAsWritten<T>(a: seq<T>, b: seq<T>, lt: (T, T) -> bool): (r: bool)
    ensures r <==> !LexLess(a, b, lt)
  {
    !Greater(b, a, lt)
  }

  /** `lhs <= rhs` as intended: `!(lhs > rhs)`. */
  function LessOrEqual<T>(a: seq<T>, b: seq<T>, lt: (T, T) -> bool): (r: bool)
    ensures r <==> !LexLess(b, a, lt)
  {
    !Greater(a, b, lt)
  }

  /**
   `lhs == rhs` as written: the three-iterator `std::equal`, which compares
   `a` element by element against the start of `b` and stops at the first
   mismatch. It reads past the end of `b`, which is undefined, exactly when
   `b` is shorter than `a` and equal to its start; every other input is defined.
   */
  function EqualAsWritten<T(==)>(a: seq<T>, b: seq<T>): (r: bool)
    requires |a| <= |b| || a[..|b|] != b
    ensures r <==> |a| <= |b| && a == b[..|a|]
    decreases |a|
  {
    if a == [] then true
    else
      assert a[..0] == [];
      assert a == [a[0]] + a[1..] && b == [b[0]] + b[1..];
      assert |b| < |a| ==> a[..|b|] == [a[0]] + a[1..][..|b| - 1];
      assert |a| <= |b| ==> b[..|a|] == [b[0]] + b[1..][..|a| - 1];
      a[0] == b[0] && EqualAsWritten(a[1..], b[1..])
  }

  /**
   `lhs == rhs` as intended: a lockstep walk that stops at the end of
   either sequence and counts a length mismatch as inequality.
   */
  function Equal<T(==)>(a: seq<T>, b: seq<T>): (r: bool)
    ensures r <==> a == b
    decreases |a|
  {
    if a == [] || b == [] then a == [] && b == []
    else
      assert a == [a[0]] + a[1..] && b == [b[0]] + b[1..];
      a[0] == b[0] && Equal(a[1..], b[1..])
  }

  /** `lhs != rhs` as written: `!(lhs == rhs)` over the as-written `==`. */
  function NotEqualAsWritten<T(==)>(a: seq<T>, b: seq<T>): (r: bool)
    requires |a| <= |b| || a[..|b|] != b
    ensures r <==> |a| > |b| || a != b[..|a|]
  {
    !EqualAsWritten(a, b)
  }

  /** `lhs != rhs` is `!(lhs == rhs)`, here over the intended `==`. */
  function NotEqual<T(==)>(a: seq<T>, b: seq<T>): (r: bool)
    ensures r <==> a != b
  {
    !Equal(a, b)
  }

  /** The first `k` elements of `a` and `b` are pairwise equivalent. */
  ghost predicate EquivalentPrefix<T>(a: seq<T>, b: seq<T>, k: nat, lt: (T, T) -> bool)
    requires k <= |a| && k <= |b|
  {
    forall i :: 0 <= i < k ==> Equivalent(a[i], b[i], lt)
  }

  /**
   Lexicographic order as a definition: either at the first index where the
   sequences are not equivalent `a` has the smaller element, or `a` is
   shorter and equivalent to the start of `b`.
   */
  ghost predicate LexLess<T>(a: seq<T>, b: seq<T>, lt: (T, T) -> bool)
  {
    || (exists k :: 0 <= k < |a| && k < |b| && EquivalentPrefix(a, b, k, lt) && lt(a[k], b[k]))
    || (|a| < |b| && EquivalentPrefix(a, b, |a|, lt))
  }

  /** After an equivalent first pair, the order of two sequences is the order of their tails. */
  lemma LexLessTail<T>(a: seq<T>, b: seq<T>, lt: (T, T) -> bool)
    requires a != [] && b != [] && Equivalent(a[0], b[0], lt)
    ensures LexLess(a, b, lt) <==> LexLess(a[1..], b[1..], lt)
  {
    var a', b' := a[1..], b[1..];
    forall k: nat | k <= |a'| && k <= |b'|
      ensures EquivalentPrefix(a, b, k + 1, lt) <==> EquivalentPrefix(a', b', k, lt)
    {
      if EquivalentPrefix(a', b', k, lt) {
        forall i | 0 <= i < k + 1 ensures Equivalent(a[i], b[i], lt) {
          if i > 0 {
            assert a[i] == a'[i - 1] && b[i] == b'[i - 1];
          }
        }
      }
      if EquivalentPrefix(a, b, k + 1, lt) {
        forall i | 0 <= i < k ensures Equivalent(a'[i], b'[i], lt) {
          assert a'[i] == a[i + 1] && b'[i] == b[i + 1];
        }
      }
    }
    if LexLess(a, b, lt) {
      if k :| 0 <= k < |a| && k < |b| && EquivalentPrefix(a, b, k, lt) && lt(a[k], b[k]) {
        assert k != 0;
        assert a'[k - 1] == a[k] && b'[k - 1] == b[k];
        assert EquivalentPrefix(a', b', k - 1, lt);
      }
    }
    if LexLess(a', b', lt) {
      if k :| 0 <= k < |a'| && k < |b'| && EquivalentPrefix(a', b', k, lt) && lt(a'[k], b'[k]) {
        assert a[k + 1] == a'[k] && b[k + 1] == b'[k];
        assert EquivalentPrefix(a, b, k + 1, lt);
      }
    }
  }

  /** Under an irreflexive `lt` no sequence is less than itself. */
  lemma {:induction false} LessIrreflexive<T>(a: seq<T>, lt: (T, T) -> bool)
    requires forall x :: !lt(x, x)
    ensures !Less(a, a, lt)
    decreases |a|
  {
    if a != [] {
      LessIrreflexive(a[1..], lt);
    }
  }

  /** Under a strict total order, equivalent elements are equal. */
  lemma EquivalentIsEqual<T(!new)>(x: T, y: T, lt: (T, T) -> bool)
    requires StrictTotalOrder(lt)
    ensures Equivalent(x, y, lt) <==> x == y
  {
  }

  /** `<` on sequences is transitive when `lt` is a strict total order. */
  lemma {:induction false} LessTransitive<T(!new)>(a: seq<T>, b: seq<T>, c: seq<T>, lt: (T, T) -> bool)
    requires StrictTotalOrder(lt) && Less(a, b, lt) && Less(b, c, lt)
    ensures Less(a, c, lt)
    decreases |a|
  {
    if a != [] {
      EquivalentIsEqual(a[0], b[0], lt);
      EquivalentIsEqual(b[0], c[0], lt);
      if !lt(a[0], b[0]) && !lt(b[0], c[0]) {
        LessTransitive(a[1..], b[1..], c[1..], lt);
      }
    }
  }

  /**
   Under a strict total order exactly one of `a < b`, `a == b` and `b < a`
   holds.
   */
  lemma {:induction false} LessTrichotomy<T(!new)>(a: seq<T>, b: seq<T>, lt: (T, T) -> bool)
    requires StrictTotalOrder(lt)
    ensures Less(a, b, lt) || a == b || Less(b, a, lt)
    ensures !(Less(a, b, lt) && Less(b, a, lt))
    ensures a == b ==> !Less(a, b, lt)
    decreases |a|
  {
    LessIrreflexive(a, lt);
    if a != [] && b != [] {
      EquivalentIsEqual(a[0], b[0], lt);
      if a[0] == b[0] {
        LessTrichotomy(a[1..], b[1..], lt);
        assert a == [a[0]] + a[1..] && b == [b[0]] + b[1..];
      }
    }
  }

  /** The intended `<=` is "less than or equal" under a strict total order. */
  lemma LessOrEqualIsLessOrEqual<T(!new)>(a: seq<T>, b: seq<T>, lt: (T, T) -> bool)
    requires StrictTotalOrder(lt)
    ensures LessOrEqual(a, b, lt) <==> Less(a, b, lt) || a == b
  {
    LessTrichotomy(a, b, lt);
  }

  /** `>=` is "greater than or equal" under a strict total order, as its commented alternative says. */
  lemma GreaterOrEqualIsGreaterOrEqual<T(!new)>(a: seq<T>, b: seq<T>, lt: (T, T) -> bool)
    requires StrictTotalOrder(lt)
    ensures GreaterOrEqual(a, b, lt) <==> Greater(a, b, lt) || a == b
  {
    LessTrichotomy(a, b, lt);
  }

  /** `!=` is inequality, and under a strict total order it is `lhs > rhs || lhs < rhs`. */
  lemma NotEqualIsLessOrGreater<T(!new)>(a: seq<T>, b: seq<T>, lt: (T, T) -> bool)
    requires StrictTotalOrder(lt)
    ensures NotEqual(a, b) <==> a != b
    ensures NotEqual(a, b) <==> Greater(a, b, lt) || Less(a, b, lt)
  {
    LessTrichotomy(a, b, lt);
  }

  /** The as-written `<=` is `>=`, for every element relation. */
  lemma LessOrEqualAsWrittenIsGreaterOrEqual<T>(a: seq<T>, b: seq<T>, lt: (T, T) -> bool)
    ensures LessOrEqualAsWritten(a, b, lt) <==> GreaterOrEqual(a, b, lt)
  {
  }

  /** When the lengths agree, the as-written `==` is the intended one. */
  lemma EqualAsWrittenOnEqualLengths<T>(a: seq<T>, b: seq<T>)
    requires |a| == |b|
    ensures EqualAsWritten(a, b) <==> Equal(a, b)
  {
    assert b[..|a|] == b;
  }

  /** The usual order on integers. */
  function IntLess(x: int, y: int): bool
  {
    x < y
  }

  /** `<` on integers is a strict total order. */
  lemma IntLessIsStrictTotalOrder()
    ensures StrictTotalOrder(IntLess)
  {
  }

  /** `{1} <= {2}` as written is false although `{1} < {2}`. */
  lemma LessOrEqualAsWrittenCounterexample()
    ensures Less([1], [2], IntLess)
    ensures !LessOrEqualAsWritten([1], [2], IntLess)
    ensures LessOrEqual([1], [2], IntLess)
  {
    assert [1][1..] == [] && [2][1..] == [];
  }

  /** `{1, 2} == {1, 2, 3}` as written is true, since only the left operand is walked. */
  lemma EqualAsWrittenCounterexample()
    ensures EqualAsWritten([1, 2], [1, 2, 3])
    ensures !Equal([1, 2], [1, 2, 3])
    ensures !NotEqualAsWritten([1, 2], [1, 2, 3]) && NotEqual([1, 2], [1, 2, 3])
  {
    assert [1, 2, 3][..2] == [1, 2];
  }

  /** The comparisons the container's design promises, on small integer lists. */
  lemma ComparisonExamples()
    ensures Equal([1, 2, 3], [1, 2, 3]) && !Equal([1, 2], [1, 2, 3])
    ensures NotEqual([1, 2, 3], [1, 3, 2])
    ensures Less([1, 2], [1, 2, 3], IntLess)
    ensures Greater([1, 3], [1, 2, 9], IntLess)
    ensures Less([], [1], IntLess)
    ensures Equal<int>([], [])
  {
    assert [1, 2][1..] == [2] && [1, 2, 3][1..] == [2, 3];
    assert [2][1..] == [] && [2, 3][1..] == [3];
    assert [1, 3][1..] == [3] && [1, 2, 9][1..] == [2, 9];
  }
}
