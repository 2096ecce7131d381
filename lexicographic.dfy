/** The two standard algorithms the free comparison operators of SimpleVector are
    built from: the four-iterator std::equal and std::lexicographical_compare, both
    over the observable ranges [begin, end) of two vectors, here as sequences.
    The element order `less` stands for the element type's operator<. */
module Lexicographic {

  /** The element order is irreflexive: no element is less than itself. */
  ghost predicate Irreflexive<T(!new)>(less: (T, T) -> bool) {
    forall a :: !less(a, a)
  }

  ghost predicate Transitive<T(!new)>(less: (T, T) -> bool) {
    forall a, b, c :: less(a, b) && less(b, c) ==> less(a, c)
  }

  /** Any two distinct elements are ordered one way or the other. */
  ghost predicate Connected<T(!new)>(less: (T, T) -> bool) {
    forall a, b :: a != b ==> less(a, b) || less(b, a)
  }

  /** operator< of the element type is a strict total order; then two elements
      neither of which is less than the other are equal. */
  ghost predicate StrictTotalOrder<T(!new)>(less: (T, T) -> bool) {
    Irreflexive(less) && Transitive(less) && Connected(less)
  }

  /** std::equal(first1, last1, first2, last2): the ranges have the same length and
      agree element by element. */
  function RangesEqual<T(==)>(s: seq<T>, t: seq<T>): (r: bool)
    ensures r <==> |s| == |t| && forall i :: 0 <= i < |s| ==> s[i] == t[i]
    ensures r <==> s == t
  {
    if s == [] || t == [] then s == [] && t == []
    else s[0] == t[0] && RangesEqual(s[1..], t[1..])
  }

  /** s and t agree on their first k elements up to the equivalence that `less`
      induces (neither element is less than the other). */
  ghost predicate EquivalentPrefix<T>(s: seq<T>, t: seq<T>, less: (T, T) -> bool, k: nat)
    requires k <= |s| && k <= |t|
  {
    forall j :: 0 <= j < k ==> !less(s[j], t[j]) && !less(t[j], s[j])
  }

  /** Reference definition of lexicographic order: after a common equivalent prefix
      of length k, either s is exhausted and t is not, or s[k] is less than t[k]. */
  ghost predicate LexLess<T>(s: seq<T>, t: seq<T>, less: (T, T) -> bool) {
    exists k: nat :: k <= |s| && k <= |t| && EquivalentPrefix(s, t, less, k) &&
      ((k == |s| && k < |t|) || (k < |s| && k < |t| && less(s[k], t[k])))
  }

  /** Dropping a pair of equivalent heads does not change the reference order. */
  lemma LexLessTail<T>(s: seq<T>, t: seq<T>, less: (T, T) -> bool)
    requires s != [] && t != []
    requires !less(s[0], t[0]) && !less(t[0], s[0])
    ensures LexLess(s, t, less) <==> LexLess(s[1..], t[1..], less)
  {
    if LexLess(s, t, less) {
      var k: nat :| k <= |s| && k <= |t| && EquivalentPrefix(s, t, less, k) &&
        ((k == |s| && k < |t|) || (k < |s| && k < |t| && less(s[k], t[k])));
      assert k > 0;
      assert EquivalentPrefix(s[1..], t[1..], less, k - 1) by {
        forall j | 0 <= j < k - 1
          ensures !less(s[1..][j], t[1..][j]) && !less(t[1..][j], s[1..][j])
        {
          assert s[1..][j] == s[j + 1] && t[1..][j] == t[j + 1];
        }
      }
    }
    if LexLess(s[1..], t[1..], less) {
      var k: nat :| k <= |s[1..]| && k <= |t[1..]| && EquivalentPrefix(s[1..], t[1..], less, k) &&
        ((k == |s[1..]| && k < |t[1..]|) || (k < |s[1..]| && k < |t[1..]| && less(s[1..][k], t[1..][k])));
      assert EquivalentPrefix(s, t, less, k + 1) by {
        forall j | 0 <= j < k + 1
          ensures !less(s[j], t[j]) && !less(t[j], s[j])
        {
          if j > 0 {
            assert s[j] == s[1..][j - 1] && t[j] == t[1..][j - 1];
          }
        }
      }
    }
  }

  /** std::lexicographical_compare(first1, last1, first2, last2): walk both ranges;
      the first element less than its partner decides for, the first element greater
      decides against; otherwise s is less exactly when it runs out first. */
  function LexCompare<T>(s: seq<T>, t: seq<T>, less: (T, T) -> bool): (r: bool)
    ensures r <==> LexLess(s, t, less)
  {
    if t == [] then
      assert !LexLess(s, t, less);
      false
    else if s == [] then
      assert EquivalentPrefix(s, t, less, 0);
      true
    else if less(s[0], t[0]) then
      assert EquivalentPrefix(s, t, less, 0);
      true
    else if less(t[0], s[0]) then
      assert EquivalentPrefix(s, t, less, 0);
      false
    else
      LexLessTail(s, t, less);
      LexCompare(s[1..], t[1..], less)
  }

  /** No sequence is less than itself when no element is less than itself. */
  lemma {:induction false} LexIrreflexive<T(!new)>(s: seq<T>, less: (T, T) -> bool)
    requires Irreflexive(less)
    ensures !LexCompare(s, s, less)
  {
    if s != [] {
      LexIrreflexive(s[1..], less);
    }
  }

  /** Lexicographic order is asymmetric when the element order is a strict order. */
  lemma {:induction false} LexAsymmetric<T(!new)>(s: seq<T>, t: seq<T>, less: (T, T) -> bool)
    requires Irreflexive(less) && Transitive(less)
    ensures LexCompare(s, t, less) ==> !LexCompare(t, s, less)
  {
    if s != [] && t != [] && !less(s[0], t[0]) && !less(t[0], s[0]) {
      LexAsymmetric(s[1..], t[1..], less);
    }
  }

  /** Two different sequences are ordered one way or the other when the element
      order is connected. */
  lemma {:induction false} LexConnected<T(!new)>(s: seq<T>, t: seq<T>, less: (T, T) -> bool)
    requires Connected(less)
    ensures s != t ==> LexCompare(s, t, less) || LexCompare(t, s, less)
  {
    if s != [] && t != [] && !less(s[0], t[0]) && !less(t[0], s[0]) {
      assert s[0] == t[0];
      assert s == [s[0]] + s[1..] && t == [t[0]] + t[1..];
      LexConnected(s[1..], t[1..], less);
    }
  }

  /** Lexicographic order is transitive when the element order is a strict total order. */
  lemma {:induction false} LexTransitive<T(!new)>(s: seq<T>, t: seq<T>, u: seq<T>, less: (T, T) -> bool)
    requires StrictTotalOrder(less)
    ensures LexCompare(s, t, less) && LexCompare(t, u, less) ==> LexCompare(s, u, less)
  {
    if s != [] && t != [] && u != [] {
      LexTransitive(s[1..], t[1..], u[1..], less);
      if !less(s[0], t[0]) && !less(t[0], s[0]) {
        assert s[0] == t[0];
      }
      if !less(t[0], u[0]) && !less(u[0], t[0]) {
        assert t[0] == u[0];
      }
    }
  }

  /** With a strict total order, "not less and not equal" is exactly "greater":
      the derived operator> is the converse of operator<. */
  lemma ConverseIfTotal<T(!new)>(s: seq<T>, t: seq<T>, less: (T, T) -> bool)
    ensures StrictTotalOrder(less) ==> ((!LexCompare(s, t, less) && s != t) <==> LexCompare(t, s, less))
  {
    if StrictTotalOrder(less) {
      LexAsymmetric(s, t, less);
      LexAsymmetric(t, s, less);
      LexConnected(s, t, less);
      LexIrreflexive(s, less);
    }
  }

  /** LexIrreflexive, stated for callers that cannot branch on the order. */
  lemma IrreflexiveIfTotal<T(!new)>(s: seq<T>, less: (T, T) -> bool)
    ensures StrictTotalOrder(less) ==> !LexCompare(s, s, less)
  {
    if StrictTotalOrder(less) {
      LexIrreflexive(s, less);
    }
  }
}
