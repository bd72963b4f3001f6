// The free comparison operators of the list. Each one only reads the two
// element sequences, so the algorithms they delegate to (element-wise
// equality over a range, lexicographic comparison of two ranges) are pure
// functions on sequences here; the list-level operators read the sequences
// off the chains with a range walk and apply them.
module Comparison {

  import opened LinkedList

  /**
   * The element-wise walk of `a` against the front of `b` stays inside `b`:
   * either `b` is at least as long, or the two differ before `b` runs out.
   */
  ghost predicate EqualWalkDefined<T>(a: seq<T>, b: seq<T>)
  {
    |a| <= |b| || a[..|b|] != b
  }

  /**
   * Element-wise equality of the range `a` with the range of equal length
   * starting at the front of `b`, stopping at the first mismatch. True
   * exactly when `a` is a prefix of `b`.
   */
  function RangeEqual<T(==)>(a: seq<T>, b: seq<T>): (r: bool)
    requires EqualWalkDefined(a, b)
    ensures r <==> |a| <= |b| && a == b[..|a|]
    decreases |a|
  {
    if a == [] then true
    else
      if a[0] != b[0] then false
      else
        assert a == [a[0]] + a[1..] && b == [b[0]] + b[1..];
        assert |b| < |a| ==> a[..|b|] == [a[0]] + a[1..][..|b| - 1];
        assert |a| <= |b| ==> b[..|a|] == [b[0]] + b[1..][..|a| - 1];
        RangeEqual(a[1..], b[1..])
  }

  /** `==`: the sizes agree and the elements agree pairwise, in order. */
  function Equal<T(==)>(a: seq<T>, b: seq<T>): (r: bool)
    ensures r <==> a == b
  {
    if |a| != |b| then false else RangeEqual(a, b)
  }

  /** `!=`: the negation of `==`. */
  function NotEqual<T(==)>(a: seq<T>, b: seq<T>): (r: bool)
    ensures r <==> a != b
  {
    !Equal(a, b)
  }

  /**
   * Lexicographic comparison of two ranges under `less`: walk both while
   * neither is exhausted; the first position where one element is less
   * than the other decides; otherwise the shorter range is less when it ran
   * out first and the other did not.
   */
  function LexLess<T>(a: seq<T>, b: seq<T>, less: (T, T) -> bool): (r: bool)
    ensures r ==> b != []
    ensures a == [] ==> (r <==> b != [])
    decreases |a|
  {
    if a == [] || b == [] then a == [] && b != []
    else if less(a[0], b[0]) then true
    else if less(b[0], a[0]) then false
    else LexLess(a[1..], b[1..], less)
  }

  /** `<=` is "the right-hand side is not less". */
  function LessEq<T>(a: seq<T>, b: seq<T>, less: (T, T) -> bool): (r: bool)
    ensures a == [] ==> r
    ensures b == [] ==> (r <==> a == [])
  {
    !LexLess(b, a, less)
  }

  /** `>` is `<` with the operands exchanged. */
  function Greater<T>(a: seq<T>, b: seq<T>, less: (T, T) -> bool): (r: bool)
    ensures r ==> a != []
    ensures b == [] ==> (r <==> a != [])
  {
    LexLess(b, a, less)
  }

  /** `>=` is "not less". */
  function GreaterEq<T>(a: seq<T>, b: seq<T>, less: (T, T) -> bool): (r: bool)
    ensures b == [] ==> r
    ensures a == [] ==> (r <==> b == [])
  {
    !LexLess(a, b, less)
  }

  ghost predicate Irreflexive<T(!new)>(less: (T, T) -> bool)
  {
    forall x :: !less(x, x)
  }

  ghost predicate Transitive<T(!new)>(less: (T, T) -> bool)
  {
    forall x, y, z :: less(x, y) && less(y, z) ==> less(x, z)
  }

  /** Any two elements that are not ordered either way are equal. */
  ghost predicate Total<T(!new)>(less: (T, T) -> bool)
  {
    forall x, y :: !less(x, y) && !less(y, x) ==> x == y
  }

  /** What `<` on the element type is expected to be: a strict total order. */
  ghost predicate StrictTotalOrder<T(!new)>(less: (T, T) -> bool)
  {
    Irreflexive(less) && Transitive(less) && Total(less)
  }

  /** `a` and `b` agree on their first `k` elements, where `a` is less than `b`. */
  ghost predicate DiffersAt<T>(a: seq<T>, b: seq<T>, less: (T, T) -> bool, k: nat)
  {
    k < |a| && k < |b| && a[..k] == b[..k] && less(a[k], b[k])
  }

  /** `a` is a proper prefix of `b`. */
  ghost predicate ProperPrefix<T>(a: seq<T>, b: seq<T>)
  {
    |a| < |b| && a == b[..|a|]
  }

  /** No sequence is less than itself. */
  lemma {:induction false} LexLessIrreflexive<T(!new)>(a: seq<T>, less: (T, T) -> bool)
    requires Irreflexive(less)
    ensures !LexLess(a, a, less)
    decreases |a|
  {
    if a != [] {
      assert !less(a[0], a[0]);
      LexLessIrreflexive(a[1..], less);
    }
  }

  /** A proper prefix is less than the longer sequence. */
  lemma {:induction false} ProperPrefixIsLess<T(!new)>(a: seq<T>, b: seq<T>, less: (T, T) -> bool)
    requires Irreflexive(less) && ProperPrefix(a, b)
    ensures LexLess(a, b, less)
    decreases |a|
  {
    if a != [] {
      assert a[0] == b[0] && !less(a[0], a[0]);
      assert a[1..] == b[1..][..|a| - 1];
      ProperPrefixIsLess(a[1..], b[1..], less);
    }
  }

  /**
   * Under a strict total order, `a` is less than `b` exactly when it is a
   * proper prefix of `b` or the first differing element of `a` is the
   * smaller one.
   */
  lemma {:induction false} LexLessIffFirstDifference<T(!new)>(a: seq<T>, b: seq<T>, less: (T, T) -> bool)
    requires StrictTotalOrder(less)
    ensures LexLess(a, b, less) <==> ProperPrefix(a, b) || exists k :: DiffersAt(a, b, less, k)
    decreases |a|
  {
    if a == [] || b == [] {
      assert !exists k :: DiffersAt(a, b, less, k);
      if a == [] && b != [] {
        assert a == b[..|a|];
      }
    } else if less(a[0], b[0]) {
      assert DiffersAt(a, b, less, 0);
    } else if less(b[0], a[0]) {
      assert !ProperPrefix(a, b);
      assert a[0] != b[0] by {
        assert !less(a[0], a[0]);
      }
      forall k: nat | 0 < k < |a| && k < |b|
        ensures a[..k] != b[..k]
      {
        assert a[..k][0] == a[0] && b[..k][0] == b[0];
      }
    } else {
      assert a[0] == b[0];
      LexLessIffFirstDifference(a[1..], b[1..], less);
      ShiftPrefix(a, b);
      ShiftDifference(a, b, less);
    }
  }

  /** With equal heads, prefixes correspond one position further on. */
  lemma ShiftPrefix<T>(a: seq<T>, b: seq<T>)
    requires a != [] && b != [] && a[0] == b[0]
    ensures ProperPrefix(a, b) <==> ProperPrefix(a[1..], b[1..])
  {
    if ProperPrefix(a[1..], b[1..]) {
      assert a == [a[0]] + a[1..] && b[..|a|] == [b[0]] + b[1..][..|a| - 1];
    }
  }

  /** With equal heads, a first difference moves one position on. */
  lemma ShiftDifference<T(!new)>(a: seq<T>, b: seq<T>, less: (T, T) -> bool)
    requires a != [] && b != [] && a[0] == b[0] && Irreflexive(less)
    ensures (exists k :: DiffersAt(a, b, less, k)) <==> (exists k :: DiffersAt(a[1..], b[1..], less, k))
  {
    if k: nat :| DiffersAt(a, b, less, k) {
      assert 0 < k < |a| && k < |b| by {
        assert !less(a[0], a[0]);
      }
      assert a[1..][..k - 1] == a[..k][1..] && b[1..][..k - 1] == b[..k][1..];
      assert DiffersAt(a[1..], b[1..], less, k - 1);
    }
    if k: nat :| DiffersAt(a[1..], b[1..], less, k) {
      assert a[..k + 1] == [a[0]] + a[1..][..k] && b[..k + 1] == [b[0]] + b[1..][..k];
      assert DiffersAt(a, b, less, k + 1);
    }
  }

  /**
   * Under a strict total order exactly one of `a < b`, `a == b`, `b < a`
   * holds.
   */
  lemma {:induction false} LexLessTrichotomy<T(!new)>(a: seq<T>, b: seq<T>, less: (T, T) -> bool)
    requires StrictTotalOrder(less)
    ensures a == b <==> !LexLess(a, b, less) && !LexLess(b, a, less)
    ensures !(LexLess(a, b, less) && LexLess(b, a, less))
    decreases |a|
  {
    if a == [] || b == [] {
    } else if less(a[0], b[0]) {
      assert !less(b[0], a[0]) by {
        assert !less(a[0], a[0]);
      }
    } else if less(b[0], a[0]) {
    } else {
      assert a[0] == b[0];
      LexLessTrichotomy(a[1..], b[1..], less);
      if a[1..] == b[1..] {
        assert a == [a[0]] + a[1..] && b == [b[0]] + b[1..];
      }
    }
  }

  /** Lexicographic `<` is transitive when the element order is. */
  lemma {:induction false} LexLessTransitive<T(!new)>(a: seq<T>, b: seq<T>, c: seq<T>, less: (T, T) -> bool)
    requires StrictTotalOrder(less)
    requires LexLess(a, b, less) && LexLess(b, c, less)
    ensures LexLess(a, c, less)
    decreases |a|
  {
    if a == [] {
    } else {
      assert b != [] && c != [];
      if less(a[0], b[0]) || less(b[0], c[0]) {
        assert less(a[0], c[0]) by {
          if !less(a[0], b[0]) {
            assert a[0] == b[0];
          } else if !less(b[0], c[0]) {
            assert b[0] == c[0];
          }
        }
      } else {
        assert a[0] == b[0] == c[0];
        LexLessTransitive(a[1..], b[1..], c[1..], less);
      }
    }
  }

  /** Under a strict total order `<=` is "less or equal". */
  lemma LessEqIff<T(!new)>(a: seq<T>, b: seq<T>, less: (T, T) -> bool)
    requires StrictTotalOrder(less)
    ensures LessEq(a, b, less) <==> LexLess(a, b, less) || a == b
  {
    LexLessTrichotomy(a, b, less);
  }

  /** Under a strict total order `>` is "neither less nor equal". */
  lemma GreaterIff<T(!new)>(a: seq<T>, b: seq<T>, less: (T, T) -> bool)
    requires StrictTotalOrder(less)
    ensures Greater(a, b, less) <==> !LexLess(a, b, less) && a != b
  {
    LexLessTrichotomy(a, b, less);
  }

  /** Under a strict total order `>=` is "greater or equal". */
  lemma GreaterEqIff<T(!new)>(a: seq<T>, b: seq<T>, less: (T, T) -> bool)
    requires StrictTotalOrder(less)
    ensures GreaterEq(a, b, less) <==> LexLess(b, a, less) || a == b
  {
    LexLessTrichotomy(a, b, less);
  }

  /**
   * The list-level `==`: unequal counters answer false at once; otherwise
   * the elements of `lhs` are compared pairwise with as many of `rhs` until
   * the first mismatch. That walk must not run off the end of `rhs`, which
   * holds whenever both counters are right.
   */
  method ListEqual<T(0, ==)>(lhs: SingleLinkedList<T>, rhs: SingleLinkedList<T>) returns (r: bool)
    requires lhs.Linked() && rhs.Linked()
    requires lhs.size == rhs.size ==> EqualWalkDefined(lhs.elems, rhs.elems)
    ensures r <==> lhs.size == rhs.size && |lhs.elems| <= |rhs.elems| && lhs.elems == rhs.elems[..|lhs.elems|]
    ensures lhs.Valid() && rhs.Valid() ==> (r <==> lhs.elems == rhs.elems)
  {
    if lhs.GetSize() != rhs.GetSize() {
      return false;
    }
    var a := lhs.Values();
    var b := rhs.Values();
    r := RangeEqual(a, b);
  }

  /** The list-level `!=`. */
  method ListNotEqual<T(0, ==)>(lhs: SingleLinkedList<T>, rhs: SingleLinkedList<T>) returns (r: bool)
    requires lhs.Linked() && rhs.Linked()
    requires lhs.size == rhs.size ==> EqualWalkDefined(lhs.elems, rhs.elems)
    ensures r <==> !(lhs.size == rhs.size && |lhs.elems| <= |rhs.elems| && lhs.elems == rhs.elems[..|lhs.elems|])
    ensures lhs.Valid() && rhs.Valid() ==> (r <==> lhs.elems != rhs.elems)
  {
    r := ListEqual(lhs, rhs);
    r := !r;
  }

  /** The list-level `<`: lexicographic comparison of the two ranges. */
  method ListLess<T(0, !new)>(lhs: SingleLinkedList<T>, rhs: SingleLinkedList<T>, less: (T, T) -> bool) returns (r: bool)
    requires lhs.Linked() && rhs.Linked()
    ensures r == LexLess(lhs.elems, rhs.elems, less)
    ensures StrictTotalOrder(less) ==>
              (r <==> ProperPrefix(lhs.elems, rhs.elems) || exists k :: DiffersAt(lhs.elems, rhs.elems, less, k))
  {
    var a := lhs.Values();
    var b := rhs.Values();
    r := LexLess(a, b, less);
    if StrictTotalOrder(less) {
      LexLessIffFirstDifference(a, b, less);
    }
  }

  /** The list-level `<=`: `rhs` is not less than `lhs`. */
  method ListLessEq<T(0, !new)>(lhs: SingleLinkedList<T>, rhs: SingleLinkedList<T>, less: (T, T) -> bool) returns (r: bool)
    requires lhs.Linked() && rhs.Linked()
    ensures r == LessEq(lhs.elems, rhs.elems, less)
    ensures StrictTotalOrder(less) ==> (r <==> LexLess(lhs.elems, rhs.elems, less) || lhs.elems == rhs.elems)
  {
    r := ListLess(rhs, lhs, less);
    r := !r;
    if StrictTotalOrder(less) {
      LessEqIff(lhs.elems, rhs.elems, less);
    }
  }

  /** The list-level `>`: `rhs` is less than `lhs`. */
  method ListGreater<T(0, !new)>(lhs: SingleLinkedList<T>, rhs: SingleLinkedList<T>, less: (T, T) -> bool) returns (r: bool)
    requires lhs.Linked() && rhs.Linked()
    ensures r == Greater(lhs.elems, rhs.elems, less)
    ensures StrictTotalOrder(less) ==> (r <==> !LexLess(lhs.elems, rhs.elems, less) && lhs.elems != rhs.elems)
  {
    r := ListLess(rhs, lhs, less);
    if StrictTotalOrder(less) {
      GreaterIff(lhs.elems, rhs.elems, less);
    }
  }

  /** The list-level `>=`: `lhs` is not less than `rhs`. */
  method ListGreaterEq<T(0, !new)>(lhs: SingleLinkedList<T>, rhs: SingleLinkedList<T>, less: (T, T) -> bool) returns (r: bool)
    requires lhs.Linked() && rhs.Linked()
    ensures r == GreaterEq(lhs.elems, rhs.elems, less)
    ensures StrictTotalOrder(less) ==> (r <==> LexLess(rhs.elems, lhs.elems, less) || lhs.elems == rhs.elems)
  {
    r := ListLess(lhs, rhs, less);
    r := !r;
    if StrictTotalOrder(less) {
      GreaterEqIff(lhs.elems, rhs.elems, less);
    }
  }
}
