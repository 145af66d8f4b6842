/** Integer ranges, the counterpart of Python's `range(a, b)` with step 1. */
module Ranges {

  function Min(a: int, b: int): int { if a <= b then a else b }

  function Max(a: int, b: int): int { if a <= b then b else a }

  /** The integers a, a+1, ..., b-1 in increasing order; empty when a >= b. */
  function Range(a: int, b: int): seq<int>
    decreases b - a
  {
    if a >= b then [] else [a] + Range(a + 1, b)
  }

  /** A range has max(0, b - a) elements and its k-th element is a + k. */
  lemma {:induction false} RangeAt(a: int, b: int)
    ensures |Range(a, b)| == Max(0, b - a)
    ensures forall k :: 0 <= k < |Range(a, b)| ==> Range(a, b)[k] == a + k
    decreases b - a
  {
    if a < b {
      RangeAt(a + 1, b);
    }
  }

  /** Membership in a range is exactly the half-open interval [a, b). */
  lemma RangeMembership(a: int, b: int, x: int)
    ensures x in Range(a, b) <==> a <= x < b
  {
    RangeAt(a, b);
    if a <= x < b {
      assert Range(a, b)[x - a] == x;
    }
  }

  /** A range is strictly increasing, so no value occurs in it twice. */
  lemma RangeIncreasing(a: int, b: int)
    ensures forall j, k :: 0 <= j < k < |Range(a, b)| ==> Range(a, b)[j] < Range(a, b)[k]
  {
    RangeAt(a, b);
  }

  /** Extending a range by one step appends its new upper element. */
  lemma {:induction false} RangeSnoc(a: int, b: int)
    requires a <= b
    ensures Range(a, b + 1) == Range(a, b) + [b]
    decreases b - a
  {
    if a < b {
      RangeSnoc(a + 1, b);
    }
  }
}
