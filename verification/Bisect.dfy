/** The binary search both pagers size a page with (internal/mcp/document.go largestFitting). */
module Bisect {

  /** The probe of a range, written so that the sum cannot overflow. */
  function Middle(low: int, high: int): (middle: int)
    requires low <= high
    ensures low <= middle <= high
  {
    low + (high - low) / 2
  }

  /** The last value the search accepts between low and high, or low - 1. */
  function Largest(low: int, high: int, fits: int -> bool): (r: int)
    requires low <= high + 1
    ensures low - 1 <= r <= high
    decreases high - low + 1
  {
    if low > high then low - 1
    else
      var middle := Middle(low, high);
      if fits(middle) then Largest(middle + 1, high, fits) else Largest(low, middle - 1, fits)
  }

  /** Whatever the predicate, the value found is accepted and the value above it is not. */
  lemma {:induction false} LargestIsAnEdge(low: int, high: int, fits: int -> bool)
    requires low <= high + 1
    ensures var r := Largest(low, high, fits); (r >= low ==> fits(r)) && (r < high ==> !fits(r + 1))
    decreases high - low + 1
  {
    if low <= high {
      var middle := Middle(low, high);
      if fits(middle) {
        LargestIsAnEdge(middle + 1, high, fits);
      } else {
        LargestIsAnEdge(low, middle - 1, fits);
      }
    }
  }

  ghost predicate Monotone(low: int, high: int, fits: int -> bool) {
    forall a, b :: low <= a <= b <= high && fits(b) ==> fits(a)
  }

  /** For a monotone predicate the search finds the true maximum, and finds something whenever anything fits. */
  lemma LargestIsMaximum(low: int, high: int, fits: int -> bool)
    requires low <= high + 1 && Monotone(low, high, fits)
    ensures forall k :: low <= k <= high ==> (fits(k) <==> k <= Largest(low, high, fits))
  {
    LargestIsAnEdge(low, high, fits);
  }

  /** The value of the first accepted probe when nothing below `first` and everything in [first, last] is accepted:
      the search keeps halving from above until a probe is at most `last`. */
  function FirstProbe(low: int, high: int, last: int): (p: int)
    requires low <= last <= high
    ensures low <= p <= last
    decreases high - low
  {
    var middle := Middle(low, high);
    if middle <= last then middle else FirstProbe(low, middle - 1, last)
  }

  /** The exact condition under which the search finds a window [first, last] of accepted values that does not start
      at low: it succeeds if and only if its first probe at or below the window's end is not below its start. */
  lemma {:induction false} WindowFound(low: int, high: int, first: int, last: int, fits: int -> bool)
    requires low <= first <= last <= high
    requires forall k :: low <= k <= high ==> (fits(k) <==> first <= k <= last)
    ensures Largest(low, high, fits) == (if FirstProbe(low, high, last) >= first then last else low - 1)
    decreases high - low
  {
    var middle := Middle(low, high);
    if middle > last {
      WindowFound(low, middle - 1, first, last, fits);
    } else if middle >= first {
      LargestIsAnEdge(middle + 1, high, fits);
    } else {
      LargestIsAnEdge(low, middle - 1, fits);
    }
  }

  /** A window at least twice as wide as what precedes it is always found. */
  lemma {:induction false} FirstProbeReaches(low: int, high: int, last: int)
    requires low <= last <= high
    ensures 2 * (FirstProbe(low, high, last) - low) >= last - low - 1
    ensures last == high ==> FirstProbe(low, high, last) == Middle(low, high)
    decreases high - low
  {
    var middle := Middle(low, high);
    if middle > last {
      FirstProbeReaches(low, middle - 1, last);
    }
  }

  /** Whatever else is accepted, a window that the halving cannot pass over is found. */
  lemma {:induction false} WideWindowIsFound(low: int, high: int, first: int, last: int, fits: int -> bool)
    requires low <= first <= last <= high && Middle(low, last) >= first
    requires forall k :: first <= k <= last ==> fits(k)
    ensures Largest(low, high, fits) >= first
    decreases high - low
  {
    var middle := Middle(low, high);
    if middle > last && !fits(middle) {
      WideWindowIsFound(low, middle - 1, first, last, fits);
    }
  }

  /** Nothing is found when nothing is accepted up to the first probe. */
  lemma NothingUpToTheMiddle(low: int, high: int, fits: int -> bool)
    requires low <= high && forall k :: low <= k <= Middle(low, high) ==> !fits(k)
    ensures Largest(low, high, fits) == low - 1
  {
    var middle := Middle(low, high);
    LargestIsAnEdge(low, middle - 1, fits);
  }

  /** largestFitting. */
  method LargestFitting(lo: int, hi: int, fits: int -> bool) returns (best: int)
    requires lo <= hi + 1
    ensures best == Largest(lo, hi, fits)
  {
    var low, high := lo, hi;
    best := low - 1;
    ghost var largest := Largest(lo, hi, fits);
    while low <= high
      invariant low <= high + 1
      invariant best == low - 1
      invariant Largest(low, high, fits) == largest
      decreases high - low + 1
    {
      var middle := Middle(low, high);
      if fits(middle) {
        best := middle;
        low := middle + 1;
      } else {
        high := middle - 1;
      }
    }
  }
}
