/** Answering a mailbox page within the response bounds: the longest prefix the search finds, rather than a failure. */
module MailboxList {
  import opened Wrappers
  import opened MailboxPaging
  import Bisect

  /** Whether a listing's response is within the bounds. */
  type Sizer = Listing -> bool

  function PrefixFits(s: Service, l: Listing, fits: Sizer): int -> bool {
    n => 1 <= n < |l.messages| && fits(Truncated(s, l, n))
  }

  /** The number of messages kept: all, the largest prefix the search accepts, or 0 when nothing fits. */
  function Kept(s: Service, l: Listing, fits: Sizer): (n: int)
    ensures 0 <= n <= |l.messages|
  {
    if fits(l) then |l.messages|
    else if |l.messages| < 2 then 0
    else Bisect.Largest(1, |l.messages| - 1, PrefixFits(s, l, fits))
  }

  /** Whether the page cut to its first n messages may be sent; tried on a copy. */
  method TryPrefix(result: ListResult, n: int, fits: Sizer) returns (sendable: bool)
    requires 1 <= n < |result.messages|
    ensures sendable == PrefixFits(result.service, result.View(), fits)(n)
  {
    var candidate := new ListResult(result.service, result.View());
    var cut := candidate.Truncate(n);
    sendable := fits(candidate.View());
  }

  /** finalizeMailboxList. Returns whether the result may be sent; it is shortened in place when it must be. */
  method FinalizeMailboxList(result: ListResult, fits: Sizer) returns (ok: bool)
    modifies result
    ensures ok <==> fits(old(result.View())) || Kept(result.service, old(result.View()), fits) > 0
    ensures ok ==> fits(result.View())
    ensures !ok || fits(old(result.View())) ==> result.View() == old(result.View())
    ensures ok && !fits(old(result.View())) ==>
              result.View() == Truncated(result.service, old(result.View()), Kept(result.service, old(result.View()), fits))
  {
    ghost var was := result.View();
    if fits(result.View()) {
      return true;
    }
    if |result.messages| < 2 {
      return false;
    }
    var low, high, best := 1, |result.messages| - 1, 0;
    ghost var accepts := PrefixFits(result.service, was, fits);
    ghost var kept := Kept(result.service, was, fits);
    while low <= high
      invariant 1 <= low <= high + 1 && high < |was.messages|
      invariant best == low - 1 && (best > 0 ==> accepts(best))
      invariant Bisect.Largest(low, high, accepts) == kept
      invariant result.View() == was
      decreases high - low + 1
    {
      var middle := Bisect.Middle(low, high);
      var sendable := TryPrefix(result, middle, fits);
      if sendable {
        best := middle;
        low := middle + 1;
      } else {
        high := middle - 1;
      }
    }
    if best == 0 {
      return false;
    }
    var cut := result.Truncate(best);
    ok := fits(result.View());
  }

  /** Dropping messages never makes a page larger. */
  ghost predicate Shrinks(s: Service, l: Listing, fits: Sizer) {
    Bisect.Monotone(1, |l.messages| - 1, PrefixFits(s, l, fits))
  }

  /** The prefix kept cannot be extended by one message. */
  lemma KeptIsAnEdge(s: Service, l: Listing, fits: Sizer)
    requires !fits(l) && |l.messages| >= 2
    ensures !PrefixFits(s, l, fits)(Kept(s, l, fits) + 1)
  {
    var p, top := PrefixFits(s, l, fits), |l.messages| - 1;
    Bisect.LargestIsAnEdge(1, top, p);
    assert Kept(s, l, fits) == Bisect.Largest(1, top, p);
    if Kept(s, l, fits) < top {
      assert !p(Kept(s, l, fits) + 1);
    }
  }

  /** When pages shrink with their messages, it is the longest prefix that fits, found whenever one message does. */
  lemma KeptIsLongest(s: Service, l: Listing, fits: Sizer, k: nat)
    requires !fits(l) && Shrinks(s, l, fits) && 1 <= k < |l.messages|
    ensures fits(Truncated(s, l, k)) <==> k <= Kept(s, l, fits)
  {
    var p := PrefixFits(s, l, fits);
    Bisect.LargestIsMaximum(1, |l.messages| - 1, p);
    assert p(k) <==> k <= Kept(s, l, fits);
  }

  /** A shortened page is the start of the page it came from, and its cursor stands right after the last message kept. */
  lemma ShortenedPageContinues(s: Service, l: Listing, fits: Sizer)
    requires !fits(l) && Kept(s, l, fits) > 0
    ensures var n := Kept(s, l, fits);
            n < |l.messages| &&
            var t := Truncated(s, l, n);
            t.messages == l.messages[..n] && t.hasMore && t.nextCursor.Some? &&
            t.nextCursor.value.key == t.messages[n - 1].key && t.nextCursor.value.snapshot == l.snapshot &&
            Check(s, t.nextCursor.value, l.order, l.filters).Ok?
  {
    Bisect.LargestIsAnEdge(1, |l.messages| - 1, PrefixFits(s, l, fits));
  }
}
