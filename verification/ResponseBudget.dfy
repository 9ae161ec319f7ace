/**
 * Measuring a response that states its own size. The encoded length of a page is what the page holds apart from the
 * two places its `used` figure is printed, once in the readable text and once in the structured budget; each pass
 * rewrites the figure to the length just measured.
 */
module ResponseBudget {
  const TARGET_BYTES := 49152
  const TARGET_LINES := 1800
  const ROUNDS := 4

  /** The number of decimal digits of a printed figure. */
  function Digits(u: nat): (d: nat)
    ensures d >= 1
  {
    if u < 10 then 1 else 1 + Digits(u / 10)
  }

  function Pow10(n: nat): (p: nat)
    ensures p >= 1
    ensures n >= 1 ==> p >= 10
  {
    if n == 0 then 1 else 10 * Pow10(n - 1)
  }

  /** A figure has d digits exactly when it lies in [10^(d-1), 10^d), or in [0, 10) for one digit. */
  lemma {:induction false} DigitsExact(u: nat, d: nat)
    requires d >= 1
    ensures Digits(u) == d <==> ((d == 1 || Pow10(d - 1) <= u) && u < Pow10(d))
    decreases d
  {
    if d == 1 {
      assert Pow10(1) == 10 * Pow10(0);
    } else if u >= 10 {
      DigitsExact(u / 10, d - 1);
    }
  }

  lemma {:induction false} DigitsGrow(a: nat, b: nat)
    requires a <= b
    ensures Digits(a) <= Digits(b)
  {
    if a >= 10 {
      DigitsGrow(a / 10, b / 10);
    }
  }

  lemma {:induction false} PowOutgrows(n: nat)
    requires n >= 1
    ensures Pow10(n) > 2 * n
  {
    if n > 1 {
      PowOutgrows(n - 1);
    }
  }

  /** The length of a page of `content` bytes printing `text` in its readable part and `used` in its budget. */
  function Encoded(content: nat, text: nat, used: nat): nat {
    content + Digits(text) + Digits(used)
  }

  /** The figure after k passes. */
  function Figure(content: nat, start: nat, k: nat): nat {
    if k == 0 then start
    else var u := Figure(content, start, k - 1); Encoded(content, u, u)
  }

  ghost predicate Settled(content: nat, u: nat) { Encoded(content, u, u) == u }

  lemma RisingFigureSettles(content: nat, start: nat)
    requires Digits(start) <= Digits(Figure(content, start, 1))
    ensures Settled(content, Figure(content, start, 3))
  {
    var u1, u2, u3 := Figure(content, start, 1), Figure(content, start, 2), Figure(content, start, 3);
    var d := Digits(u1);
    assert u2 == u1 + 2 * (d - Digits(start));
    DigitsExact(u1, d);
    DigitsExact(u2, d);
    DigitsExact(u2, d + 1);
    DigitsExact(u3, d + 1);
    PowOutgrows(d);
  }

  lemma FallingFigureSettles(content: nat)
    requires Digits(Figure(content, TARGET_BYTES, 1)) < 5
    ensures Settled(content, Figure(content, TARGET_BYTES, 3))
  {
    var u1, u2, u3 :=
      Figure(content, TARGET_BYTES, 1), Figure(content, TARGET_BYTES, 2), Figure(content, TARGET_BYTES, 3);
    assert Digits(TARGET_BYTES) == 5;
    assert u1 == content + 10;
    Thresholds(u1);
    Thresholds(u2);
    Thresholds(u3);
  }

  lemma Thresholds(u: nat)
    ensures Digits(u) == 1 <==> u < 10
    ensures Digits(u) == 2 <==> 10 <= u < 100
    ensures Digits(u) == 3 <==> 100 <= u < 1000
    ensures Digits(u) == 4 <==> 1000 <= u < 10000
    ensures Digits(u) == 5 <==> 10000 <= u < 100000
  {
    assert Pow10(1) == 10 && Pow10(2) == 100 && Pow10(3) == 1000 && Pow10(4) == 10000 && Pow10(5) == 100000 by {
      assert Pow10(3) == 10 * Pow10(2);
      assert Pow10(5) == 10 * Pow10(4);
    }
    DigitsExact(u, 1);
    DigitsExact(u, 2);
    DigitsExact(u, 3);
    DigitsExact(u, 4);
    DigitsExact(u, 5);
  }

  /** Whatever a page holds, the third figure is already the page's own length, so the fourth pass sees no change. */
  lemma FigureSettles(content: nat, start: nat)
    requires start == 0 || start == TARGET_BYTES
    ensures Settled(content, Figure(content, start, 3))
  {
    if Digits(start) <= Digits(Figure(content, start, 1)) {
      RisingFigureSettles(content, start);
    } else {
      assert Digits(TARGET_BYTES) == 5;
      FallingFigureSettles(content);
    }
  }

  /** Three passes would not do: the figure of a page of 9994 bytes still changes on the third. */
  lemma ThreePassesAreNotEnough()
    ensures !Settled(9994, Figure(9994, 0, 2))
  {
    Thresholds(0);
    Thresholds(9996);
    Thresholds(10002);
    assert Figure(9994, 0, 1) == 9996;
    assert Figure(9994, 0, 2) == 10002;
  }

  /**
   * The sizing loop shared by finalizePage (start TARGET_BYTES), finalizeMailboxResult and finalizeDocumentResult
   * (start 0). `text` is the figure rendered into the readable part, which a pass does not revisit once it has
   * rewritten `used`; the page is returned only when both agree with the length actually sent.
   */
  method Measure(content: nat, lines: nat, start: nat) returns (ok: bool, text: nat, used: nat)
    requires start == 0 || start == TARGET_BYTES
    ensures text == used == Encoded(content, text, used)
    ensures ok <==> Fits(content, lines)
    ensures ok <==> used <= 49152 && lines <= 1800
    ensures ok <==> content + 10 <= 49152 && lines <= 1800
  {
    used, text := start, start;
    ghost var settled := false;
    var round := 0;
    while round < ROUNDS
      invariant 0 <= round <= ROUNDS
      invariant used == Figure(content, start, round)
      invariant forall k :: 0 <= k < round ==> !Settled(content, Figure(content, start, k))
    {
      text := used;
      var encoded := Encoded(content, text, used);
      if encoded == used {
        settled := true;
        break;
      }
      used := encoded;
      round := round + 1;
    }
    FigureSettles(content, start);
    assert settled;
    FitsExactly(content, used);
    ok := Encoded(content, text, used) <= TARGET_BYTES && lines <= TARGET_LINES;
  }

  /** A page is returned exactly when its content leaves room for two five-digit figures and its lines are few enough. */
  predicate Fits(content: nat, lines: nat) { content + 10 <= TARGET_BYTES && lines <= TARGET_LINES }

  lemma FitsExactly(content: nat, used: nat)
    requires Settled(content, used)
    ensures used <= TARGET_BYTES <==> content + 10 <= TARGET_BYTES
  {
    Thresholds(used);
    if used >= 100000 {
      DigitsAreFew(used);
    }
  }

  lemma {:induction false} DigitsAreFew(u: nat)
    requires u >= 10
    ensures 5 * Digits(u) <= u
  {
    if u >= 100 {
      DigitsAreFew(u / 10);
    }
  }
}
