/** Splitting a document into overlapping windows of characters that prefer natural boundaries. */
module Chunker {
  import opened Utf8

  const TARGET := 2048
  const OVERLAP := 256

  datatype Chunk = Chunk(index: nat, start: nat, end: nat, text: Text)

  // ---- white space ----

  /** unicode.IsSpace of the character at i, by its bytes. */
  predicate SpaceAt(s: Text, i: nat)
    requires i < |s|
  {
    || 9 <= s[i] <= 13 || s[i] == 32
    || (s[i] == 0xC2 && i + 1 < |s| && (s[i + 1] == 0x85 || s[i + 1] == 0xA0))
    || (i + 2 < |s| &&
        ((s[i] == 0xE1 && s[i + 1] == 0x9A && s[i + 2] == 0x80) ||
         (s[i] == 0xE2 && s[i + 1] == 0x80 &&
          (0x80 <= s[i + 2] <= 0x8A || s[i + 2] == 0xA8 || s[i + 2] == 0xA9 || s[i + 2] == 0xAF)) ||
         (s[i] == 0xE2 && s[i + 1] == 0x81 && s[i + 2] == 0x9F) ||
         (s[i] == 0xE3 && s[i + 1] == 0x80 && s[i + 2] == 0x80)))
  }

  /** Every character that starts in [i, j) is white space. */
  predicate AllSpace(s: Text, i: nat, j: nat)
    requires j <= |s|
  {
    forall k :: i <= k < j && RuneStart(s[k]) ==> SpaceAt(s, k)
  }

  predicate Span(s: Text, lo: nat, hi: nat) { Valid(s) && lo <= hi && Boundary(s, lo) && Boundary(s, hi) }

  /** The bytes tested for are those of the characters with the property White_Space, and no others. */
  lemma SpaceIsWhiteSpace(s: Text, i: nat)
    requires CharAt(s, i)
    ensures var c := CodePoint(s, i);
            SpaceAt(s, i) <==>
              || 0x9 <= c <= 0xD || c == 0x20 || c == 0x85 || c == 0xA0 || c == 0x1680 || 0x2000 <= c <= 0x200A
              || c == 0x2028 || c == 0x2029 || c == 0x202F || c == 0x205F || c == 0x3000
  {
    assert forall k :: i < k < i + Width(s[i]) ==> 0x80 <= s[k] < 0xC0;
  }

  /** Where the white space at the front of [lo, hi) ends. */
  function TrimLeft(s: Text, lo: nat, hi: nat): (r: nat)
    requires Span(s, lo, hi)
    ensures lo <= r <= hi && Boundary(s, r)
    decreases hi - lo
  {
    if lo == hi || !SpaceAt(s, lo) then lo
    else
      CharEndsAtBoundary(s, lo);
      TrimLeft(s, lo + Width(s[lo]), hi)
  }

  /** Where the white space at the back of [lo, hi) starts. */
  function TrimRight(s: Text, lo: nat, hi: nat): (r: nat)
    requires Span(s, lo, hi)
    ensures lo <= r <= hi && Boundary(s, r)
    decreases hi - lo
  {
    if lo == hi || !SpaceAt(s, CutAt(s, hi - 1)) then hi else TrimRight(s, lo, CutAt(s, hi - 1))
  }

  lemma {:induction false} TrimLeftSpace(s: Text, lo: nat, hi: nat)
    requires Span(s, lo, hi)
    ensures AllSpace(s, lo, TrimLeft(s, lo, hi))
    decreases hi - lo
  {
    if lo < hi && SpaceAt(s, lo) {
      CharEndsAtBoundary(s, lo);
      TrimLeftSpace(s, lo + Width(s[lo]), hi);
    }
  }

  lemma {:induction false} TrimRightSpace(s: Text, lo: nat, hi: nat)
    requires Span(s, lo, hi)
    ensures AllSpace(s, TrimRight(s, lo, hi), hi)
    decreases hi - lo
  {
    if lo < hi && SpaceAt(s, CutAt(s, hi - 1)) {
      var last := CutAt(s, hi - 1);
      TrimRightSpace(s, lo, last);
      var r := TrimRight(s, lo, last);
      assert TrimRight(s, lo, hi) == r;
      forall k | r <= k < hi && RuneStart(s[k])
        ensures SpaceAt(s, k)
      {
        assert Boundary(s, k);
        assert k <= last;
      }
    }
  }

  method FindTrimLeft(s: Text, lo: nat, hi: nat) returns (r: nat)
    requires Span(s, lo, hi)
    ensures r == TrimLeft(s, lo, hi)
  {
    r := lo;
    while r < hi && SpaceAt(s, r)
      invariant lo <= r <= hi && Boundary(s, r)
      invariant TrimLeft(s, r, hi) == TrimLeft(s, lo, hi)
    {
      CharEndsAtBoundary(s, r);
      r := r + DecodeSize(s, r);
    }
  }

  method FindTrimRight(s: Text, lo: nat, hi: nat) returns (r: nat)
    requires Span(s, lo, hi)
    ensures r == TrimRight(s, lo, hi)
  {
    r := hi;
    while r > lo
      invariant lo <= r <= hi && Boundary(s, r)
      invariant TrimRight(s, lo, r) == TrimRight(s, lo, hi)
    {
      var last := BoundaryAtOrBefore(s, r - 1);
      if !SpaceAt(s, last) {
        break;
      }
      r := last;
    }
  }

  // ---- walking characters ----

  function Advance(s: Text, start: nat, n: nat): (r: nat)
    requires start <= |s|
    ensures start <= r <= |s|
    decreases n
  {
    if n == 0 || start == |s| then start else Advance(s, start + DecodeSize(s, start), n - 1)
  }

  function Retreat(s: Text, end: nat, n: nat): (r: nat)
    requires Valid(s) && end <= |s|
    ensures r <= end
    decreases n
  {
    if n == 0 || end == 0 then end else Retreat(s, CutAt(s, end - 1), n - 1)
  }

  lemma {:induction false} AdvanceCounts(s: Text, start: nat, n: nat)
    requires Valid(s) && Boundary(s, start)
    ensures var r := Advance(s, start, n);
            Boundary(s, r) && Chars(s, start, r) <= n && (r < |s| ==> Chars(s, start, r) == n)
    decreases n
  {
    if n > 0 && start < |s| {
      CharEndsAtBoundary(s, start);
      CharCountsOne(s, start);
      var m := start + Width(s[start]);
      AdvanceCounts(s, m, n - 1);
      CharsSplit(s, start, m, Advance(s, m, n - 1));
    }
  }

  lemma {:induction false} RetreatCounts(s: Text, end: nat, n: nat)
    requires Valid(s) && Boundary(s, end)
    ensures var r := Retreat(s, end, n);
            Boundary(s, r) && Chars(s, r, end) <= n && (r > 0 ==> Chars(s, r, end) == n)
    decreases n
  {
    if n > 0 && end > 0 {
      var m := CutAt(s, end - 1);
      CharEndsAtBoundary(s, m);
      assert m + Width(s[m]) == end;
      CharCountsOne(s, m);
      RetreatCounts(s, m, n - 1);
      CharsSplit(s, Retreat(s, m, n - 1), m, end);
    }
  }

  /** advanceRunes. */
  method AdvanceRunes(s: Text, start: nat, n: nat) returns (pos: nat)
    requires start <= |s|
    ensures pos == Advance(s, start, n)
  {
    pos := start;
    var i := 0;
    while i < n && pos < |s|
      invariant 0 <= i <= n && start <= pos <= |s|
      invariant Advance(s, pos, n - i) == Advance(s, start, n)
    {
      pos := pos + DecodeSize(s, pos);
      i := i + 1;
    }
  }

  /** retreatRunes. */
  method RetreatRunes(s: Text, end: nat, n: nat) returns (pos: nat)
    requires Valid(s) && end <= |s|
    ensures pos == Retreat(s, end, n)
  {
    pos := end;
    var i := 0;
    while i < n && pos > 0
      invariant 0 <= i <= n && 0 <= pos <= end
      invariant Retreat(s, pos, n - i) == Retreat(s, end, n)
    {
      ghost var from := pos;
      pos := pos - 1;
      while pos > 0 && !RuneStart(s[pos])
        invariant 0 <= pos < from
        invariant CutAt(s, pos) == CutAt(s, from - 1)
      {
        pos := pos - 1;
      }
      i := i + 1;
    }
  }

  // ---- where a window ends ----

  /** The last byte of [lo, hi) that the predicate accepts, or -1. */
  function LastOf(s: Text, lo: nat, hi: nat, p: Byte -> bool): (r: int)
    requires lo <= hi <= |s|
    ensures r == -1 || (lo <= r < hi && p(s[r]))
    ensures forall k :: lo <= k < hi && r < k ==> !p(s[k])
    decreases hi - lo
  {
    if lo == hi then -1 else if p(s[hi - 1]) then hi - 1 else LastOf(s, lo, hi - 1, p)
  }

  const NEWLINE: Byte -> bool := b => b == 10
  const SENTENCE_END: Byte -> bool := b => b == 0x2E || b == 0x21 || b == 0x3F
  const SPACE: Byte -> bool := b => b == 32

  /** alignRune. */
  function Align(s: Text, i: nat): (r: nat)
    requires i <= |s|
    ensures i <= r <= |s|
    decreases |s| - i
  {
    if i == |s| || RuneStart(s[i]) then i else Align(s, i + 1)
  }

  /** The start of the final 40% of a window. */
  function SearchFrom(start: nat, hard: nat): nat
    requires start <= hard
  {
    start + (hard - start) * 3 / 5
  }

  /** boundary: after a blank line, else a newline, else a sentence end, else a space, else the hard cut. */
  function BestCut(s: Text, start: nat, hard: nat): (r: nat)
    requires start <= hard <= |s|
  {
    var from := SearchFrom(start, hard);
    var blank, newline := LastBlankLine(s, from, hard), LastOf(s, from, hard, NEWLINE);
    var sentence, space := LastOf(s, from, hard, SENTENCE_END), LastOf(s, from, hard, SPACE);
    if blank >= 0 then Align(s, blank + 2)
    else if newline >= 0 then Align(s, newline + 1)
    else if sentence >= 0 && sentence + 1 < hard then Align(s, sentence + 1)
    else if space >= 0 then Align(s, space + 1)
    else Align(s, hard)
  }

  method AlignRune(s: Text, i: nat) returns (r: nat)
    requires i <= |s|
    ensures r == Align(s, i)
  {
    r := i;
    while r < |s| && !RuneStart(s[r])
      invariant i <= r <= |s| && Align(s, r) == Align(s, i)
    {
      r := r + 1;
    }
  }

  method FindCut(s: Text, start: nat, hard: nat) returns (r: nat)
    requires start <= hard <= |s|
    ensures r == BestCut(s, start, hard)
  {
    var from := SearchFrom(start, hard);
    var i := LastBlankLine(s, from, hard);
    if i >= 0 {
      r := AlignRune(s, i + 2);
      return;
    }
    i := LastOf(s, from, hard, NEWLINE);
    if i >= 0 {
      r := AlignRune(s, i + 1);
      return;
    }
    i := LastOf(s, from, hard, SENTENCE_END);
    if i >= 0 && i + 1 < hard {
      r := AlignRune(s, i + 1);
      return;
    }
    i := LastOf(s, from, hard, SPACE);
    if i >= 0 {
      r := AlignRune(s, i + 1);
      return;
    }
    r := AlignRune(s, hard);
  }

  /** Every cut falls on a boundary inside the searched part: nothing is split, and alignment never moves it. */
  lemma BestCutIsBoundary(s: Text, start: nat, hard: nat)
    requires Valid(s) && start < hard && Boundary(s, hard)
    ensures Boundary(s, BestCut(s, start, hard))
    ensures SearchFrom(start, hard) < BestCut(s, start, hard) <= hard
  {
    hide BestCut, Align, LastBlankLine, LastOf, Valid;
    CutsStand(s, start, hard);
    var from := SearchFrom(start, hard);
    var blank, newline := LastBlankLine(s, from, hard), LastOf(s, from, hard, NEWLINE);
    var sentence, space := LastOf(s, from, hard, SENTENCE_END), LastOf(s, from, hard, SPACE);
    if blank >= 0 {
      AsciiCuts(s, blank + 1);
    } else if newline >= 0 {
      AsciiCuts(s, newline);
    } else if sentence >= 0 && sentence + 1 < hard {
      AsciiCuts(s, sentence);
    } else if space >= 0 {
      AsciiCuts(s, space);
    }
  }

  predicate Blank(s: Text, k: nat)
    requires k + 2 <= |s|
  {
    s[k] == 10 && s[k + 1] == 10
  }

  /** The byte at k is one of these, and the last one before hard. */
  predicate LastMark(s: Text, k: nat, hard: nat, marks: set<int>)
    requires k < hard <= |s|
  {
    s[k] in marks && forall j :: k < j < hard ==> s[j] !in marks
  }

  predicate SomeMark(s: Text, lo: nat, hi: nat, marks: set<int>)
    requires lo <= hi <= |s|
  {
    exists k :: lo <= k < hi && s[k] in marks
  }

  /** Alignment never moves a cut: each mark searched for is ASCII. */
  lemma CutsStand(s: Text, start: nat, hard: nat)
    requires Valid(s) && start < hard && Boundary(s, hard)
    ensures var from := SearchFrom(start, hard);
            var blank, newline := LastBlankLine(s, from, hard), LastOf(s, from, hard, NEWLINE);
            var sentence, space := LastOf(s, from, hard, SENTENCE_END), LastOf(s, from, hard, SPACE);
            BestCut(s, start, hard)
            == if blank >= 0 then blank + 2
               else if newline >= 0 then newline + 1
               else if sentence >= 0 && sentence + 1 < hard then sentence + 1
               else if space >= 0 then space + 1
               else hard
  {
    var from := SearchFrom(start, hard);
    var blank, newline := LastBlankLine(s, from, hard), LastOf(s, from, hard, NEWLINE);
    var sentence, space := LastOf(s, from, hard, SENTENCE_END), LastOf(s, from, hard, SPACE);
    if blank >= 0 {
      CutsAfterAscii(s, blank + 1);
    } else if newline >= 0 {
      CutsAfterAscii(s, newline);
    } else if sentence >= 0 && sentence + 1 < hard {
      CutsAfterAscii(s, sentence);
    } else if space >= 0 {
      CutsAfterAscii(s, space);
    } else {
      AlignStays(s, hard);
    }
  }

  /**
   * What is preferred, in the final 40% of the window: the cut after the last blank line; with none, after the last
   * newline; with none, after the last full stop, exclamation or question mark, unless it is the final byte; then after
   * the last space; and the hard cut only when there is none of these.
   */
  ghost predicate PreferredCut(s: Text, start: nat, hard: nat, r: nat)
    requires start < hard <= |s|
  {
    var from := start + (hard - start) * 3 / 5;
    && from < r <= hard
    && if SomeBlank(s, from, hard) then r >= 2 && LastBlank(s, r - 2, hard)
       else if SomeMark(s, from, hard, {10}) then LastMark(s, r - 1, hard, {10})
       else if SomeMark(s, from, hard, {33, 46, 63}) && s[hard - 1] !in {33, 46, 63} then
         LastMark(s, r - 1, hard, {33, 46, 63})
       else if SomeMark(s, from, hard, {32}) then LastMark(s, r - 1, hard, {32})
       else r == hard
  }

  lemma CutPrefers(s: Text, start: nat, hard: nat)
    requires Valid(s) && start < hard && Boundary(s, hard)
    ensures PreferredCut(s, start, hard, BestCut(s, start, hard))
  {
    hide BestCut, LastBlankLine, LastOf, Valid, SomeMark, SomeBlank, LastMark, LastBlank, Align;
    BestCutIsBoundary(s, start, hard);
    CutsStand(s, start, hard);
    var from := SearchFrom(start, hard);
    FindsLastBlank(s, from, hard);
    NewlineIsFound(s, from, hard);
    SentenceEndIsFound(s, from, hard);
    SpaceIsFound(s, from, hard);
    PreferredByMarks(s, start, hard, BestCut(s, start, hard), LastBlankLine(s, from, hard), LastOf(s, from, hard, NEWLINE),
                     LastOf(s, from, hard, SENTENCE_END), LastOf(s, from, hard, SPACE));
  }

  lemma PreferredByMarks(s: Text, start: nat, hard: nat, r: nat, blank: int, newline: int, sentence: int, space: int)
    requires start < hard <= |s|
    requires var from := start + (hard - start) * 3 / 5;
             && from < r <= hard
             && (if SomeBlank(s, from, hard) then from <= blank && blank + 2 <= hard && LastBlank(s, blank, hard)
                 else blank == -1)
             && (if SomeMark(s, from, hard, {10}) then from <= newline < hard && LastMark(s, newline, hard, {10})
                 else newline == -1)
             && (if SomeMark(s, from, hard, {33, 46, 63})
                 then from <= sentence < hard && LastMark(s, sentence, hard, {33, 46, 63}) else sentence == -1)
             && (sentence == hard - 1 <==> s[hard - 1] in {33, 46, 63})
             && (if SomeMark(s, from, hard, {32}) then from <= space < hard && LastMark(s, space, hard, {32})
                 else space == -1)
    requires r == if blank >= 0 then blank + 2
                  else if newline >= 0 then newline + 1
                  else if sentence >= 0 && sentence + 1 < hard then sentence + 1
                  else if space >= 0 then space + 1
                  else hard
    ensures PreferredCut(s, start, hard, r)
  {
    hide SomeMark, SomeBlank, LastMark, LastBlank;
  }

  lemma CutsAfterAscii(s: Text, i: nat)
    requires Valid(s) && i < |s| && s[i] < 0x80
    ensures Align(s, i + 1) == i + 1
  {
    AsciiCuts(s, i);
  }

  lemma AlignStays(s: Text, i: nat)
    requires Boundary(s, i)
    ensures Align(s, i) == i
  {
  }

  predicate SomeBlank(s: Text, lo: nat, hi: nat)
    requires lo <= hi <= |s|
  {
    exists k :: lo <= k && k + 2 <= hi && Blank(s, k)
  }

  predicate LastBlank(s: Text, k: nat, hi: nat)
    requires k + 2 <= hi <= |s|
  {
    Blank(s, k) && forall j :: k < j && j + 2 <= hi ==> !Blank(s, j)
  }

  lemma FindsLastBlank(s: Text, lo: nat, hi: nat)
    requires lo <= hi <= |s|
    ensures var r := LastBlankLine(s, lo, hi); if SomeBlank(s, lo, hi) then r >= lo && LastBlank(s, r, hi) else r == -1
  {
    hide LastBlankLine;
    var r := LastBlankLine(s, lo, hi);
    if r >= 0 {
      assert Blank(s, r);
    }
  }

  lemma FindsLast(s: Text, lo: nat, hi: nat, p: Byte -> bool, marks: set<int>)
    requires lo <= hi <= |s| && forall b: Byte :: p(b) <==> b in marks
    ensures var r := LastOf(s, lo, hi, p);
            if SomeMark(s, lo, hi, marks) then lo <= r < hi && LastMark(s, r, hi, marks) else r == -1
    ensures lo < hi ==> (LastOf(s, lo, hi, p) == hi - 1 <==> s[hi - 1] in marks)
  {
    hide LastOf;
  }

  lemma NewlineIsFound(s: Text, lo: nat, hi: nat)
    requires lo < hi <= |s|
    ensures var r := LastOf(s, lo, hi, NEWLINE);
            && (if SomeMark(s, lo, hi, {10}) then lo <= r < hi && LastMark(s, r, hi, {10}) else r == -1)
            && (r == hi - 1 <==> s[hi - 1] in {10})
  {
    FindsLast(s, lo, hi, NEWLINE, {10});
  }

  lemma SentenceEndIsFound(s: Text, lo: nat, hi: nat)
    requires lo < hi <= |s|
    ensures var r := LastOf(s, lo, hi, SENTENCE_END);
            && (if SomeMark(s, lo, hi, {33, 46, 63}) then lo <= r < hi && LastMark(s, r, hi, {33, 46, 63}) else r == -1)
            && (r == hi - 1 <==> s[hi - 1] in {33, 46, 63})
  {
    FindsLast(s, lo, hi, SENTENCE_END, {33, 46, 63});
  }

  lemma SpaceIsFound(s: Text, lo: nat, hi: nat)
    requires lo < hi <= |s|
    ensures var r := LastOf(s, lo, hi, SPACE);
            && (if SomeMark(s, lo, hi, {32}) then lo <= r < hi && LastMark(s, r, hi, {32}) else r == -1)
            && (r == hi - 1 <==> s[hi - 1] in {32})
  {
    FindsLast(s, lo, hi, SPACE, {32});
  }

  function WindowEnd(s: Text, start: nat): nat
    requires start <= |s|
  {
    var hard := Advance(s, start, TARGET);
    if hard < |s| then BestCut(s, start, hard) else hard
  }

  lemma HardStop(s: Text, start: nat)
    requires Valid(s) && Boundary(s, start) && start < |s|
    ensures var hard := Advance(s, start, TARGET);
            && start < hard <= |s| && Boundary(s, hard)
            && (Chars(s, start, |s|) <= 2048 <==> hard == |s|)
            && (hard < |s| ==> Chars(s, start, hard) == 2048)
  {
    hide Valid, Boundary, Chars, Advance, Width;
    var hard := Advance(s, start, TARGET);
    AdvanceCounts(s, start, TARGET);
    CharEndsAtBoundary(s, start);
    CharsSplit(s, start, hard, |s|);
    if hard < |s| {
      CharCountsOne(s, hard);
      CharsSplit(s, hard, hard + Width(s[hard]), |s|);
    }
  }

  /** A window takes all that is left up to 2048 characters, and is otherwise cut back from the 2048th. */
  lemma WindowStops(s: Text, start: nat) returns (hard: nat)
    requires Valid(s) && Boundary(s, start) && start < |s|
    ensures start < hard <= |s| && Boundary(s, hard)
    ensures Chars(s, start, |s|) <= 2048 ==> hard == |s| && WindowEnd(s, start) == |s|
    ensures Chars(s, start, |s|) > 2048 ==>
              Chars(s, start, hard) == 2048 && PreferredCut(s, start, hard, WindowEnd(s, start))
  {
    hide Valid, Boundary, Chars, BestCut, PreferredCut;
    hard := Advance(s, start, TARGET);
    HardStop(s, start);
    if hard < |s| {
      CutPrefers(s, start, hard);
    }
  }

  /**
   * A full window that is not the last keeps at least 559 characters: at worst the first 60% of its bytes are
   * characters of four bytes and the rest are of one, and the cut falls right after that 60%.
   */
  lemma WindowIsLong(s: Text, start: nat)
    requires Valid(s) && Boundary(s, start) && start < |s|
    ensures var end := WindowEnd(s, start);
            Boundary(s, end) && start < end && Chars(s, start, end) <= 2048 &&
            (end < |s| ==> Chars(s, start, end) >= 559)
  {
    var hard, end := Advance(s, start, TARGET), WindowEnd(s, start);
    AdvanceCounts(s, start, TARGET);
    CharEndsAtBoundary(s, start);
    if hard < |s| {
      assert hard > start;
      BestCutIsBoundary(s, start, hard);
      CharsSplit(s, start, end, hard);
      FourBytesAtMost(s, start, end);
    }
  }

  /** Where the window after one that ends at `end` starts. */
  function NextStart(s: Text, end: nat): nat
    requires Valid(s) && end <= |s|
  {
    Retreat(s, end, OVERLAP)
  }

  /** Each full window moves the start by at least 300 characters; the forced-progress fallback has nothing to do. */
  lemma WindowAdvances(s: Text, start: nat)
    requires Valid(s) && Boundary(s, start) && start < |s| && WindowEnd(s, start) < |s|
    ensures WindowEnd(s, start) <= |s|
    ensures var next := NextStart(s, WindowEnd(s, start));
            Boundary(s, next) && start < next < WindowEnd(s, start) && Chars(s, start, next) >= 300 &&
            Chars(s, next, WindowEnd(s, start)) == 256
  {
    var end := WindowEnd(s, start);
    WindowIsLong(s, start);
    RetreatCounts(s, end, OVERLAP);
    var next := NextStart(s, end);
    if next <= start {
      CharsSplit(s, next, start, end);
    } else {
      CharsSplit(s, start, next, end);
    }
  }

  /** Window ends strictly increase. */
  lemma EndsIncrease(s: Text, start: nat)
    requires Valid(s) && Boundary(s, start) && start < |s| && WindowEnd(s, start) < |s|
    ensures WindowEnd(s, start) < WindowEnd(s, NextStart(s, WindowEnd(s, start))) <= |s|
  {
    var end := WindowEnd(s, start);
    WindowAdvances(s, start);
    var next := NextStart(s, end);
    WindowIsLong(s, next);
    if WindowEnd(s, next) <= end {
      CharsSplit(s, next, WindowEnd(s, next), end);
    }
  }

  // ---- pieces of text are text ----

  /** A character is white space or not as it was before the cut. */
  lemma SliceSpace(s: Text, lo: nat, hi: nat, k: nat)
    requires Span(s, lo, hi) && k < hi - lo && RuneStart(s[lo + k])
    ensures SpaceAt(s[lo..hi], k) == SpaceAt(s, lo + k)
  {
    CharEndsAtBoundary(s, lo + k);
  }

  lemma {:induction false} SliceChars(s: Text, lo: nat, hi: nat, i: nat, j: nat)
    requires lo <= i <= j <= hi <= |s|
    ensures Chars(s[lo..hi], i - lo, j - lo) == Chars(s, i, j)
    decreases j - i
  {
    if i < j {
      SliceChars(s, lo, hi, i, j - 1);
    }
  }

  lemma SubspanChars(s: Text, lo: nat, i: nat, j: nat, hi: nat)
    requires lo <= i <= j <= hi <= |s|
    ensures Chars(s, i, j) <= Chars(s, lo, hi)
  {
    CharsSplit(s, lo, i, hi);
    CharsSplit(s, i, j, hi);
  }

  // ---- the whole document ----

  datatype Window = Window(start: nat, end: nat)

  /** The windows from start to the end of the text. */
  function Windows(s: Text, start: nat): (ws: seq<Window>)
    requires Valid(s) && Boundary(s, start) && start < |s|
    decreases |s| - start
  {
    WindowIsLong(s, start);
    var end := WindowEnd(s, start);
    if end >= |s| then [Window(start, end)]
    else
      WindowAdvances(s, start);
      [Window(start, end)] + Windows(s, NextStart(s, end))
  }

  /** The chunk a window leaves once white space is trimmed: none when nothing is left. */
  function Trimmed(s: Text, base: nat, index: nat, w: Window): (cs: seq<Chunk>)
    requires Span(s, w.start, w.end)
  {
    var lo := TrimLeft(s, w.start, w.end);
    var hi := TrimRight(s, lo, w.end);
    if lo == hi then [] else [Chunk(index, base + lo, base + hi, s[lo..hi])]
  }

  function Pieces(s: Text, base: nat, index: nat, ws: seq<Window>): (cs: seq<Chunk>)
    requires forall i :: 0 <= i < |ws| ==> Span(s, ws[i].start, ws[i].end)
    decreases |ws|
  {
    if ws == [] then []
    else
      var first := Trimmed(s, base, index, ws[0]);
      first + Pieces(s, base, index + |first|, ws[1..])
  }

  /** Windows are runs of whole characters, at most a target's worth each, and the last reaches the end. */
  lemma {:induction false} WindowsAreSpans(s: Text, start: nat)
    requires Valid(s) && Boundary(s, start) && start < |s|
    ensures var ws := Windows(s, start);
            ws != [] && ws[0].start == start && ws[|ws| - 1].end == |s| &&
            forall i :: 0 <= i < |ws| ==> Span(s, ws[i].start, ws[i].end) && ws[i].start < ws[i].end &&
                                          Chars(s, ws[i].start, ws[i].end) <= TARGET
    decreases |s| - start
  {
    hide WindowEnd, NextStart, Valid, Boundary, Chars;
    WindowIsLong(s, start);
    if WindowEnd(s, start) < |s| {
      WindowAdvances(s, start);
      WindowsAreSpans(s, NextStart(s, WindowEnd(s, start)));
    } else {
      WindowEndsInText(s, start);
    }
  }

  lemma WindowEndsInText(s: Text, start: nat)
    requires Valid(s) && Boundary(s, start) && start < |s|
    ensures WindowEnd(s, start) <= |s|
  {
    WindowIsLong(s, start);
  }

  /** The overlap is exact, the start gains at least 300 characters, and the end grows. */
  predicate Marches(s: Text, w: Window, next: Window) {
    && w.start < next.start < w.end < next.end <= |s|
    && Chars(s, w.start, next.start) >= 300
    && Chars(s, next.start, w.end) == 256
  }

  ghost predicate AllMarch(s: Text, ws: seq<Window>) {
    forall i :: 0 <= i < |ws| - 1 ==> Marches(s, ws[i], ws[i + 1])
  }

  lemma {:induction false} WindowsMarch(s: Text, start: nat)
    requires Valid(s) && Boundary(s, start) && start < |s|
    ensures AllMarch(s, Windows(s, start))
    decreases |s| - start
  {
    WindowIsLong(s, start);
    var end := WindowEnd(s, start);
    if end < |s| {
      NextMarches(s, start);
      WindowsMarch(s, NextStart(s, end));
      MarchInFront(s, Window(start, end), Windows(s, NextStart(s, end)));
    }
  }

  lemma NextMarches(s: Text, start: nat)
    requires Valid(s) && Boundary(s, start) && start < |s| && WindowEnd(s, start) < |s|
    ensures var next := NextStart(s, WindowEnd(s, start));
            Boundary(s, next) && start < next < |s| &&
            Marches(s, Window(start, WindowEnd(s, start)), Windows(s, next)[0])
  {
    WindowAdvances(s, start);
    EndsIncrease(s, start);
    var next := NextStart(s, WindowEnd(s, start));
    assert Windows(s, next)[0] == Window(next, WindowEnd(s, next));
  }

  lemma MarchInFront(s: Text, first: Window, rest: seq<Window>)
    requires rest != [] && Marches(s, first, rest[0]) && AllMarch(s, rest)
    ensures AllMarch(s, [first] + rest)
  {
    hide Marches;
    var all := [first] + rest;
    forall i | 0 <= i < |all| - 1 ensures Marches(s, all[i], all[i + 1]) {
      if i > 0 {
        assert all[i] == rest[i - 1] && all[i + 1] == rest[i];
      }
    }
  }

  /** So a text has one window and at most one more for every 300 characters. */
  lemma {:induction false} WindowsAreFew(s: Text, start: nat)
    requires Valid(s) && Boundary(s, start) && start < |s|
    ensures 300 * (|Windows(s, start)| - 1) <= Chars(s, start, |s|)
    decreases |s| - start
  {
    WindowIsLong(s, start);
    if WindowEnd(s, start) < |s| {
      WindowAdvances(s, start);
      var next := NextStart(s, WindowEnd(s, start));
      WindowsAreFew(s, next);
      CharsSplit(s, start, next, |s|);
    }
  }

  /** No position after the first start escapes the windows. */
  lemma {:induction false} WindowsCover(s: Text, start: nat, k: nat) returns (i: nat)
    requires Valid(s) && Boundary(s, start) && start <= k < |s|
    ensures i < |Windows(s, start)| && Windows(s, start)[i].start <= k < Windows(s, start)[i].end
    decreases |s| - start
  {
    hide WindowEnd, NextStart;
    WindowIsLong(s, start);
    if k < WindowEnd(s, start) {
      i := 0;
    } else {
      WindowAdvances(s, start);
      var j := WindowsCover(s, NextStart(s, WindowEnd(s, start)), k);
      i := j + 1;
    }
  }

  // ---- what the chunks promise ----

  /** A chunk names its own bytes of s, which starts at `base` of its document: whole characters, within the target. */
  ghost predicate Names(s: Text, base: nat, c: Chunk) {
    && base <= c.start < c.end <= base + |s|
    && Boundary(s, c.start - base) && Boundary(s, c.end - base)
    && s[c.start - base..c.end - base] == c.text
    && Chars(s, c.start - base, c.end - base) <= 2048
  }

  /** Neither the first nor the last character of a chunk is white space. */
  ghost predicate Tight(s: Text, base: nat, c: Chunk)
    requires Valid(s) && Names(s, base, c)
  {
    !SpaceAt(s, c.start - base) && !SpaceAt(s, CutAt(s, c.end - base - 1))
  }

  ghost predicate Quotes(s: Text, base: nat, c: Chunk)
    requires Valid(s)
  {
    Names(s, base, c) && Tight(s, base, c)
  }

  ghost predicate SpansOf(s: Text, ws: seq<Window>) {
    forall i :: 0 <= i < |ws| ==> Span(s, ws[i].start, ws[i].end) && Chars(s, ws[i].start, ws[i].end) <= TARGET
  }

  lemma {:induction false} TrimStops(s: Text, lo: nat, hi: nat)
    requires Span(s, lo, hi)
    ensures TrimLeft(s, lo, hi) < hi ==> !SpaceAt(s, TrimLeft(s, lo, hi))
    decreases hi - lo
  {
    if lo < hi && SpaceAt(s, lo) {
      CharEndsAtBoundary(s, lo);
      TrimStops(s, lo + Width(s[lo]), hi);
    }
  }

  lemma {:induction false} TrimRightStops(s: Text, lo: nat, hi: nat)
    requires Span(s, lo, hi)
    ensures TrimRight(s, lo, hi) > lo ==> !SpaceAt(s, CutAt(s, TrimRight(s, lo, hi) - 1))
    decreases hi - lo
  {
    if lo < hi && SpaceAt(s, CutAt(s, hi - 1)) {
      TrimRightStops(s, lo, CutAt(s, hi - 1));
    }
  }

  lemma TrimmedQuotes(s: Text, base: nat, index: nat, w: Window)
    requires Span(s, w.start, w.end) && Chars(s, w.start, w.end) <= TARGET
    ensures var cs := Trimmed(s, base, index, w);
            cs == [] || (|cs| == 1 && cs[0].index == index && Quotes(s, base, cs[0]))
  {
    hide TrimLeft, TrimRight, Valid, CutAt, SpaceAt, Chars;
    var lo := TrimLeft(s, w.start, w.end);
    var hi := TrimRight(s, lo, w.end);
    TrimStops(s, w.start, w.end);
    TrimRightStops(s, lo, w.end);
    SubspanChars(s, w.start, lo, hi, w.end);
  }

  /** Chunks numbered from index on, each a quotation. */
  ghost predicate AllQuote(s: Text, base: nat, index: nat, cs: seq<Chunk>)
    requires Valid(s)
  {
    forall i :: 0 <= i < |cs| ==> cs[i].index == index + i && Quotes(s, base, cs[i])
  }

  lemma AllQuoteJoin(s: Text, base: nat, index: nat, cs: seq<Chunk>, ds: seq<Chunk>)
    requires Valid(s) && AllQuote(s, base, index, cs) && AllQuote(s, base, index + |cs|, ds)
    ensures AllQuote(s, base, index, cs + ds)
  {
  }

  lemma NothingQuotes(s: Text, base: nat, index: nat)
    requires Valid(s)
    ensures AllQuote(s, base, index, [])
  {
  }

  lemma {:induction false} PiecesQuote(s: Text, base: nat, index: nat, ws: seq<Window>)
    requires Valid(s) && SpansOf(s, ws)
    ensures AllQuote(s, base, index, Pieces(s, base, index, ws))
    decreases |ws|
  {
    hide Trimmed, Valid, Chars, AllQuote;
    if ws == [] {
      NothingQuotes(s, base, index);
    } else {
      var first := Trimmed(s, base, index, ws[0]);
      TrimmedQuotes(s, base, index, ws[0]);
      PiecesQuote(s, base, index + |first|, ws[1..]);
      AllQuoteJoin(s, base, index, first, Pieces(s, base, index + |first|, ws[1..]));
    }
  }

  lemma TrimmedCovers(s: Text, base: nat, index: nat, w: Window, k: nat)
    requires Span(s, w.start, w.end) && w.start <= k < w.end && RuneStart(s[k]) && !SpaceAt(s, k)
    ensures var cs := Trimmed(s, base, index, w); |cs| == 1 && cs[0].start <= base + k < cs[0].end
  {
    hide TrimLeft, TrimRight, CutAt, Valid, SpaceAt;
    TrimLeftSpace(s, w.start, w.end);
    TrimRightSpace(s, TrimLeft(s, w.start, w.end), w.end);
  }

  /** Trimming a window drops white space only, so some chunk holds each of its other characters. */
  lemma {:induction false} PiecesCover(s: Text, base: nat, index: nat, ws: seq<Window>, i: nat, k: nat) returns (j: nat)
    requires Valid(s) && SpansOf(s, ws)
    requires i < |ws| && ws[i].start <= k < ws[i].end && RuneStart(s[k]) && !SpaceAt(s, k)
    ensures var cs := Pieces(s, base, index, ws);
            j < |cs| && cs[j].start <= base + k < cs[j].end
    decreases i
  {
    hide Trimmed, Valid, SpaceAt, Chars;
    if i == 0 {
      TrimmedCovers(s, base, index, ws[0], k);
      j := 0;
    } else {
      var first := Trimmed(s, base, index, ws[0]);
      var rest := PiecesCover(s, base, index + |first|, ws[1..], i - 1, k);
      j := |first| + rest;
    }
  }

  // ---- Split ----

  /** The part of a document that is left once white space is trimmed from both ends. */
  function Body(full: Text): (r: (nat, nat))
    requires Valid(full)
    ensures r.0 <= r.1 <= |full| && Boundary(full, r.0) && Boundary(full, r.1)
  {
    var base := TrimLeft(full, 0, |full|);
    (base, TrimRight(full, base, |full|))
  }

  function ChunksOf(full: Text): (cs: seq<Chunk>)
    requires Valid(full)
  {
    var (base, stop) := Body(full);
    if base == stop then []
    else
      SliceIsText(full, base, stop);
      var text := full[base..stop];
      if Chars(text, 0, |text|) <= TARGET then [Chunk(0, base, base + |text|, text)]
      else
        WindowsAreSpans(text, 0);
        Pieces(text, base, 0, Windows(text, 0))
  }

  /** The chunks of the windows from start on. */
  ghost function PiecesFrom(s: Text, base: nat, index: nat, start: nat): seq<Chunk>
    requires Valid(s) && Boundary(s, start) && start < |s|
  {
    WindowsAreSpans(s, start);
    Pieces(s, base, index, Windows(s, start))
  }

  lemma PiecesCons(s: Text, base: nat, index: nat, w: Window, ws: seq<Window>)
    requires Valid(s) && SpansOf(s, [w] + ws) && SpansOf(s, ws) && Span(s, w.start, w.end)
    ensures var first := Trimmed(s, base, index, w);
            Pieces(s, base, index, [w] + ws) == first + Pieces(s, base, index + |first|, ws)
  {
    hide Trimmed, TrimLeft, TrimRight, Valid, Chars;
    assert ([w] + ws)[1..] == ws;
  }

  lemma LastWindow(s: Text, base: nat, index: nat, start: nat)
    requires Valid(s) && Boundary(s, start) && start < |s| && WindowEnd(s, start) >= |s|
    ensures Span(s, start, WindowEnd(s, start))
    ensures PiecesFrom(s, base, index, start) == Trimmed(s, base, index, Window(start, WindowEnd(s, start)))
  {
    WindowIsLong(s, start);
    WindowsAreSpans(s, start);
    var w := Window(start, WindowEnd(s, start));
    assert Windows(s, start) == [w] + [];
    PiecesCons(s, base, index, w, []);
  }

  lemma EarlierWindow(s: Text, base: nat, index: nat, start: nat)
    requires Valid(s) && Boundary(s, start) && start < |s| && WindowEnd(s, start) < |s|
    ensures var end := WindowEnd(s, start);
            var next := NextStart(s, end);
            && Span(s, start, end) && start < next < |s| && Boundary(s, next)
            && var first := Trimmed(s, base, index, Window(start, end));
               PiecesFrom(s, base, index, start) == first + PiecesFrom(s, base, index + |first|, next)
  {
    hide WindowEnd, NextStart, Trimmed, Valid, Chars, RuneStart;
    WindowIsLong(s, start);
    WindowAdvances(s, start);
    WindowsAreSpans(s, start);
    var end := WindowEnd(s, start);
    var next := NextStart(s, end);
    WindowsAreSpans(s, next);
    PiecesCons(s, base, index, Window(start, end), Windows(s, next));
  }

  /** The chunk of one window, trimmed in place. */
  method CutPiece(text: Text, base: nat, index: nat, start: nat, end: nat) returns (cs: seq<Chunk>)
    requires Span(text, start, end)
    ensures cs == Trimmed(text, base, index, Window(start, end))
  {
    var lo := FindTrimLeft(text, start, end);
    var hi := FindTrimRight(text, lo, end);
    cs := if lo < hi then [Chunk(index, base + lo, base + hi, text[lo..hi])] else [];
  }

  method FindWindowEnd(s: Text, start: nat) returns (end: nat)
    requires start <= |s|
    ensures end == WindowEnd(s, start)
  {
    end := AdvanceRunes(s, start, TARGET);
    if end < |s| {
      end := FindCut(s, start, end);
    }
  }

  method SplitWindows(text: Text, base: nat) returns (chunks: seq<Chunk>)
    requires Valid(text) && text != []
    ensures Boundary(text, 0) && chunks == PiecesFrom(text, base, 0, 0)
  {
    hide WindowEnd, PiecesFrom, Trimmed, Retreat, Valid, Windows, Pieces, Advance;
    chunks := [];
    var start := 0;
    StartIsBoundary(text);
    ghost var all := PiecesFrom(text, base, 0, 0);
    while true
      invariant start < |text| && Boundary(text, start)
      invariant all == chunks + PiecesFrom(text, base, |chunks|, start)
      decreases |text| - start
    {
      var end := FindWindowEnd(text, start);
      WindowIsLong(text, start);
      var piece := CutPiece(text, base, |chunks|, start, end);
      if end >= |text| {
        LastWindow(text, base, |chunks|, start);
        chunks := chunks + piece;
        break;
      }
      EarlierWindow(text, base, |chunks|, start);
      assert |chunks + piece| == |chunks| + |piece|;
      chunks := chunks + piece;
      var next := RetreatRunes(text, end, OVERLAP);
      if next <= start {
        next := end;
      }
      start := next;
    }
  }

  method Split(full: Text) returns (chunks: seq<Chunk>)
    requires Valid(full)
    ensures chunks == ChunksOf(full)
  {
    var base := FindTrimLeft(full, 0, |full|);
    var stop := FindTrimRight(full, base, |full|);
    var text := full[base..stop];
    if text == [] {
      return [];
    }
    SliceIsText(full, base, stop);
    if Chars(text, 0, |text|) <= TARGET {
      return [Chunk(0, base, base + |text|, text)];
    }
    chunks := SplitWindows(text, base);
  }

  // ---- the chunks of a document ----

  lemma ShortTextQuotes(full: Text)
    requires Valid(full) && Body(full).0 < Body(full).1
    ensures var (base, stop) := Body(full);
            var text := full[base..stop];
            Valid(text) && !SpaceAt(text, 0) && !SpaceAt(text, CutAt(text, |text| - 1))
  {
    hide TrimLeft, TrimRight, Valid, CutAt, SpaceAt;
    var (base, stop) := Body(full);
    var text := full[base..stop];
    StartIsBoundary(full);
    SliceIsText(full, base, stop);
    TrimStops(full, 0, |full|);
    TrimRightStops(full, base, |full|);
    assert full[base] == text[0];
    SliceSpace(full, base, stop, 0);
    SameCut(full, base, stop, |text| - 1);
    SliceSpace(full, base, stop, CutAt(text, |text| - 1));
  }

  /** A cut inside a slice is the cut inside the whole. */
  lemma {:induction false} SameCut(s: Text, lo: nat, hi: nat, k: nat)
    requires Span(s, lo, hi) && k < hi - lo && Valid(s[lo..hi])
    ensures lo + CutAt(s[lo..hi], k) == CutAt(s, lo + k)
    decreases k
  {
    if k > 0 && !RuneStart(s[lo + k]) {
      SameCut(s, lo, hi, k - 1);
    }
  }

  lemma SliceOfSlice(s: Text, lo: nat, hi: nat, i: nat, j: nat)
    requires lo <= i <= j <= hi <= |s|
    ensures s[lo..hi][i - lo..j - lo] == s[i..j]
  {
    var a, b := s[lo..hi][i - lo..j - lo], s[i..j];
    forall k | 0 <= k < j - i
      ensures a[k] == b[k]
    {
      assert a[k] == s[lo..hi][i - lo + k];
    }
  }

  lemma NamesTransfer(full: Text, base: nat, stop: nat, c: Chunk)
    requires Span(full, base, stop) && Names(full[base..stop], base, c)
    ensures Names(full, 0, c)
  {
    var text := full[base..stop];
    SliceChars(full, base, stop, c.start, c.end);
    SliceOfSlice(full, base, stop, c.start, c.end);
    assert c.end < stop ==> text[c.end - base] == full[c.end];
    assert text[c.start - base] == full[c.start];
  }

  lemma TightTransfer(full: Text, base: nat, stop: nat, c: Chunk)
    requires Span(full, base, stop) && Valid(full[base..stop])
    requires Names(full[base..stop], base, c) && Names(full, 0, c) && Tight(full[base..stop], base, c)
    ensures Tight(full, 0, c)
  {
    hide Valid, CutAt, SpaceAt, Chars;
    SliceSpace(full, base, stop, c.start - base);
    var last := CutAt(full[base..stop], c.end - base - 1);
    SameCut(full, base, stop, c.end - base - 1);
    assert full[base..stop][last] == full[base + last];
    SliceSpace(full, base, stop, last);
  }

  lemma ChunksQuoteTheText(full: Text, i: nat)
    requires Valid(full) && i < |ChunksOf(full)|
    ensures var (base, stop) := Body(full);
            var c := ChunksOf(full)[i];
            Valid(full[base..stop]) && c.index == i && Quotes(full[base..stop], base, c)
  {
    hide WindowEnd, Pieces, Windows, TrimLeft, TrimRight, Chars, Tight, CutAt, SpaceAt, Valid;
    var (base, stop) := Body(full);
    SliceIsText(full, base, stop);
    var text := full[base..stop];
    if Chars(text, 0, |text|) <= TARGET {
      ShortTextQuotes(full);
      WholeQuotes(text, base);
    } else {
      WindowsAreSpans(text, 0);
      PiecesQuote(text, base, 0, Windows(text, 0));
    }
  }

  lemma WholeQuotes(text: Text, base: nat)
    requires Valid(text) && text != [] && Chars(text, 0, |text|) <= TARGET
    requires !SpaceAt(text, 0) && !SpaceAt(text, CutAt(text, |text| - 1))
    ensures Quotes(text, base, Chunk(0, base, base + |text|, text))
  {
    hide Chars, CutAt, SpaceAt;
    assert text[0..|text|] == text;
  }

  /**
   * Every chunk names its own bytes of the stored document, runs over whole characters and at most 2048 of
   * them, neither starts nor ends with white space, and is numbered by its place.
   */
  lemma ChunksQuoteTheDocument(full: Text, i: nat)
    requires Valid(full) && i < |ChunksOf(full)|
    ensures var c := ChunksOf(full)[i];
            && c.index == i && 0 <= c.start < c.end <= |full| && c.text == full[c.start..c.end]
            && Boundary(full, c.start) && Boundary(full, c.end) && Chars(full, c.start, c.end) <= 2048
            && !SpaceAt(full, c.start) && !SpaceAt(full, CutAt(full, c.end - 1))
  {
    hide ChunksOf, Chars, CutAt, SpaceAt, Valid, Boundary;
    ChunksQuoteTheWhole(full, i);
  }

  lemma ChunksQuoteTheWhole(full: Text, i: nat)
    requires Valid(full) && i < |ChunksOf(full)|
    ensures var c := ChunksOf(full)[i]; c.index == i && Quotes(full, 0, c)
  {
    hide ChunksOf, TrimLeft, TrimRight, Names, Tight, Valid;
    var (base, stop) := Body(full);
    ChunksQuoteTheText(full, i);
    NamesTransfer(full, base, stop, ChunksOf(full)[i]);
    TightTransfer(full, base, stop, ChunksOf(full)[i]);
  }

  /** Every character of the document that is not white space lies in some chunk. */
  lemma EveryCharacterIsCovered(full: Text, k: nat) returns (j: nat)
    requires Valid(full) && k < |full| && RuneStart(full[k]) && !SpaceAt(full, k)
    ensures var cs := ChunksOf(full); j < |cs| && cs[j].start <= k < cs[j].end
  {
    hide WindowEnd, Pieces, TrimLeft, TrimRight, Windows;
    var (base, stop) := Body(full);
    TrimLeftSpace(full, 0, |full|);
    TrimRightSpace(full, base, |full|);
    assert base <= k < stop;
    SliceIsText(full, base, stop);
    var text := full[base..stop];
    j := 0;
    if Chars(text, 0, |text|) > TARGET {
      WindowsAreSpans(text, 0);
      var i := WindowsCover(text, 0, k - base);
      SliceSpace(full, base, stop, k - base);
      j := PiecesCover(text, base, 0, Windows(text, 0), i, k - base);
    }
  }

  /** A document has no chunk exactly when it is blank. */
  lemma OnlyBlankDocumentsHaveNoChunks(full: Text)
    requires Valid(full)
    ensures ChunksOf(full) == [] <==> AllSpace(full, 0, |full|)
  {
    var (base, stop) := Body(full);
    TrimLeftSpace(full, 0, |full|);
    if base < stop {
      TrimStops(full, 0, |full|);
      var j := EveryCharacterIsCovered(full, base);
    } else {
      TrimRightSpace(full, base, |full|);
    }
  }
}
