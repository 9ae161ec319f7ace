/**
 * When the document pager's size search does what it is for. The search assumes a monotone predicate, and the rounding
 * of an end down to a character boundary breaks that at the low end: an end inside the first character never qualifies.
 */
module DocumentSizing {
  import opened Wrappers
  import opened Utf8
  import opened DocumentPages
  import Bisect

  /** An end qualifies as soon as it is past the first character. */
  lemma CutPastFirst(text: Text, offset: nat, end: nat)
    requires Valid(text) && Boundary(text, offset) && offset < |text| && offset < end <= |text|
    ensures CutAt(text, end) > offset <==> end >= offset + Width(text[offset])
  {
    CharEndsAtBoundary(text, offset);
    assert Boundary(text, offset + Width(text[offset]));
  }

  /** Ends up to `last` are within bounds and later ones are not. */
  ghost predicate FitsUpTo(m: Match, offset: nat, docs: seq<Entry>, fits: Sizer, last: nat)
    requires Valid(m.text)
  {
    forall end :: offset < end <= |m.text| && CutAt(m.text, end) > offset ==>
      (fits(docs + [WithText(HeaderOf(m), m.text, offset, CutAt(m.text, end))], MAX_CURSOR) <==> end <= last)
  }

  /**
   * Exactly when a page places any of a text whose first character, at least, is within bounds: when the search's
   * first probe that is not too large is past that character.
   */
  lemma TextIsPlacedExactly(m: Match, offset: nat, docs: seq<Entry>, fits: Sizer, last: nat)
    requires Valid(m.text) && Boundary(m.text, offset) && offset < |m.text|
    requires offset < last && offset + Width(m.text[offset]) <= last <= |m.text| && FitsUpTo(m, offset, docs, fits, last)
    ensures TextStop(m, offset, docs, fits) > offset <==>
            Bisect.FirstProbe(offset + 1, |m.text|, last) >= offset + Width(m.text[offset])
  {
    CharEndsAtBoundary(m.text, offset);
    var w := Width(m.text[offset]);
    var p := EndFits(m, offset, docs, fits);
    forall end | offset + 1 <= end <= |m.text| ensures p(end) <==> offset + w <= end <= last {
      ProbeIsInWindow(m, offset, docs, fits, last, end);
    }
    Bisect.WindowFound(offset + 1, |m.text|, offset + w, last, p);
    if Bisect.FirstProbe(offset + 1, |m.text|, last) >= offset + w {
      ChosenIsForward(m, offset, docs, fits);
    }
  }

  lemma ProbeIsInWindow(m: Match, offset: nat, docs: seq<Entry>, fits: Sizer, last: nat, end: nat)
    requires Valid(m.text) && Boundary(m.text, offset) && offset < end <= |m.text|
    requires FitsUpTo(m, offset, docs, fits, last)
    ensures EndFits(m, offset, docs, fits)(end) <==> offset + Width(m.text[offset]) <= end <= last
  {
    CutPastFirst(m.text, offset, end);
  }

  /** Room for one byte less than two of the first character is always enough. */
  lemma RoomForTwoIsEnough(m: Match, offset: nat, docs: seq<Entry>, fits: Sizer, last: nat)
    requires Valid(m.text) && Boundary(m.text, offset) && offset < |m.text|
    requires offset + 2 * Width(m.text[offset]) - 1 <= last <= |m.text| && FitsUpTo(m, offset, docs, fits, last)
    ensures TextStop(m, offset, docs, fits) > offset
  {
    CharEndsAtBoundary(m.text, offset);
    TextIsPlacedExactly(m, offset, docs, fits, last);
    Bisect.FirstProbeReaches(offset + 1, |m.text|, last);
  }

  /**
   * When all that is left of a text is within bounds, it is placed if and only if it is at least one byte short of
   * twice its first character. A shorter remainder - one character of two bytes, one of three with at most one more
   * byte behind it, or one of four with at most two - is refused although it fits.
   */
  lemma ShortRemainderIsRefused(m: Match, offset: nat, docs: seq<Entry>, fits: Sizer)
    requires Valid(m.text) && Boundary(m.text, offset) && offset < |m.text|
    requires FitsUpTo(m, offset, docs, fits, |m.text|)
    ensures TextStop(m, offset, docs, fits) > offset <==> |m.text| - offset >= 2 * Width(m.text[offset]) - 1
  {
    CharEndsAtBoundary(m.text, offset);
    TextIsPlacedExactly(m, offset, docs, fits, |m.text|);
    Bisect.FirstProbeReaches(offset + 1, |m.text|, |m.text|);
    assert Bisect.Middle(offset + 1, |m.text|) == offset + 1 + (|m.text| - offset - 1) / 2;
  }

  /** A document whose whole text is one two-byte character cannot be fetched, whatever the bounds allow. */
  lemma OneCharacterDocumentFails()
    ensures var m := Match("d", [0xD1, 0x8F], []);
            Valid(m.text) && Build([m], Position(0, InText, 0), [], (docs, cursor) => true) == TooLarge
  {
    var m := Match("d", [0xD1, 0x8F], []);
    var fits: Sizer := (docs, cursor) => true;
    assert Width(m.text[0]) == 2 && CharAt(m.text, 0);
    assert ValidFrom(m.text, 2);
    assert Valid(m.text);
    ShortRemainderIsRefused(m, 0, [], fits);
    assert TextStop(m, 0, [], fits) == 0;
  }

  // ---- how much a page takes ----

  /** What a page could hold of a text fits, and one more character would not. */
  lemma OneMoreCharacterDoesNotFit(m: Match, offset: nat, docs: seq<Entry>, fits: Sizer)
    requires Valid(m.text) && Boundary(m.text, offset) && offset < |m.text|
    requires ChosenEnd(m, offset, docs, fits) > offset
    ensures var end := CutAt(m.text, ChosenEnd(m, offset, docs, fits));
            && fits(docs + [WithText(HeaderOf(m), m.text, offset, end)], MAX_CURSOR)
            && (end < |m.text| ==>
                  !fits(docs + [WithText(HeaderOf(m), m.text, offset, NextBoundary(m.text, end))], MAX_CURSOR))
  {
    var p, found := EndFits(m, offset, docs, fits), ChosenEnd(m, offset, docs, fits);
    ChosenIsForward(m, offset, docs, fits);
    if found < |m.text| {
      Bisect.LargestIsAnEdge(offset + 1, |m.text|, p);
      assert !p(found + 1);
      NextCut(m.text, CutAt(m.text, found), found);
    }
  }

  /** Text that is left over is cut after the last blank line in the second half of what the page could hold. */
  lemma LeftOverTextStopsAtParagraph(m: Match, offset: nat, docs: seq<Entry>, fits: Sizer)
    requires Valid(m.text) && offset < |m.text| && ChosenEnd(m, offset, docs, fits) > offset
    ensures var best, stop := CutAt(m.text, ChosenEnd(m, offset, docs, fits)), TextStop(m, offset, docs, fits);
            && (best == |m.text| ==> stop == best)
            && (best < |m.text| ==> PrefersParagraph(m.text, offset, best, stop))
  {
    ChosenIsForward(m, offset, docs, fits);
    ParagraphIsPreferred(m.text, offset, CutAt(m.text, ChosenEnd(m, offset, docs, fits)));
  }

  /** The attachments a page takes fit beside the entry, and unless they are all that is left, one more would not. */
  lemma OneMoreAttachmentDoesNotFit(m: Match, e: Entry, offset: nat, docs: seq<Entry>, progressed: bool, fits: Sizer)
    requires offset <= |m.attachments| && Count(m, e, offset, docs, progressed, fits) > 0
    ensures var n := Count(m, e, offset, docs, progressed, fits);
            && fits(docs + [WithAttachments(e, m.attachments, offset, n)], MAX_CURSOR)
            && (offset + n < |m.attachments| ==>
                  !fits(docs + [WithAttachments(e, m.attachments, offset, n + 1)], MAX_CURSOR))
  {
    var p, n := CountFits(m, e, offset, docs, fits), Count(m, e, offset, docs, progressed, fits);
    Bisect.LargestIsAnEdge(0, |m.attachments| - offset, p);
    assert p(n);
    if offset + n < |m.attachments| {
      assert !p(n + 1);
    }
  }

  // ---- the finished page ----

  /** A shorter cursor never takes more room. */
  ghost predicate ShorterCursorFits(fits: Sizer) {
    forall docs, a, b :: a <= b && fits(docs, b) ==> fits(docs, a)
  }

  /** A slice of whole characters that leaves text for another page. */
  predicate Slice(text: Text, offset: nat, end: nat) {
    Valid(text) && Boundary(text, offset) && Boundary(text, end) && offset < end < |text|
  }

  /** Among such slices a shorter one never takes more room. */
  ghost predicate ShorterTextFits(fits: Sizer) {
    forall m: Match, docs, offset: nat, a: nat, b: nat ::
      Slice(m.text, offset, a) && Slice(m.text, offset, b) && a <= b &&
      fits(docs + [WithText(HeaderOf(m), m.text, offset, b)], MAX_CURSOR) ==>
        fits(docs + [WithText(HeaderOf(m), m.text, offset, a)], MAX_CURSOR)
  }

  lemma TextStopFits(m: Match, offset: nat, docs: seq<Entry>, fits: Sizer)
    requires Valid(m.text) && Boundary(m.text, offset) && offset < |m.text| && ShorterTextFits(fits)
    requires TextStop(m, offset, docs, fits) > offset
    ensures fits(docs + [WithText(HeaderOf(m), m.text, offset, TextStop(m, offset, docs, fits))], MAX_CURSOR)
  {
    ChosenIsForward(m, offset, docs, fits);
  }

  /** A text placed whole leaves room for its entry with no attachments, so the fallback to none is never needed. */
  lemma ProgressNeedsNoFallback(m: Match, offset: nat, docs: seq<Entry>, fits: Sizer)
    requires Valid(m.text) && Boundary(m.text, offset) && offset < |m.text| && TextStop(m, offset, docs, fits) == |m.text|
    requires ShorterTextFits(fits)
    ensures Bisect.Largest(0, |m.attachments|, CountFits(m, WithText(HeaderOf(m), m.text, offset, |m.text|), 0, docs, fits)) >= 0
  {
    TextStopFits(m, offset, docs, fits);
    var e := WithText(HeaderOf(m), m.text, offset, |m.text|);
    var p := CountFits(m, e, 0, docs, fits);
    assert WithAttachments(e, m.attachments, 0, 0) == e;
    assert p(0);
    Bisect.LargestIsAnEdge(0, |m.attachments|, p);
  }

  lemma CountedFits(m: Match, e: Entry, offset: nat, docs: seq<Entry>, fits: Sizer)
    requires offset <= |m.attachments|
    requires Bisect.Largest(0, |m.attachments| - offset, CountFits(m, e, offset, docs, fits)) >= 0
    ensures var n := Bisect.Largest(0, |m.attachments| - offset, CountFits(m, e, offset, docs, fits));
            fits(docs + [WithAttachments(e, m.attachments, offset, n)], MAX_CURSOR)
  {
    var p := CountFits(m, e, offset, docs, fits);
    Bisect.LargestIsAnEdge(0, |m.attachments| - offset, p);
    assert p(Bisect.Largest(0, |m.attachments| - offset, p));
  }

  /**
   * A page that was built is within bounds beside any cursor up to the maximum length: the paragraph cut is only taken
   * when text is left over, so the page it shortens already was a page that continues.
   */
  lemma {:induction false} BuiltPageFits(ms: seq<Match>, p: Position, docs: seq<Entry>, fits: Sizer)
    requires TextsValid(ms) && (p.index < |ms| ==> PositionOk(ms, p)) && ShorterTextFits(fits)
    requires docs == [] || fits(docs, MAX_CURSOR)
    requires var r := Build(ms, p, docs, fits); r.Page? && r.documents != []
    ensures fits(Build(ms, p, docs, fits).documents, MAX_CURSOR)
    decreases |ms| - p.index, 1
  {
    if p.index < |ms| {
      var m := ms[p.index];
      if p.phase == InText && p.offset < |m.text| {
        var end := TextStop(m, p.offset, docs, fits);
        if end > p.offset {
          TextStopFits(m, p.offset, docs, fits);
          if end == |m.text| {
            ProgressNeedsNoFallback(m, p.offset, docs, fits);
            AttachedPageFits(ms, p.index, WithText(HeaderOf(m), m.text, p.offset, end), 0, docs, true, fits);
          }
        }
      } else {
        AttachedPageFits(ms, p.index, HeaderOf(m), if p.phase == InText then 0 else p.offset, docs, false, fits);
      }
    }
  }

  lemma {:induction false} AttachedPageFits(ms: seq<Match>, index: nat, e: Entry, offset: nat, docs: seq<Entry>,
                                            progressed: bool, fits: Sizer)
    requires TextsValid(ms) && index < |ms| && offset <= |ms[index].attachments| && ShorterTextFits(fits)
    requires docs == [] || fits(docs, MAX_CURSOR)
    requires progressed ==>
               Bisect.Largest(0, |ms[index].attachments| - offset, CountFits(ms[index], e, offset, docs, fits)) >= 0
    requires var r := Attach(ms, index, e, offset, docs, progressed, fits); r.Page? && r.documents != []
    ensures fits(Attach(ms, index, e, offset, docs, progressed, fits).documents, MAX_CURSOR)
    decreases |ms| - index, 0
  {
    var m := ms[index];
    if Bisect.Largest(0, |m.attachments| - offset, CountFits(m, e, offset, docs, fits)) >= 0 {
      CountedFits(m, e, offset, docs, fits);
    }
    var placed := Place(m, index, e, offset, docs, progressed, fits);
    if placed.Whole? {
      NextMatch(ms, index);
      BuiltPageFits(ms, Position(index + 1, InText, 0), placed.documents, fits);
    }
  }

  /** The page that is sent carries the cursor it really issues, or none, and is within bounds beside that. */
  lemma FetchedPageFits(ms: seq<Match>, p: Position, fits: Sizer, cursor: nat)
    requires TextsValid(ms) && PositionOk(ms, p) && ShorterTextFits(fits) && ShorterCursorFits(fits)
    requires cursor <= MAX_CURSOR
    requires var r := Build(ms, p, [], fits); r.Page? && r.documents != []
    ensures fits(Build(ms, p, [], fits).documents, cursor)
  {
    BuiltPageFits(ms, p, [], fits);
  }
}
