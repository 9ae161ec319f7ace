/**
 * Whether a reader who follows document cursors gets to the end: the positions a page cannot be built at, and what the
 * finished page costs once the cursor it issues is known.
 */
module DocumentReading {
  import opened Wrappers
  import opened Seqs
  import opened Utf8
  import opened DocumentPages
  import opened DocumentDelivery
  import opened DocumentSizing
  import Bisect
  import ResponseBudget

  // ---- where reading stops short ----

  /** So little text is left that no probe of the size search lies past its first character before the last does. */
  predicate ShortOfText(text: Text, offset: nat) {
    offset < |text| && |text| - offset < 2 * Width(text[offset]) - 1
  }

  predicate Stranded(ms: seq<Match>, p: Position)
    requires PositionOk(ms, p)
  {
    p.phase == InText && ShortOfText(ms[p.index].text, p.offset)
  }

  /** A page has room for one match's identity beside up to seven bytes of its text, or up to one of its attachments. */
  ghost predicate RoomForOne(ms: seq<Match>, fits: Sizer) {
    && (forall i, o: nat, e: nat ::
          0 <= i < |ms| && o < e <= |ms[i].text| && e <= o + 7 && Boundary(ms[i].text, o) && Boundary(ms[i].text, e) ==>
            fits([WithText(HeaderOf(ms[i]), ms[i].text, o, e)], MAX_CURSOR))
    && (forall i, o: nat, n: nat ::
          0 <= i < |ms| && o + n <= |ms[i].attachments| && n <= 1 ==>
            fits([WithAttachments(HeaderOf(ms[i]), ms[i].attachments, o, n)], MAX_CURSOR))
  }

  /** A short remainder is refused by every sizer, even one that would accept anything. */
  lemma ShortRemainderIsAlwaysRefused(m: Match, offset: nat, docs: seq<Entry>, fits: Sizer)
    requires Valid(m.text) && Boundary(m.text, offset) && ShortOfText(m.text, offset)
    ensures TextStop(m, offset, docs, fits) == offset
  {
    CharEndsAtBoundary(m.text, offset);
    var low, high, p := offset + 1, |m.text|, EndFits(m, offset, docs, fits);
    forall end | low <= end <= Bisect.Middle(low, high) ensures !p(end) {
      CutPastFirst(m.text, offset, end);
    }
    Bisect.NothingUpToTheMiddle(low, high, p);
  }

  /** Any longer remainder is placed, at least in part, wherever a page has room for seven bytes of it. */
  lemma LongRemainderIsPlaced(m: Match, offset: nat, fits: Sizer)
    requires Valid(m.text) && Boundary(m.text, offset) && offset < |m.text| && !ShortOfText(m.text, offset)
    requires forall e: nat :: offset < e <= |m.text| && e <= offset + 7 && Boundary(m.text, e) ==>
               fits([WithText(HeaderOf(m), m.text, offset, e)], MAX_CURSOR)
    ensures TextStop(m, offset, [], fits) > offset
  {
    CharEndsAtBoundary(m.text, offset);
    var w := Width(m.text[offset]);
    var p := EndFits(m, offset, [], fits);
    forall end | offset + w <= end <= offset + 2 * w - 1 ensures p(end) {
      SevenBytesFit(m, offset, fits, end);
    }
    Bisect.WideWindowIsFound(offset + 1, |m.text|, offset + w, offset + 2 * w - 1, p);
    ChosenIsForward(m, offset, [], fits);
  }

  lemma SevenBytesFit(m: Match, offset: nat, fits: Sizer, end: nat)
    requires Valid(m.text) && Boundary(m.text, offset) && offset < |m.text|
    requires forall e: nat :: offset < e <= |m.text| && e <= offset + 7 && Boundary(m.text, e) ==>
               fits([WithText(HeaderOf(m), m.text, offset, e)], MAX_CURSOR)
    requires offset + Width(m.text[offset]) <= end <= |m.text| && end <= offset + 7
    ensures EndFits(m, offset, [], fits)(end)
  {
    CharEndsAtBoundary(m.text, offset);
    CutPastFirst(m.text, offset, end);
    var e := WithText(HeaderOf(m), m.text, offset, CutAt(m.text, end));
    assert [] + [e] == [e];
  }

  /** Attachments that can go one at a time never stop a page. */
  lemma AttachmentsArePlaced(ms: seq<Match>, index: nat, offset: nat, fits: Sizer)
    requires index < |ms| && offset <= |ms[index].attachments| && RoomForOne(ms, fits)
    ensures !Place(ms[index], index, HeaderOf(ms[index]), offset, [], false, fits).Refused?
  {
    var m := ms[index];
    var remaining := |m.attachments| - offset;
    var p := CountFits(m, HeaderOf(m), offset, [], fits);
    forall n: nat | n <= 1 && n <= remaining ensures p(n) {
      var e := WithAttachments(HeaderOf(m), m.attachments, offset, n);
      assert [] + [e] == [e];
    }
    Bisect.LargestIsAnEdge(0, remaining, p);
  }

  /** A page that carries anything stops there rather than fail. */
  lemma {:induction false} StartedIsNeverRefused(ms: seq<Match>, p: Position, docs: seq<Entry>, fits: Sizer)
    requires TextsValid(ms) && (p.index < |ms| ==> PositionOk(ms, p)) && docs != []
    ensures Build(ms, p, docs, fits).Page?
    decreases |ms| - p.index
  {
    if p.index < |ms| {
      var m := ms[p.index];
      if p.phase == InText && p.offset < |m.text| {
        var end := TextStop(m, p.offset, docs, fits);
        if end == |m.text| {
          PlacedIsNeverRefused(ms, p.index, WithText(HeaderOf(m), m.text, p.offset, end), 0, docs, true, fits);
        }
      } else {
        PlacedIsNeverRefused(ms, p.index, HeaderOf(m), if p.phase == InText then 0 else p.offset, docs, false, fits);
      }
    }
  }

  lemma {:induction false} PlacedIsNeverRefused(ms: seq<Match>, index: nat, e: Entry, offset: nat, docs: seq<Entry>,
                                                progressed: bool, fits: Sizer)
    requires TextsValid(ms) && index < |ms| && offset <= |ms[index].attachments|
    requires !Place(ms[index], index, e, offset, docs, progressed, fits).Refused?
    ensures Attach(ms, index, e, offset, docs, progressed, fits).Page?
    decreases |ms| - index, 0
  {
    var placed := Place(ms[index], index, e, offset, docs, progressed, fits);
    if placed.Whole? {
      NextMatch(ms, index);
      StartedIsNeverRefused(ms, Position(index + 1, InText, 0), placed.documents, fits);
    }
  }

  /**
   * Exactly when a page fails, for every sizer under which more attachments never take less room: when the text search
   * comes back empty or, where text is not what is left, when the first attachment does not fit beside the match's
   * identity, or the identity by itself when no attachment is left.
   */
  lemma RefusedExactly(ms: seq<Match>, p: Position, fits: Sizer)
    requires TextsValid(ms) && PositionOk(ms, p)
    requires var m, q := ms[p.index], Norm(ms, p);
             q.phase == InAttachments ==>
               Bisect.Monotone(0, |m.attachments| - q.offset, CountFits(m, HeaderOf(m), q.offset, [], fits))
    ensures var m, q := ms[p.index], Norm(ms, p);
            Build(ms, p, [], fits).TooLarge? <==>
              if q.phase == InText then TextStop(m, q.offset, [], fits) == q.offset
              else
                var first := if q.offset < |m.attachments| then 1 else 0;
                !fits([WithAttachments(HeaderOf(m), m.attachments, q.offset, first)], MAX_CURSOR)
  {
    hide Build, Bisect.Monotone;
    if Norm(ms, p).phase == InText {
      TextIsRefusedExactly(ms, p, fits);
    } else {
      AttachmentsAreRefusedExactly(ms, p, fits);
    }
  }

  lemma TextIsRefusedExactly(ms: seq<Match>, p: Position, fits: Sizer)
    requires TextsValid(ms) && PositionOk(ms, p) && p.phase == InText && p.offset < |ms[p.index].text|
    ensures Build(ms, p, [], fits).TooLarge? <==> TextStop(ms[p.index], p.offset, [], fits) == p.offset
  {
    hide TextStop, Place, Attach;
    var m := ms[p.index];
    var end := TextStop(m, p.offset, [], fits);
    if end == |m.text| {
      PlacedIsNeverRefused(ms, p.index, WithText(HeaderOf(m), m.text, p.offset, end), 0, [], true, fits) by {
        ProgressIsNeverRefused(m, p.index, WithText(HeaderOf(m), m.text, p.offset, end), fits);
      }
    }
  }

  lemma ProgressIsNeverRefused(m: Match, index: nat, e: Entry, fits: Sizer)
    ensures !Place(m, index, e, 0, [], true, fits).Refused?
  {
  }

  lemma AttachmentsAreRefusedExactly(ms: seq<Match>, p: Position, fits: Sizer)
    requires TextsValid(ms) && PositionOk(ms, p) && Norm(ms, p).phase == InAttachments
    requires var m, q := ms[p.index], Norm(ms, p);
             Bisect.Monotone(0, |m.attachments| - q.offset, CountFits(m, HeaderOf(m), q.offset, [], fits))
    ensures var m, q := ms[p.index], Norm(ms, p);
            var first := if q.offset < |m.attachments| then 1 else 0;
            Build(ms, p, [], fits).TooLarge? <==>
              !fits([WithAttachments(HeaderOf(m), m.attachments, q.offset, first)], MAX_CURSOR)
  {
    var m, q := ms[p.index], Norm(ms, p);
    hide Bisect.Monotone;
    FirstAttachmentDecides(m, p.index, q.offset, fits);
    if !Place(m, p.index, HeaderOf(m), q.offset, [], false, fits).Refused? {
      PlacedIsNeverRefused(ms, p.index, HeaderOf(m), q.offset, [], false, fits);
    }
  }

  lemma FirstAttachmentDecides(m: Match, index: nat, offset: nat, fits: Sizer)
    requires offset <= |m.attachments|
    requires Bisect.Monotone(0, |m.attachments| - offset, CountFits(m, HeaderOf(m), offset, [], fits))
    ensures var first := if offset < |m.attachments| then 1 else 0;
            Place(m, index, HeaderOf(m), offset, [], false, fits).Refused? <==>
              !fits([WithAttachments(HeaderOf(m), m.attachments, offset, first)], MAX_CURSOR)
  {
    var remaining := |m.attachments| - offset;
    var count := CountFits(m, HeaderOf(m), offset, [], fits);
    var first := if offset < |m.attachments| then 1 else 0;
    var e := WithAttachments(HeaderOf(m), m.attachments, offset, first);
    assert [] + [e] == [e];
    Bisect.LargestIsMaximum(0, remaining, count);
    hide Bisect.Monotone;
    assert count(first) <==> fits([e], MAX_CURSOR);
  }

  /**
   * Exactly when a page that has room for one entry can be built: everywhere but at a short remainder. The source says
   * that only a match's identity outgrowing a page fails; a stranded position is the exception.
   */
  lemma PageIsBuiltExactly(ms: seq<Match>, p: Position, fits: Sizer)
    requires TextsValid(ms) && PositionOk(ms, p) && RoomForOne(ms, fits)
    ensures Build(ms, p, [], fits).Page? <==> !Stranded(ms, p)
  {
    var m := ms[p.index];
    if Stranded(ms, p) {
      ShortRemainderIsAlwaysRefused(m, p.offset, [], fits);
    } else if p.phase == InText && p.offset < |m.text| {
      LongRemainderIsPlaced(m, p.offset, fits);
      var end := TextStop(m, p.offset, [], fits);
      if end == |m.text| {
        PlacedIsNeverRefused(ms, p.index, WithText(HeaderOf(m), m.text, p.offset, end), 0, [], true, fits);
      }
    } else {
      var offset := if p.phase == InText then 0 else p.offset;
      AttachmentsArePlaced(ms, p.index, offset, fits);
      PlacedIsNeverRefused(ms, p.index, HeaderOf(m), offset, [], false, fits);
    }
  }

  // ---- a whole reading ----

  /** The pages a reader gets who presents each cursor in turn, until the last page or the first error. */
  function Follow(ms: seq<Match>, p: Position, fits: Sizer): seq<Visit>
    requires TextsValid(ms) && PositionOk(ms, p)
    decreases Remaining(ms, Norm(ms, p))
  {
    var r := Build(ms, p, [], fits);
    if r.TooLarge? then []
    else
      var v := Visit(p, r.documents, r.next);
      PageIsLegal(ms, p, fits);
      if r.next.None? then [v]
      else
        VisitAdvances(ms, v);
        RemainingIsNatural(ms, r.next.value);
        [v] + Follow(ms, r.next.value, fits)
  }

  /** No position a reading issues is stranded. */
  ghost predicate NeverStranded(ms: seq<Match>, visits: seq<Visit>) {
    forall i :: 0 <= i < |visits| && visits[i].next.Some? ==>
      PositionOk(ms, visits[i].next.value) && !Stranded(ms, visits[i].next.value)
  }

  lemma {:induction false} FollowIsChain(ms: seq<Match>, p: Position, fits: Sizer)
    requires TextsValid(ms) && PositionOk(ms, p) && Follow(ms, p, fits) != []
    ensures Chain(ms, p, Follow(ms, p, fits))
    decreases Remaining(ms, Norm(ms, p))
  {
    var r := Build(ms, p, [], fits);
    PageIsLegal(ms, p, fits);
    if r.next.Some? {
      VisitAdvances(ms, Visit(p, r.documents, r.next));
      RemainingIsNatural(ms, r.next.value);
      if Follow(ms, r.next.value, fits) != [] {
        FollowIsChain(ms, r.next.value, fits);
      }
    }
  }

  /** Exactly when a reading comes to its last page: when neither its start nor any position it issues is stranded. */
  lemma {:induction false} ReadingEndsExactly(ms: seq<Match>, p: Position, fits: Sizer)
    requires TextsValid(ms) && PositionOk(ms, p) && RoomForOne(ms, fits)
    ensures Completed(Follow(ms, p, fits)) <==> !Stranded(ms, p) && NeverStranded(ms, Follow(ms, p, fits))
    decreases Remaining(ms, Norm(ms, p))
  {
    hide Build, RoomForOne, Stranded, TextsValid, LegalVisit, PositionOk;
    PageIsBuiltExactly(ms, p, fits);
    var r := Build(ms, p, [], fits);
    if r.Page? && r.next.Some? {
      PageIsLegal(ms, p, fits);
      var v := Visit(p, r.documents, r.next);
      VisitAdvances(ms, v);
      RemainingIsNatural(ms, r.next.value);
      ReadingEndsExactly(ms, r.next.value, fits);
      PageIsBuiltExactly(ms, r.next.value, fits);
      var rest := Follow(ms, r.next.value, fits);
      assert Follow(ms, p, fits) == [v] + rest;
      forall i | 0 <= i < |rest| ensures ([v] + rest)[i + 1] == rest[i] {
      }
    }
  }

  /** No remainder of the text is short. */
  ghost predicate NoShortTail(text: Text) {
    forall o: nat :: Boundary(text, o) ==> !ShortOfText(text, o)
  }

  /** A text that ends in three one-byte characters, as any with a longer closing line of plain letters does. */
  lemma PlainTailIsEnough(text: Text)
    requires Valid(text) && |text| >= 3 && forall k :: |text| - 3 <= k < |text| ==> text[k] < 0x80
    ensures NoShortTail(text)
  {
    forall o: nat | Boundary(text, o) && o < |text| ensures |text| - o >= 2 * Width(text[o]) - 1 {
      CharEndsAtBoundary(text, o);
      var last := o + Width(text[o]) - 1;
      assert last > o ==> !RuneStart(text[last]);
    }
  }

  /**
   * Whatever the sizes of its pages, a reader of texts without short tails gets every text and every attachment, in
   * order and once, in at most as many pages as there are stretches to carry.
   */
  lemma ReadingDeliversAll(ms: seq<Match>, fits: Sizer) returns (visits: seq<Visit>, groups: seq<seq<Entry>>)
    requires TextsValid(ms) && |ms| > 0 && RoomForOne(ms, fits)
    requires forall i :: 0 <= i < |ms| ==> NoShortTail(ms[i].text)
    ensures PositionOk(ms, Position(0, InText, 0)) && visits == Follow(ms, Position(0, InText, 0), fits)
    ensures Completed(visits) && |visits| <= Left(ms, 0)
    ensures Flatten(groups) == Entries(visits) && |groups| == |ms|
    ensures forall i :: 0 <= i < |ms| ==>
              JoinText(groups[i]) == ms[i].text && JoinAttachments(groups[i]) == ms[i].attachments && TextFirst(groups[i])
  {
    var start := Position(0, InText, 0);
    StartIsBoundary(ms[0].text);
    visits := Follow(ms, start, fits);
    NothingStrands(ms, start, fits);
    ReadingEndsExactly(ms, start, fits);
    FollowIsChain(ms, start, fits);
    groups := CompleteChainDeliversAll(ms, visits);
  }

  lemma {:induction false} NothingStrands(ms: seq<Match>, p: Position, fits: Sizer)
    requires TextsValid(ms) && PositionOk(ms, p)
    requires forall i :: 0 <= i < |ms| ==> NoShortTail(ms[i].text)
    ensures !Stranded(ms, p) && NeverStranded(ms, Follow(ms, p, fits))
    decreases Remaining(ms, Norm(ms, p))
  {
    assert NoShortTail(ms[p.index].text);
    var r := Build(ms, p, [], fits);
    PageIsLegal(ms, p, fits);
    if r.Page? && r.next.Some? {
      VisitAdvances(ms, Visit(p, r.documents, r.next));
      RemainingIsNatural(ms, r.next.value);
      NothingStrands(ms, r.next.value, fits);
    }
  }

  // ---- the sizes the server measures ----

  /**
   * What a page costs apart from its two budget figures: what it holds beside its texts and the cursor, the notice of
   * a text that continues, and the texts.
   */
  datatype Encoding = Encoding(
    fixed: (seq<Entry>, nat) -> nat, fixedLines: (seq<Entry>, nat) -> nat, notice: nat, cost: Text -> nat, lines: Text -> nat)

  function Bare(docs: seq<Entry>): seq<Entry> {
    seq(|docs|, i requires 0 <= i < |docs| => docs[i].(text := [], range := None, textComplete := true))
  }

  function TextCost(enc: Encoding, e: Entry): nat {
    match e.range
    case None => 0
    case Some(r) =>
      enc.cost(e.text) + 2 * ResponseBudget.Digits(r.start) + 2 * ResponseBudget.Digits(r.end) +
      (if e.textComplete then 4 else 5 + enc.notice)
  }

  function TextLines(enc: Encoding, e: Entry): nat {
    if e.range.None? then 0 else enc.lines(e.text) + (if e.textComplete then 0 else 1)
  }

  function TextCosts(enc: Encoding, docs: seq<Entry>): nat {
    if docs == [] then 0 else TextCosts(enc, docs[..|docs| - 1]) + TextCost(enc, docs[|docs| - 1])
  }

  function TextsLines(enc: Encoding, docs: seq<Entry>): nat {
    if docs == [] then 0 else TextsLines(enc, docs[..|docs| - 1]) + TextLines(enc, docs[|docs| - 1])
  }

  function Measured(enc: Encoding): Sizer {
    (docs: seq<Entry>, cursor: nat) =>
      ResponseBudget.Fits(enc.fixed(Bare(docs), cursor) + TextCosts(enc, docs),
                          enc.fixedLines(Bare(docs), cursor) + TextsLines(enc, docs))
  }

  /** Encoding a longer text never takes fewer bytes or lines, nor does encoding a longer cursor. */
  ghost predicate CostGrows(enc: Encoding) {
    && (forall a: Text, b: Text :: Valid(a) && Valid(b) && a <= b ==>
          enc.cost(a) <= enc.cost(b) && enc.lines(a) <= enc.lines(b))
    && (forall docs, a, b :: a <= b ==>
          enc.fixed(docs, a) <= enc.fixed(docs, b) && enc.fixedLines(docs, a) <= enc.fixedLines(docs, b))
  }

  lemma ShorterSliceCostsLess(enc: Encoding, m: Match, docs: seq<Entry>, offset: nat, a: nat, b: nat)
    requires CostGrows(enc) && Slice(m.text, offset, a) && Slice(m.text, offset, b) && a <= b
    requires Measured(enc)(docs + [WithText(HeaderOf(m), m.text, offset, b)], MAX_CURSOR)
    ensures Measured(enc)(docs + [WithText(HeaderOf(m), m.text, offset, a)], MAX_CURSOR)
  {
    var ea, eb := WithText(HeaderOf(m), m.text, offset, a), WithText(HeaderOf(m), m.text, offset, b);
    SliceIsText(m.text, offset, a);
    SliceIsText(m.text, offset, b);
    assert m.text[offset..a] <= m.text[offset..b];
    ResponseBudget.DigitsGrow(a, b);
    assert Bare(docs + [ea]) == Bare(docs + [eb]);
    assert (docs + [ea])[..|docs|] == docs && (docs + [eb])[..|docs|] == docs;
  }

  lemma ShorterCursorCostsLess(enc: Encoding, docs: seq<Entry>, a: nat, b: nat)
    requires CostGrows(enc) && a <= b && Measured(enc)(docs, b)
    ensures Measured(enc)(docs, a)
  {
    assert enc.fixed(Bare(docs), a) <= enc.fixed(Bare(docs), b);
  }

  lemma MeasuredIsMonotone(enc: Encoding)
    requires CostGrows(enc)
    ensures ShorterTextFits(Measured(enc)) && ShorterCursorFits(Measured(enc))
  {
    hide CostGrows;
    var fits := Measured(enc);
    forall m: Match, docs, offset: nat, a: nat, b: nat |
      Slice(m.text, offset, a) && Slice(m.text, offset, b) && a <= b &&
      fits(docs + [WithText(HeaderOf(m), m.text, offset, b)], MAX_CURSOR)
      ensures fits(docs + [WithText(HeaderOf(m), m.text, offset, a)], MAX_CURSOR)
    {
      ShorterSliceCostsLess(enc, m, docs, offset, a, b);
    }
    forall docs, a: nat, b: nat | a <= b && fits(docs, b) ensures fits(docs, a) {
      ShorterCursorCostsLess(enc, docs, a, b);
    }
  }

  /** What a fetch returns is within the response bounds beside whatever cursor it issues. */
  lemma BuiltPageIsReturned(ms: seq<Match>, p: Position, enc: Encoding, cursor: nat)
    requires TextsValid(ms) && PositionOk(ms, p) && CostGrows(enc) && cursor <= MAX_CURSOR
    requires Build(ms, p, [], Measured(enc)).Page?
    ensures Measured(enc)(Build(ms, p, [], Measured(enc)).documents, cursor)
  {
    MeasuredIsMonotone(enc);
    var added, stop := BuildCarries(ms, p, [], Measured(enc));
    FetchedPageFits(ms, p, Measured(enc), cursor);
  }
}
