/**
 * What a caller who follows continuation cursors to the end has received: every index packet once in rank order, then
 * every admitted text as contiguous ranges that join to exactly that text.
 */
module EvidenceDelivery {
  import opened Wrappers
  import opened Seqs
  import opened Utf8
  import opened EvidencePages
  import ResponseBudget

  /** One page as a caller sees it: where it was read, what it held, and where it says to go on. */
  datatype Visit = Visit(at: Position, built: Built)

  /** Everything a page at this position may be, whatever its size limit decided. */
  ghost predicate LegalVisit(ev: Evidence, v: Visit) {
    && PositionOk(ev, v.at)
    && match v.at
       case AtIndex(i) =>
         && v.built.page.segments == []
         && (exists k :: i <= k <= |ev.index| && (i < k || k == |ev.index|) &&
                         v.built.page.packets == ev.index[i..k] && v.built.next == NextAfterIndex(ev, k))
       case AtText(j, o) =>
         && v.built.page.packets == []
         && (exists e :: o < e <= |ev.items[j].text| && Boundary(ev.items[j].text, e) &&
                         v.built.page.segments == [SegmentOf(ev.items[j], o, e)] &&
                         v.built.next == NextAfterText(ev, j, e))
  }

  lemma PageIsLegal(ev: Evidence, at: Position, search: bool, fits: Sizer)
    requires Deliverable(ev) && PositionOk(ev, at)
    ensures var r := PageAt(ev, at, search, fits); r.Ok? ==>
              && LegalVisit(ev, Visit(at, r.value)) && (r.value.page.complete <==> r.value.next.None?)
              && r.value.page.kind == if at.AtText? then TextPage else if search then SearchPage else IndexPage
  {
    match at
    case AtIndex(i) =>
    case AtText(j, o) =>
      if ChosenSize(ev, j, o, fits) >= 1 {
        ParagraphEndIsBoundary(ev.items[j].text, o, ChosenEnd(ev, j, o, fits));
        assert Boundary(ev.items[j].text, CutEnd(ev, j, o, fits));
      }
  }

  /** A position never fails its own checks: the only error a live cursor can meet is size. */
  lemma OnlySizeFails(ev: Evidence, at: Position, search: bool, fits: Sizer)
    requires Deliverable(ev) && PositionOk(ev, at)
    ensures var r := PageAt(ev, at, search, fits); r.Err? ==> r.error == TooLarge
  {
  }

  /** Every page moves strictly forward, to a position that can be read. */
  lemma VisitAdvances(ev: Evidence, v: Visit)
    requires Deliverable(ev) && LegalVisit(ev, v) && v.built.next.Some?
    ensures PositionOk(ev, v.built.next.value)
    ensures Before(v.at, v.built.next.value)
    ensures Remaining(ev, v.built.next.value) < Remaining(ev, v.at)
  {
    match v.at
    case AtIndex(i) =>
      var k :| i <= k <= |ev.index| && (i < k || k == |ev.index|) && v.built.next == NextAfterIndex(ev, k);
      if v.built.next.value.AtText? {
        StartIsBoundary(ev.items[0].text);
      }
    case AtText(j, o) =>
      if v.built.next.value.item == j + 1 {
        StartIsBoundary(ev.items[j + 1].text);
      }
  }

  /** The bytes of the items from j on. */
  function TextFrom(ev: Evidence, j: nat): nat
    requires j <= |ev.items|
    decreases |ev.items| - j
  {
    if j == |ev.items| then 0 else |ev.items[j].text| + TextFrom(ev, j + 1)
  }

  /** An upper bound on the pages still to come. */
  function Remaining(ev: Evidence, p: Position): nat
    requires PositionOk(ev, p)
  {
    match p
    case AtIndex(i) => |ev.index| - i + 1 + TextFrom(ev, 0)
    case AtText(j, o) => TextFrom(ev, j) - o
  }

  /** A chain of cursors: each page is read where the one before said to go on. */
  ghost predicate Chain(ev: Evidence, from: Position, visits: seq<Visit>)
    decreases |visits|
  {
    && |visits| > 0
    && visits[0].at == from
    && LegalVisit(ev, visits[0])
    && (|visits| > 1 ==>
          visits[0].built.next.Some? && Chain(ev, visits[0].built.next.value, visits[1..]))
  }

  predicate Completed(visits: seq<Visit>) { |visits| > 0 && visits[|visits| - 1].built.next.None? }

  /** A legal page in front of a completed chain that goes on where it stops. */
  lemma ChainFrom(ev: Evidence, first: Visit, rest: seq<Visit>) returns (visits: seq<Visit>)
    requires LegalVisit(ev, first) && first.built.next.Some?
    requires Chain(ev, first.built.next.value, rest) && Completed(rest)
    ensures visits == [first] + rest && Chain(ev, first.at, visits) && Completed(visits)
    ensures |visits| > 0 && visits[0] == first && visits[1..] == rest
  {
    hide LegalVisit;
    visits := [first] + rest;
    assert visits[1..] == rest;
  }

  lemma {:induction false} ChainIsBounded(ev: Evidence, from: Position, visits: seq<Visit>)
    requires Deliverable(ev) && PositionOk(ev, from) && Chain(ev, from, visits)
    ensures |visits| <= Remaining(ev, from)
    decreases |visits|
  {
    if from.AtText? {
      TextLeft(ev, from.item);
    }
    if |visits| > 1 {
      VisitAdvances(ev, visits[0]);
      ChainIsBounded(ev, visits[0].built.next.value, visits[1..]);
    }
  }

  lemma TextLeft(ev: Evidence, j: nat)
    requires j < |ev.items|
    ensures TextFrom(ev, j) >= |ev.items[j].text|
  {
  }

  function Packets(visits: seq<Visit>): seq<IndexPacket> {
    if visits == [] then [] else visits[0].built.page.packets + Packets(visits[1..])
  }

  function Segments(visits: seq<Visit>): seq<Segment> {
    if visits == [] then [] else visits[0].built.page.segments + Segments(visits[1..])
  }

  /** The segment is the item's text from o on, and says whose it is, which bytes it holds and whether it ends there. */
  predicate Quotes(item: Item, s: Segment, o: nat)
    requires o <= s.end <= |item.text|
  {
    && s.reference == item.reference && s.relation == item.relation && s.document == item.document
    && s.start == o && s.text == item.text[o..s.end]
    && (s.textComplete <==> s.end == |item.text|)
  }

  /** Segments that carry one item from offset o to its end, each starting where the one before stopped. */
  predicate Tiles(item: Item, segments: seq<Segment>, o: nat)
    requires o <= |item.text|
  {
    if o == |item.text| then segments == []
    else
      && segments != []
      && o < segments[0].end <= |item.text|
      && Boundary(item.text, segments[0].end)
      && Quotes(item, segments[0], o)
      && Tiles(item, segments[1..], segments[0].end)
  }

  function Join(segments: seq<Segment>): Text {
    if segments == [] then [] else segments[0].text + Join(segments[1..])
  }

  /** Tiles join to exactly the text they tile. */
  lemma {:induction false} TilesJoin(item: Item, segments: seq<Segment>, o: nat)
    requires o <= |item.text| && Tiles(item, segments, o)
    ensures Join(segments) == item.text[o..]
  {
    if o < |item.text| {
      var e := segments[0].end;
      TilesJoin(item, segments[1..], e);
      assert item.text[o..] == item.text[o..e] + item.text[e..];
    }
  }

  /** One group of segments per item from j on, the first starting at offset o. */
  ghost predicate Delivers(ev: Evidence, segments: seq<Segment>, groups: seq<seq<Segment>>, j: nat, o: nat) {
    && j + |groups| == |ev.items|
    && Flatten(groups) == segments
    && (forall g :: 0 <= g < |groups| ==>
          var start := if g == 0 then o else 0;
          start <= |ev.items[j + g].text| && Tiles(ev.items[j + g], groups[g], start))
  }

  /** A segment in front of tiles that start where it stops. */
  lemma TileInFront(item: Item, o: nat, e: nat, rest: seq<Segment>)
    requires o < e <= |item.text| && Boundary(item.text, e) && Tiles(item, rest, e)
    ensures Tiles(item, [SegmentOf(item, o, e)] + rest, o)
  {
    assert ([SegmentOf(item, o, e)] + rest)[1..] == rest;
  }

  /** The slice continues the item that the rest goes on with. */
  lemma SameItem(ev: Evidence, j: nat, o: nat, e: nat, segments: seq<Segment>, rest: seq<seq<Segment>>)
    returns (groups: seq<seq<Segment>>)
    requires j < |ev.items| && o < e < |ev.items[j].text| && Boundary(ev.items[j].text, e)
    requires Delivers(ev, segments, rest, j, e)
    ensures Delivers(ev, [SegmentOf(ev.items[j], o, e)] + segments, groups, j, o)
  {
    var first := SegmentOf(ev.items[j], o, e);
    assert Tiles(ev.items[j + 0], rest[0], e);
    TileInFront(ev.items[j], o, e, rest[0]);
    groups := [[first] + rest[0]] + rest[1..];
    assert groups[1..] == rest[1..];
    assert Flatten(groups) == [first] + Flatten(rest);
    forall g | 0 < g < |groups| ensures Tiles(ev.items[j + g], groups[g], 0) {
      assert groups[g] == rest[g];
    }
  }

  /** The slice ends its item, and the rest starts with the next one. */
  lemma LastOfItem(ev: Evidence, j: nat, o: nat, segments: seq<Segment>, rest: seq<seq<Segment>>)
    returns (groups: seq<seq<Segment>>)
    requires j < |ev.items| && o < |ev.items[j].text|
    requires Delivers(ev, segments, rest, j + 1, 0)
    ensures Delivers(ev, [SegmentOf(ev.items[j], o, |ev.items[j].text|)] + segments, groups, j, o)
  {
    var item := ev.items[j];
    var first := SegmentOf(item, o, |item.text|);
    TileInFront(item, o, |item.text|, []);
    assert [first] + [] == [first];
    groups := [[first]] + rest;
    assert groups[1..] == rest;
    forall g | 0 < g < |groups| ensures Tiles(ev.items[j + g], groups[g], 0) {
      assert groups[g] == rest[g - 1];
      assert Tiles(ev.items[j + 1 + (g - 1)], rest[g - 1], 0);
    }
  }

  lemma {:induction false} TextChainDelivers(ev: Evidence, j: nat, o: nat, visits: seq<Visit>)
    returns (groups: seq<seq<Segment>>)
    requires Deliverable(ev) && PositionOk(ev, AtText(j, o))
    requires Chain(ev, AtText(j, o), visits) && Completed(visits)
    ensures Packets(visits) == []
    ensures Delivers(ev, Segments(visits), groups, j, o)
    decreases |visits|
  {
    var e :| o < e <= |ev.items[j].text| && Boundary(ev.items[j].text, e) &&
      visits[0].built.page.segments == [SegmentOf(ev.items[j], o, e)] &&
      visits[0].built.next == NextAfterText(ev, j, e);
    if |visits| == 1 {
      assert visits[1..] == [];
      groups := LastOfItem(ev, j, o, [], []);
    } else {
      VisitAdvances(ev, visits[0]);
      var next := visits[0].built.next.value;
      assert Completed(visits[1..]);
      var rest := TextChainDelivers(ev, next.item, next.offset, visits[1..]);
      if e < |ev.items[j].text| {
        groups := SameItem(ev, j, o, e, Segments(visits[1..]), rest);
      } else {
        groups := LastOfItem(ev, j, o, Segments(visits[1..]), rest);
      }
    }
  }

  lemma {:induction false} IndexChainDelivers(ev: Evidence, i: nat, visits: seq<Visit>)
    returns (groups: seq<seq<Segment>>)
    requires Deliverable(ev) && i <= |ev.index|
    requires Chain(ev, AtIndex(i), visits) && Completed(visits)
    ensures Packets(visits) == ev.index[i..]
    ensures Delivers(ev, Segments(visits), groups, 0, 0)
    decreases |visits|
  {
    var k :| i <= k <= |ev.index| && (i < k || k == |ev.index|) &&
      visits[0].built.page.packets == ev.index[i..k] && visits[0].built.next == NextAfterIndex(ev, k);
    if |visits| == 1 {
      assert visits[1..] == [];
      assert ev.index[i..k] == ev.index[i..];
      groups := [];
    } else {
      VisitAdvances(ev, visits[0]);
      assert Completed(visits[1..]);
      assert ev.index[i..] == ev.index[i..k] + ev.index[k..];
      if k < |ev.index| {
        groups := IndexChainDelivers(ev, k, visits[1..]);
      } else {
        groups := TextChainDelivers(ev, 0, 0, visits[1..]);
      }
    }
  }

  /**
   * Following the cursors of a search to a complete page delivers every index packet once in rank order, and the text
   * of every item, in order, as contiguous character-aligned ranges that join to exactly that text. The chain cannot
   * be longer than the bound, so it ends.
   */
  lemma CompleteChainDeliversAll(ev: Evidence, visits: seq<Visit>) returns (groups: seq<seq<Segment>>)
    requires Deliverable(ev) && Chain(ev, AtIndex(0), visits) && Completed(visits)
    ensures Packets(visits) == ev.index
    ensures Flatten(groups) == Segments(visits) && |groups| == |ev.items|
    ensures forall j :: 0 <= j < |ev.items| ==>
              Tiles(ev.items[j], groups[j], 0) && Join(groups[j]) == ev.items[j].text
    ensures |visits| <= Remaining(ev, AtIndex(0))
  {
    groups := IndexChainDelivers(ev, 0, visits);
    ChainIsBounded(ev, AtIndex(0), visits);
    forall j | 0 <= j < |ev.items| ensures Tiles(ev.items[j], groups[j], 0) && Join(groups[j]) == ev.items[j].text {
      assert Tiles(ev.items[0 + j], groups[j], 0);
      TilesJoin(ev.items[j], groups[j], 0);
      assert ev.items[j].text[0..] == ev.items[j].text;
    }
  }

  // ---- a whole reading ----

  /** A page has room for one packet of the index, or for one character of a text. */
  ghost predicate RoomForOne(ev: Evidence, fits: Sizer) {
    && (forall kind, i: nat :: i < |ev.index| ==> PacketFits(ev, kind, i, fits))
    && (forall j, o: nat :: 0 <= j < |ev.items| && TextStart(ev.items[j].text, o) ==>
          fits(TextPageOf(ev, j, o, NextBoundary(ev.items[j].text, o))))
  }

  predicate PacketFits(ev: Evidence, kind: Kind, i: nat, fits: Sizer)
    requires i < |ev.index|
  {
    fits(IndexPageOf(ev, kind, i, i + 1))
  }

  /** Then no position that a cursor can name is refused. */
  lemma PageIsBuilt(ev: Evidence, at: Position, search: bool, fits: Sizer)
    requires Deliverable(ev) && PositionOk(ev, at) && RoomForOne(ev, fits)
    ensures PageAt(ev, at, search, fits).Ok?
  {
    match at
    case AtIndex(i) =>
      var kind := if search then SearchPage else IndexPage;
      IndexFailsOnlyOnOnePacket(ev, kind, i, fits);
      assert i < |ev.index| ==> PacketFits(ev, kind, i, fits);
    case AtText(j, o) => TextFailsOnlyOnOneCharacter(ev, j, o, fits);
  }

  /** The pages a reader gets who follows each cursor in turn, until the last page or the first error. */
  function Follow(ev: Evidence, at: Position, search: bool, fits: Sizer): seq<Visit>
    requires Deliverable(ev) && PositionOk(ev, at)
    decreases Remaining(ev, at)
  {
    var r := PageAt(ev, at, search, fits);
    if r.Err? then []
    else
      PageIsLegal(ev, at, search, fits);
      var v := Visit(at, r.value);
      if r.value.next.None? then [v]
      else
        VisitAdvances(ev, v);
        [v] + Follow(ev, r.value.next.value, false, fits)
  }

  lemma {:induction false} FollowIsChain(ev: Evidence, at: Position, search: bool, fits: Sizer)
    requires Deliverable(ev) && PositionOk(ev, at) && RoomForOne(ev, fits)
    ensures Chain(ev, at, Follow(ev, at, search, fits)) && Completed(Follow(ev, at, search, fits))
    decreases Remaining(ev, at)
  {
    hide PageAt, LegalVisit, RoomForOne, PositionOk, Deliverable;
    PageIsBuilt(ev, at, search, fits);
    PageIsLegal(ev, at, search, fits);
    var v := Visit(at, PageAt(ev, at, search, fits).value);
    if v.built.next.Some? {
      VisitAdvances(ev, v);
      FollowIsChain(ev, v.built.next.value, false, fits);
      var visits := ChainFrom(ev, v, Follow(ev, v.built.next.value, false, fits));
    }
  }

  /**
   * Whatever its page sizes, a reader whose pages have room for one packet or one character is never refused, comes to
   * the last page, and has then been given everything.
   */
  lemma ReadingDeliversAll(ev: Evidence, fits: Sizer) returns (visits: seq<Visit>, groups: seq<seq<Segment>>)
    requires Deliverable(ev) && RoomForOne(ev, fits)
    ensures visits == Follow(ev, AtIndex(0), true, fits) && Completed(visits) && |visits| <= Remaining(ev, AtIndex(0))
    ensures Packets(visits) == ev.index
    ensures Flatten(groups) == Segments(visits) && |groups| == |ev.items|
    ensures forall j :: 0 <= j < |ev.items| ==>
              Tiles(ev.items[j], groups[j], 0) && Join(groups[j]) == ev.items[j].text
  {
    visits := Follow(ev, AtIndex(0), true, fits);
    FollowIsChain(ev, AtIndex(0), true, fits);
    groups := CompleteChainDeliversAll(ev, visits);
  }

  /**
   * A search result, from its packets to its reader: following the cursors to a complete page delivers one description
   * of each packet in rank order and then, packet by packet, its own text and its neighbours' texts, each that is not
   * empty once and whole, in ranges that name it.
   */
  lemma SearchIsDelivered(packets: seq<Packet>, visits: seq<Visit>)
    returns (items: seq<seq<Item>>, places: seq<seq<nat>>, tiles: seq<seq<Segment>>)
    requires TextsValid(packets)
    requires Chain(EvidenceOf(packets), AtIndex(0), visits) && Completed(visits)
    ensures |items| == |places| == |packets| == |Packets(visits)|
    ensures forall k :: 0 <= k < |packets| ==>
              CarriesPacket(packets[k], items[k], places[k]) &&
              Describes(Packets(visits)[k], packets[k], items[k], places[k])
    ensures Flatten(tiles) == Segments(visits) && |tiles| == |Flatten(items)|
    ensures forall j :: 0 <= j < |tiles| ==>
              Tiles(Flatten(items)[j], tiles[j], 0) && Join(tiles[j]) == Flatten(items)[j].text
  {
    EvidenceFrozen(packets);
    items, places := FrozenCarriesAll(packets);
    tiles := CompleteChainDeliversAll(EvidenceOf(packets), visits);
  }

  // ---- the sizes the server measures ----

  /** What a page costs apart from its two budget figures: fixed parts, the notice of an incomplete page, and its text. */
  datatype Encoding = Encoding(
    fixed: Page -> nat, fixedLines: nat, notice: nat, cost: Text -> nat, lines: Text -> nat)

  function SegmentCost(enc: Encoding, s: Segment): nat {
    enc.cost(s.text) + 2 * ResponseBudget.Digits(s.start) + 2 * ResponseBudget.Digits(s.end) +
    2 * (if s.textComplete then 4 else 5)
  }

  function Content(enc: Encoding, page: Page): nat {
    enc.fixed(page.(segments := [], complete := false)) + (if page.complete then 0 else enc.notice) +
    (if |page.segments| == 1 then SegmentCost(enc, page.segments[0]) else 0)
  }

  function Measured(enc: Encoding): Sizer {
    page => ResponseBudget.Fits(Content(enc, page),
                                enc.fixedLines + (if |page.segments| == 1 then enc.lines(page.segments[0].text) else 0))
  }

  /** Encoding a longer text never takes fewer bytes or fewer lines. A piece of a character is not text: the encoder
      writes six bytes for each of its bytes, so it may well cost more than the whole character. */
  ghost predicate CostGrows(enc: Encoding) {
    forall a: Text, b: Text :: Valid(a) && Valid(b) && a <= b ==>
      enc.cost(a) <= enc.cost(b) && enc.lines(a) <= enc.lines(b)
  }

  /** Measured pages meet the hypothesis of CutPageFits, so a text page that was built is always returned. */
  lemma BuiltTextPageIsReturned(ev: Evidence, item: nat, offset: nat, enc: Encoding)
    requires Deliverable(ev) && CostGrows(enc) && PositionOk(ev, AtText(item, offset))
    ensures var r := PageAt(ev, AtText(item, offset), false, Measured(enc)); r.Ok? ==> Measured(enc)(r.value.page)
  {
    var fits, text := Measured(enc), ev.items[item].text;
    forall a, b |
      offset < a <= b < |text| && Boundary(text, a) && Boundary(text, b) && fits(TextPageOf(ev, item, offset, b))
      ensures fits(TextPageOf(ev, item, offset, a))
    {
      SliceIsText(text, offset, a);
      SliceIsText(text, offset, b);
      assert text[offset..a] <= text[offset..b];
      ResponseBudget.DigitsGrow(a, b);
      var pa, pb := TextPageOf(ev, item, offset, a), TextPageOf(ev, item, offset, b);
      assert pa.(segments := [], complete := false) == pb.(segments := [], complete := false);
    }
    if ChosenSize(ev, item, offset, fits) >= 1 {
      CutPageFits(ev, item, offset, fits);
    }
  }
}
