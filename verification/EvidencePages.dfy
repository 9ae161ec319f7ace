/**
 * The pages one evidence snapshot is delivered in: a compact index first, then each admitted text in size-bounded
 * slices. Whether an encoded page is within the response bounds is a parameter, `fits`; module ResponseBudget says
 * what it is.
 */
module EvidencePages {
  import opened Wrappers
  import opened Seqs
  import opened Utf8
  import Bisect

  type DocumentRef = string
  /** How a packet matched, which is only passed on. */
  type Found = string

  datatype Related = Related(relation: string, document: DocumentRef, text: Option<Text>)
  datatype Packet = Packet(
    reference: string, rank: nat, document: DocumentRef, found: Found, text: Option<Text>, textOmitted: bool,
    related: seq<Related>)
  datatype IndexPacket = IndexPacket(
    reference: string, rank: nat, document: DocumentRef, found: Found, textAvailable: bool, textOmitted: bool,
    relatedCount: nat, relatedTextAvailable: nat)
  datatype Item = Item(reference: string, relation: Option<string>, document: DocumentRef, text: Text)
  datatype Evidence = Evidence(index: seq<IndexPacket>, items: seq<Item>)

  datatype Segment = Segment(
    reference: string, relation: Option<string>, document: DocumentRef, text: Text, start: nat, end: nat,
    textComplete: bool)
  datatype Kind = SearchPage | IndexPage | TextPage
  datatype Page = Page(kind: Kind, packets: seq<IndexPacket>, segments: seq<Segment>, complete: bool)

  datatype Position = AtIndex(index: nat) | AtText(item: nat, offset: nat)
  datatype Built = Built(page: Page, next: Option<Position>)
  datatype PageError = TooLarge | ItemOutOfRange | OffsetInvalid
  type Sizer = Page -> bool

  // ---- freezing a result ----

  predicate Admitted(text: Option<Text>) { text.Some? && text.value != [] }

  function AdmittedRelated(related: seq<Related>): nat {
    if related == [] then 0
    else (if Admitted(related[0].text) then 1 else 0) + AdmittedRelated(related[1..])
  }

  function IndexOf(p: Packet): IndexPacket {
    IndexPacket(p.reference, p.rank, p.document, p.found, Admitted(p.text), p.textOmitted, |p.related|,
                AdmittedRelated(p.related))
  }

  /** A packet's admitted texts: its own first, then its neighbours' in order. */
  function ItemsOf(p: Packet): seq<Item> {
    (if Admitted(p.text) then [Item(p.reference, None, p.document, p.text.value)] else []) +
    RelatedItems(p.reference, p.related)
  }

  function RelatedItems(reference: string, related: seq<Related>): seq<Item> {
    if related == [] then []
    else
      var r := related[|related| - 1];
      RelatedItems(reference, related[..|related| - 1]) +
      (if Admitted(r.text) then [Item(reference, Some(r.relation), r.document, r.text.value)] else [])
  }

  function EvidenceOf(packets: seq<Packet>): Evidence {
    if packets == [] then Evidence([], [])
    else
      var e, p := EvidenceOf(packets[..|packets| - 1]), packets[|packets| - 1];
      Evidence(e.index + [IndexOf(p)], e.items + ItemsOf(p))
  }

  predicate TextsValid(packets: seq<Packet>) {
    forall p <- packets ::
      && (p.text.Some? ==> Valid(p.text.value))
      && (forall r <- p.related :: r.text.Some? ==> Valid(r.text.value))
  }

  /** Every text a page may slice is non-empty valid UTF-8. */
  predicate Deliverable(ev: Evidence) {
    forall i :: 0 <= i < |ev.items| ==> ev.items[i].text != [] && Valid(ev.items[i].text)
  }

  lemma {:induction false} RelatedItemsDeliverable(reference: string, related: seq<Related>)
    requires forall r <- related :: r.text.Some? ==> Valid(r.text.value)
    ensures forall it <- RelatedItems(reference, related) :: it.text != [] && Valid(it.text)
  {
    if related != [] {
      RelatedItemsDeliverable(reference, related[..|related| - 1]);
    }
  }

  /** A frozen result indexes every packet in rank order and carries only non-empty valid texts. */
  lemma {:induction false} EvidenceFrozen(packets: seq<Packet>)
    requires TextsValid(packets)
    ensures Deliverable(EvidenceOf(packets))
    ensures |EvidenceOf(packets).index| == |packets|
    ensures forall i :: 0 <= i < |packets| ==> EvidenceOf(packets).index[i] == IndexOf(packets[i])
  {
    if packets != [] {
      EvidenceFrozen(packets[..|packets| - 1]);
      RelatedItemsDeliverable(packets[|packets| - 1].reference, packets[|packets| - 1].related);
    }
  }

  // ---- what a frozen result carries ----

  /** There is text, and it is not empty. */
  predicate HasText(r: Related) { r.text.Some? && r.text.value != [] }

  /** The places of the neighbours that have text, in order. */
  ghost predicate WithText(related: seq<Related>, places: seq<nat>) {
    && (forall i, j :: 0 <= i < j < |places| ==> places[i] < places[j])
    && (forall i :: 0 <= i < |places| ==> places[i] < |related| && HasText(related[places[i]]))
    && (forall r :: 0 <= r < |related| && HasText(related[r]) ==> r in places)
  }

  /** The item is this neighbour's text, under its packet's reference with its own relation and document. */
  predicate StandsFor(item: Item, reference: string, r: Related) {
    && item.reference == reference && item.relation == Some(r.relation) && item.document == r.document
    && Some(item.text) == r.text
  }

  ghost predicate CarriesRelated(reference: string, related: seq<Related>, items: seq<Item>, places: seq<nat>) {
    && WithText(related, places) && |items| == |places|
    && forall i :: 0 <= i < |items| ==> StandsFor(items[i], reference, related[places[i]])
  }

  /** The items are the packet's own text, when it has any, and then its neighbours'. */
  ghost predicate CarriesPacket(p: Packet, items: seq<Item>, places: seq<nat>) {
    if p.text.Some? && p.text.value != [] then
      && items != []
      && items[0].reference == p.reference && items[0].relation == None && items[0].document == p.document
      && items[0].text == p.text.value
      && CarriesRelated(p.reference, p.related, items[1..], places)
    else CarriesRelated(p.reference, p.related, items, places)
  }

  /** The index says of a packet what it is and how many of its texts, and of its neighbours', there are to read. */
  ghost predicate Describes(d: IndexPacket, p: Packet, items: seq<Item>, places: seq<nat>) {
    && d.reference == p.reference && d.rank == p.rank && d.document == p.document && d.found == p.found
    && (d.textAvailable <==> p.text.Some? && p.text.value != []) && d.textOmitted == p.textOmitted
    && d.relatedCount == |p.related| && d.relatedTextAvailable == |places|
    && |items| == d.relatedTextAvailable + (if d.textAvailable then 1 else 0)
  }

  lemma NoNeighbours(reference: string)
    ensures CarriesRelated(reference, [], RelatedItems(reference, []), [])
  {
  }

  lemma RelatedSnoc(reference: string, related: seq<Related>, r: Related)
    ensures var before := RelatedItems(reference, related);
            RelatedItems(reference, related + [r]) ==
            if HasText(r) then before + [Item(reference, Some(r.relation), r.document, r.text.value)] else before
  {
    assert (related + [r])[..|related|] == related;
  }

  lemma {:induction false} RelatedAreCarried(reference: string, related: seq<Related>) returns (places: seq<nat>)
    ensures CarriesRelated(reference, related, RelatedItems(reference, related), places)
    decreases |related|
  {
    hide CarriesRelated, RelatedItems;
    if related == [] {
      NoNeighbours(reference);
      places := [];
    } else {
      var front, r := related[..|related| - 1], related[|related| - 1];
      assert front + [r] == related;
      var before := RelatedAreCarried(reference, front);
      RelatedSnoc(reference, front, r);
      OneMoreNeighbour(reference, front, r, RelatedItems(reference, front), before);
      places := if HasText(r) then before + [|front|] else before;
    }
  }

  lemma OneMoreNeighbour(reference: string, related: seq<Related>, r: Related, items: seq<Item>, places: seq<nat>)
    requires CarriesRelated(reference, related, items, places)
    ensures HasText(r) ==>
              CarriesRelated(reference, related + [r],
                             items + [Item(reference, Some(r.relation), r.document, r.text.value)],
                             places + [|related|])
    ensures !HasText(r) ==> CarriesRelated(reference, related + [r], items, places)
  {
    hide HasText, StandsFor, WithText;
    OneMorePlace(related, r, places);
    if HasText(r) {
      NeighbourStands(reference, r);
    }
  }

  lemma OneMorePlace(related: seq<Related>, r: Related, places: seq<nat>)
    requires WithText(related, places)
    ensures forall i :: 0 <= i < |places| ==> places[i] < |related|
    ensures WithText(related + [r], if HasText(r) then places + [|related|] else places)
  {
    hide HasText;
    var all, more := related + [r], if HasText(r) then places + [|related|] else places;
    forall k | 0 <= k < |all| && HasText(all[k]) ensures k in more {
      if k == |related| {
        assert more[|places|] == k;
      } else {
        assert k in places;
      }
    }
  }

  lemma NeighbourStands(reference: string, r: Related)
    requires HasText(r)
    ensures r.text.Some? && StandsFor(Item(reference, Some(r.relation), r.document, r.text.value), reference, r)
  {
  }

  /** The count the index gives is counted from the front, the texts from the back. */
  lemma {:induction false} AdmittedSnoc(related: seq<Related>, r: Related)
    ensures AdmittedRelated(related + [r]) == AdmittedRelated(related) + (if Admitted(r.text) then 1 else 0)
    decreases |related|
  {
    if related == [] {
      assert [r][1..] == [];
    } else {
      assert (related + [r])[1..] == related[1..] + [r];
      AdmittedSnoc(related[1..], r);
    }
  }

  lemma {:induction false} RelatedAreCounted(reference: string, related: seq<Related>)
    ensures |RelatedItems(reference, related)| == AdmittedRelated(related)
    decreases |related|
  {
    if related != [] {
      var n := |related| - 1;
      RelatedAreCounted(reference, related[..n]);
      AdmittedSnoc(related[..n], related[n]);
      assert related[..n] + [related[n]] == related;
    }
  }

  lemma PacketIsCarried(p: Packet) returns (places: seq<nat>)
    ensures CarriesPacket(p, ItemsOf(p), places) && Describes(IndexOf(p), p, ItemsOf(p), places)
  {
    places := RelatedAreCarried(p.reference, p.related);
    RelatedAreCounted(p.reference, p.related);
    if Admitted(p.text) {
      assert ItemsOf(p)[1..] == RelatedItems(p.reference, p.related);
    } else {
      assert ItemsOf(p) == RelatedItems(p.reference, p.related);
    }
  }

  /**
   * The texts of a frozen result are, packet by packet, the packet's own text and then those of its neighbours, each
   * that is not empty exactly once, and nothing else; and the index says of each packet how many there are.
   */
  lemma {:induction false} FrozenCarriesAll(packets: seq<Packet>)
    returns (groups: seq<seq<Item>>, places: seq<seq<nat>>)
    ensures |groups| == |places| == |packets| == |EvidenceOf(packets).index|
    ensures Flatten(groups) == EvidenceOf(packets).items
    ensures forall k :: 0 <= k < |packets| ==>
              CarriesPacket(packets[k], groups[k], places[k]) &&
              Describes(EvidenceOf(packets).index[k], packets[k], groups[k], places[k])
    decreases |packets|
  {
    if packets == [] {
      groups, places := [], [];
    } else {
      var n := |packets| - 1;
      var before, earlier := FrozenCarriesAll(packets[..n]);
      var last := PacketIsCarried(packets[n]);
      FlattenSnoc(before, ItemsOf(packets[n]));
      groups, places := before + [ItemsOf(packets[n])], earlier + [last];
      hide CarriesPacket, Describes, ItemsOf, IndexOf;
      forall k | 0 <= k < |packets|
        ensures CarriesPacket(packets[k], groups[k], places[k])
        ensures Describes(EvidenceOf(packets).index[k], packets[k], groups[k], places[k])
      {
        if k < n {
          assert packets[..n][k] == packets[k];
        }
      }
    }
  }

  /** snapshotFromEvidence. */
  method SnapshotFromEvidence(packets: seq<Packet>) returns (ev: Evidence)
    ensures ev == EvidenceOf(packets)
  {
    var index, items := [], [];
    for i := 0 to |packets|
      invariant Evidence(index, items) == EvidenceOf(packets[..i])
    {
      var own := PacketItems(packets[i]);
      index := index + [IndexOf(packets[i])];
      items := items + own;
      assert packets[..i + 1][..i] == packets[..i];
    }
    assert packets[..|packets|] == packets;
    ev := Evidence(index, items);
  }

  method PacketItems(p: Packet) returns (items: seq<Item>)
    ensures items == ItemsOf(p)
  {
    items := [];
    if p.text.Some? && p.text.value != [] {
      items := items + [Item(p.reference, None, p.document, p.text.value)];
    }
    ghost var own := items;
    for j := 0 to |p.related|
      invariant items == own + RelatedItems(p.reference, p.related[..j])
    {
      var r := p.related[j];
      assert p.related[..j + 1][..j] == p.related[..j];
      if r.text.Some? && r.text.value != [] {
        items := items + [Item(p.reference, Some(r.relation), r.document, r.text.value)];
      }
    }
    assert p.related[..|p.related|] == p.related;
  }

  // ---- positions ----

  predicate PositionOk(ev: Evidence, p: Position) {
    match p
    case AtIndex(i) => i <= |ev.index|
    case AtText(j, o) => j < |ev.items| && o < |ev.items[j].text| && Boundary(ev.items[j].text, o)
  }

  /** Delivery order: the index before the texts, then by item, then by byte. */
  predicate Before(a: Position, b: Position) {
    match (a, b)
    case (AtIndex(i), AtIndex(j)) => i < j
    case (AtIndex(_), AtText(_, _)) => true
    case (AtText(_, _), AtIndex(_)) => false
    case (AtText(i, o), AtText(j, q)) => i < j || (i == j && o < q)
  }

  function NextAfterIndex(ev: Evidence, index: nat): Option<Position> {
    if index < |ev.index| then Some(AtIndex(index))
    else if |ev.items| > 0 then Some(AtText(0, 0))
    else None
  }

  function NextAfterText(ev: Evidence, item: nat, end: nat): Option<Position>
    requires item < |ev.items|
  {
    if end < |ev.items[item].text| then Some(AtText(item, end))
    else if item + 1 < |ev.items| then Some(AtText(item + 1, 0))
    else None
  }

  // ---- index pages ----

  function IndexPageOf(ev: Evidence, kind: Kind, start: nat, selected: nat): Page
    requires start <= selected <= |ev.index|
  {
    Page(kind, ev.index[start..selected], [], NextAfterIndex(ev, selected).None?)
  }

  /** How far a page starting at start reaches once it holds the packets up to selected. */
  function IndexStop(ev: Evidence, kind: Kind, start: nat, selected: nat, fits: Sizer): (k: nat)
    requires start <= selected <= |ev.index|
    ensures selected <= k <= |ev.index|
    ensures selected < k ==> fits(IndexPageOf(ev, kind, start, k))
    ensures k < |ev.index| ==> !fits(IndexPageOf(ev, kind, start, k + 1))
    decreases |ev.index| - selected
  {
    if selected < |ev.index| && fits(IndexPageOf(ev, kind, start, selected + 1))
    then IndexStop(ev, kind, start, selected + 1, fits)
    else selected
  }

  function IndexBuilt(ev: Evidence, kind: Kind, start: nat, fits: Sizer): Result<Built, PageError>
    requires start <= |ev.index|
  {
    var k := IndexStop(ev, kind, start, start, fits);
    if k == start && k < |ev.index| then Err(TooLarge)
    else Ok(Built(IndexPageOf(ev, kind, start, k), NextAfterIndex(ev, k)))
  }

  /** buildIndexPage. */
  method BuildIndexPage(ev: Evidence, start: nat, search: bool, fits: Sizer) returns (r: Result<Built, PageError>)
    requires start <= |ev.index|
    ensures r == IndexBuilt(ev, if search then SearchPage else IndexPage, start, fits)
  {
    var kind := if search then SearchPage else IndexPage;
    var page := Page(kind, [], [], false);
    var selected := start;
    while selected < |ev.index|
      invariant start <= selected <= |ev.index|
      invariant page == Page(kind, ev.index[start..selected], [], false)
      invariant IndexStop(ev, kind, start, selected, fits) == IndexStop(ev, kind, start, start, fits)
    {
      var candidate := page.(packets := page.packets + [ev.index[selected]]);
      var next := NextAfterIndex(ev, selected + 1);
      candidate := candidate.(complete := next.None?);
      assert candidate == IndexPageOf(ev, kind, start, selected + 1);
      if !fits(candidate) {
        break;
      }
      page := page.(packets := candidate.packets);
      selected := selected + 1;
    }
    if selected == start && selected < |ev.index| {
      return Err(TooLarge);
    }
    var next := NextAfterIndex(ev, selected);
    if next.None? {
      page := page.(complete := true);
    }
    r := Ok(Built(page, next));
  }

  // ---- text pages ----

  predicate TextStart(text: Text, offset: nat) {
    Valid(text) && offset < |text| && Boundary(text, offset)
  }

  /** The cut a page of about `size` bytes falls on: never empty, never inside a character. */
  function EndFor(text: Text, offset: nat, size: int): (end: nat)
    requires TextStart(text, offset)
    ensures offset < end <= |text| && Boundary(text, end)
  {
    CharEndsAtBoundary(text, offset);
    var end := CutAt(text, offset + size);
    if end <= offset then NextBoundary(text, offset) else end
  }

  function SegmentOf(item: Item, start: nat, end: nat): Segment
    requires start <= end <= |item.text|
  {
    Segment(item.reference, item.relation, item.document, item.text[start..end], start, end, end == |item.text|)
  }

  function TextPageOf(ev: Evidence, item: nat, start: nat, end: nat): Page
    requires item < |ev.items| && start <= end <= |ev.items[item].text|
  {
    Page(TextPage, [], [SegmentOf(ev.items[item], start, end)], NextAfterText(ev, item, end).None?)
  }

  /** The predicate the text page's binary search probes. */
  function SizeFits(ev: Evidence, item: nat, offset: nat, fits: Sizer): int -> bool
    requires item < |ev.items| && TextStart(ev.items[item].text, offset)
  {
    size => fits(TextPageOf(ev, item, offset, EndFor(ev.items[item].text, offset, size)))
  }

  /** The size the search settles on; 0 when it accepted nothing. */
  function ChosenSize(ev: Evidence, item: nat, offset: nat, fits: Sizer): int
    requires item < |ev.items| && TextStart(ev.items[item].text, offset)
  {
    Bisect.Largest(1, |ev.items[item].text| - offset, SizeFits(ev, item, offset, fits))
  }

  function ChosenEnd(ev: Evidence, item: nat, offset: nat, fits: Sizer): (end: nat)
    requires item < |ev.items| && TextStart(ev.items[item].text, offset)
    ensures offset < end <= |ev.items[item].text|
  {
    EndFor(ev.items[item].text, offset, ChosenSize(ev, item, offset, fits))
  }

  /** The end the page is cut at: after a blank line in its second half when there is one. */
  function CutEnd(ev: Evidence, item: nat, offset: nat, fits: Sizer): (end: nat)
    requires item < |ev.items| && TextStart(ev.items[item].text, offset)
    ensures offset < end <= ChosenEnd(ev, item, offset, fits)
  {
    var text, best := ev.items[item].text, ChosenEnd(ev, item, offset, fits);
    var paragraph := ParagraphEnd(text, offset, best);
    if paragraph > offset then paragraph else best
  }

  function TextBuilt(ev: Evidence, item: nat, offset: nat, fits: Sizer): Result<Built, PageError>
    requires Deliverable(ev)
  {
    if item >= |ev.items| then Err(ItemOutOfRange)
    else
      var text := ev.items[item].text;
      if offset >= |text| || !RuneStart(text[offset]) then Err(OffsetInvalid)
      else if ChosenSize(ev, item, offset, fits) < 1 then Err(TooLarge)
      else
        var end := CutEnd(ev, item, offset, fits);
        Ok(Built(TextPageOf(ev, item, offset, end), NextAfterText(ev, item, end)))
  }

  /** The binary search of buildTextPage: the end the page should stop at, or 0. */
  method SearchEnd(ev: Evidence, itemIndex: nat, offset: nat, fits: Sizer) returns (best: nat)
    requires itemIndex < |ev.items| && TextStart(ev.items[itemIndex].text, offset)
    ensures best == (if ChosenSize(ev, itemIndex, offset, fits) < 1 then 0 else ChosenEnd(ev, itemIndex, offset, fits))
  {
    var text := ev.items[itemIndex].text;
    var size := Bisect.LargestFitting(1, |text| - offset, SizeFits(ev, itemIndex, offset, fits));
    if size < 1 {
      return 0;
    }
    best := BoundaryAtOrBefore(text, offset + size);
    if best <= offset {
      best := NextBoundary(text, offset);
    }
  }

  /** buildTextPage. */
  method BuildTextPage(ev: Evidence, itemIndex: nat, offset: nat, fits: Sizer) returns (r: Result<Built, PageError>)
    requires Deliverable(ev)
    ensures r == TextBuilt(ev, itemIndex, offset, fits)
  {
    if itemIndex >= |ev.items| {
      return Err(ItemOutOfRange);
    }
    var item := ev.items[itemIndex];
    if offset >= |item.text| || !RuneStart(item.text[offset]) {
      return Err(OffsetInvalid);
    }
    var best := SearchEnd(ev, itemIndex, offset, fits);
    if best <= offset {
      return Err(TooLarge);
    }
    var paragraphEnd := ParagraphEnd(item.text, offset, best);
    if paragraphEnd > offset {
      best := paragraphEnd;
    }
    r := Ok(Built(TextPageOf(ev, itemIndex, offset, best), NextAfterText(ev, itemIndex, best)));
  }

  /** The page a cursor position names. */
  function PageAt(ev: Evidence, at: Position, search: bool, fits: Sizer): Result<Built, PageError>
    requires Deliverable(ev) && PositionOk(ev, at)
  {
    match at
    case AtIndex(i) => IndexBuilt(ev, if search then SearchPage else IndexPage, i, fits)
    case AtText(j, o) => TextBuilt(ev, j, o, fits)
  }

  // ---- what the size of a page does to it ----

  /** An index page fails exactly when the one packet it must carry does not fit by itself. */
  lemma IndexFailsOnlyOnOnePacket(ev: Evidence, kind: Kind, start: nat, fits: Sizer)
    requires start <= |ev.index|
    ensures IndexBuilt(ev, kind, start, fits).Err? <==>
            start < |ev.index| && !fits(IndexPageOf(ev, kind, start, start + 1))
    ensures var b := IndexBuilt(ev, kind, start, fits); b.Ok? && start < |ev.index| ==> fits(b.value.page)
  {
  }

  /**
   * However fits behaves, a text page fails only when a page of the single next character does not fit; and where a
   * shorter page fits whenever a longer one does, exactly then.
   */
  lemma TextFailsOnlyOnOneCharacter(ev: Evidence, item: nat, offset: nat, fits: Sizer)
    requires Deliverable(ev) && item < |ev.items| && TextStart(ev.items[item].text, offset)
    ensures var one := TextPageOf(ev, item, offset, NextBoundary(ev.items[item].text, offset));
            var r := TextBuilt(ev, item, offset, fits);
            && (r.Err? ==> r.error == TooLarge && !fits(one))
            && (Bisect.Monotone(1, |ev.items[item].text| - offset, SizeFits(ev, item, offset, fits)) && !fits(one) ==> r.Err?)
  {
    hide Bisect.Monotone, Bisect.Largest, CutEnd, TextPageOf;
    OneCharacterDecides(ev, item, offset, fits);
  }

  lemma OneCharacterDecides(ev: Evidence, item: nat, offset: nat, fits: Sizer)
    requires item < |ev.items| && TextStart(ev.items[item].text, offset)
    ensures var one, n := TextPageOf(ev, item, offset, NextBoundary(ev.items[item].text, offset)), |ev.items[item].text| - offset;
            && (ChosenSize(ev, item, offset, fits) < 1 ==> !fits(one))
            && (Bisect.Monotone(1, n, SizeFits(ev, item, offset, fits)) && !fits(one) ==>
                  ChosenSize(ev, item, offset, fits) < 1)
  {
    var text, p := ev.items[item].text, SizeFits(ev, item, offset, fits);
    OneCharacterEnd(text, offset);
    assert p(1) <==> fits(TextPageOf(ev, item, offset, NextBoundary(text, offset)));
    if ChosenSize(ev, item, offset, fits) < 1 {
      SearchCameBackEmpty(|text| - offset, p);
    } else {
      Bisect.LargestIsAnEdge(1, |text| - offset, p);
      assert p(ChosenSize(ev, item, offset, fits));
    }
  }

  lemma SearchCameBackEmpty(size: int, p: int -> bool)
    requires size >= 1 && Bisect.Largest(1, size, p) < 1
    ensures !p(1)
  {
    Bisect.LargestIsAnEdge(1, size, p);
  }

  lemma OneCharacterEnd(text: Text, offset: nat)
    requires TextStart(text, offset)
    ensures EndFor(text, offset, 1) == NextBoundary(text, offset)
  {
    CharEndsAtBoundary(text, offset);
  }

  /** A text page stops after the last blank line in the second half of what it could hold, if there is one there. */
  lemma PageStopsAtParagraph(ev: Evidence, item: nat, offset: nat, fits: Sizer)
    requires Deliverable(ev) && item < |ev.items|
    ensures var r := TextBuilt(ev, item, offset, fits);
            r.Ok? ==>
              && TextStart(ev.items[item].text, offset) && |r.value.page.segments| == 1
              && PrefersParagraph(ev.items[item].text, offset, ChosenEnd(ev, item, offset, fits),
                                  r.value.page.segments[0].end)
  {
    if TextBuilt(ev, item, offset, fits).Ok? {
      ParagraphIsPreferred(ev.items[item].text, offset, ChosenEnd(ev, item, offset, fits));
    }
  }

  /** What a text page could hold fits, and one more character would not. */
  lemma OneMoreCharacterDoesNotFit(ev: Evidence, item: nat, offset: nat, fits: Sizer)
    requires item < |ev.items| && TextStart(ev.items[item].text, offset)
    requires ChosenSize(ev, item, offset, fits) >= 1
    ensures var end := ChosenEnd(ev, item, offset, fits);
            && fits(TextPageOf(ev, item, offset, end))
            && (end < |ev.items[item].text| ==>
                  !fits(TextPageOf(ev, item, offset, NextBoundary(ev.items[item].text, end))))
  {
    var text, size, end := ev.items[item].text, ChosenSize(ev, item, offset, fits), ChosenEnd(ev, item, offset, fits);
    ChosenEndFits(ev, item, offset, fits);
    if end < |text| {
      WholeRangeEndsText(text, offset, size);
      Bisect.LargestIsAnEdge(1, |text| - offset, SizeFits(ev, item, offset, fits));
      assert !SizeFits(ev, item, offset, fits)(size + 1);
      NextEnd(text, offset, size);
    }
  }

  lemma WholeRangeEndsText(text: Text, offset: nat, size: nat)
    requires TextStart(text, offset) && offset + size <= |text| && EndFor(text, offset, size) < |text|
    ensures offset + size < |text|
  {
  }

  lemma NextEnd(text: Text, offset: nat, size: nat)
    requires TextStart(text, offset) && size >= 1 && offset + size < |text|
    requires EndFor(text, offset, size + 1) != EndFor(text, offset, size)
    ensures EndFor(text, offset, size + 1) == NextBoundary(text, EndFor(text, offset, size))
  {
    CharEndsAtBoundary(text, offset);
    var end := EndFor(text, offset, size);
    if CutAt(text, offset + size) > offset {
      NextCut(text, end, offset + size);
    }
  }

  /** Among pages of whole characters that leave some of this item undelivered, a shorter one fits when a longer one does. */
  ghost predicate ShorterFits(ev: Evidence, item: nat, offset: nat, fits: Sizer)
    requires item < |ev.items|
  {
    var text := ev.items[item].text;
    forall a, b ::
      (offset < a <= b < |text| && Boundary(text, a) && Boundary(text, b) && fits(TextPageOf(ev, item, offset, b))) ==>
        fits(TextPageOf(ev, item, offset, a))
  }

  lemma ChosenEndFits(ev: Evidence, item: nat, offset: nat, fits: Sizer)
    requires item < |ev.items| && TextStart(ev.items[item].text, offset)
    requires ChosenSize(ev, item, offset, fits) >= 1
    ensures fits(TextPageOf(ev, item, offset, ChosenEnd(ev, item, offset, fits)))
  {
    Bisect.LargestIsAnEdge(1, |ev.items[item].text| - offset, SizeFits(ev, item, offset, fits));
    assert SizeFits(ev, item, offset, fits)(ChosenSize(ev, item, offset, fits));
  }

  /** A search that ends on its upper bound accepted the value just below it on the way. */
  lemma {:induction false} TopNeedsItsNeighbour(low: int, high: int, p: int -> bool)
    requires low < high && Bisect.Largest(low, high, p) == high
    ensures p(high - 1)
    decreases high - low
  {
    var middle := Bisect.Middle(low, high);
    if middle + 1 < high {
      TopNeedsItsNeighbour(middle + 1, high, p);
    }
  }

  /**
   * The paragraph cut may turn a complete page into one that still needs a continuation notice. It fits all the same:
   * the search could only accept the whole remainder after accepting a page that stops one character short of it, and
   * that page already carried the notice.
   */
  lemma CutPageFits(ev: Evidence, item: nat, offset: nat, fits: Sizer)
    requires Deliverable(ev) && item < |ev.items| && TextStart(ev.items[item].text, offset)
    requires ShorterFits(ev, item, offset, fits)
    requires ChosenSize(ev, item, offset, fits) >= 1
    ensures fits(TextPageOf(ev, item, offset, CutEnd(ev, item, offset, fits)))
  {
    var text := ev.items[item].text;
    var best, cut := ChosenEnd(ev, item, offset, fits), CutEnd(ev, item, offset, fits);
    ChosenEndFits(ev, item, offset, fits);
    ParagraphEndIsBoundary(text, offset, best);
    if cut < best == |text| {
      NeighbourFits(ev, item, offset, fits);
    }
  }

  /** When the whole remainder is chosen in several steps, the page that stops short of it fits too. */
  lemma NeighbourFits(ev: Evidence, item: nat, offset: nat, fits: Sizer)
    requires item < |ev.items| && TextStart(ev.items[item].text, offset)
    requires ChosenSize(ev, item, offset, fits) >= 1
    requires CutEnd(ev, item, offset, fits) < ChosenEnd(ev, item, offset, fits) == |ev.items[item].text|
    ensures var text := ev.items[item].text;
            var short := EndFor(text, offset, |text| - offset - 1);
            CutEnd(ev, item, offset, fits) <= short < |text| && fits(TextPageOf(ev, item, offset, short))
  {
    var text := ev.items[item].text;
    var n := |text| - offset;
    CharEndsAtBoundary(text, offset);
    ParagraphEndIsBoundary(text, offset, |text|);
    WholeTextChosen(ev, item, offset, fits);
    TopNeedsItsNeighbour(1, n, SizeFits(ev, item, offset, fits));
  }

  lemma WholeTextChosen(ev: Evidence, item: nat, offset: nat, fits: Sizer)
    requires item < |ev.items| && TextStart(ev.items[item].text, offset)
    requires ChosenSize(ev, item, offset, fits) >= 1
    requires ChosenEnd(ev, item, offset, fits) == |ev.items[item].text|
    ensures ChosenSize(ev, item, offset, fits) == |ev.items[item].text| - offset ||
            NextBoundary(ev.items[item].text, offset) == |ev.items[item].text|
  {
    CharEndsAtBoundary(ev.items[item].text, offset);
  }
}
