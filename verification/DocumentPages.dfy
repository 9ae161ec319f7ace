/**
 * The stateless pager behind fetch_document: each page takes as much of the matched documents, in order, as fits, and
 * names the position the next page starts at. A match's text is delivered before its attachments.
 */
module DocumentPages {
  import opened Wrappers
  import opened Utf8
  import Bisect

  const MAX_CURSOR := 256

  type Attachment = string
  datatype Match = Match(docID: string, text: Text, attachments: seq<Attachment>)
  datatype Range = Range(start: nat, end: nat)
  datatype Entry = Entry(
    docID: string, text: Text, range: Option<Range>, textComplete: bool, attachments: seq<Attachment>, offset: nat)

  datatype Phase = InText | InAttachments
  datatype Position = Position(index: nat, phase: Phase, offset: nat)

  /** Whether a page of these entries is within the response bounds beside a cursor of the given length (0: none). */
  type Sizer = (seq<Entry>, nat) -> bool

  datatype Built = Page(documents: seq<Entry>, next: Option<Position>) | TooLarge

  function HeaderOf(m: Match): Entry { Entry(m.docID, [], None, true, [], 0) }

  function WithText(e: Entry, text: Text, start: nat, end: nat): Entry
    requires start <= end <= |text|
  {
    e.(text := text[start..end], range := Some(Range(start, end)), textComplete := end == |text|)
  }

  function WithAttachments(e: Entry, attachments: seq<Attachment>, offset: nat, count: nat): Entry
    requires offset + count <= |attachments|
  {
    e.(attachments := attachments[offset..offset + count], offset := offset)
  }

  predicate TextsValid(ms: seq<Match>) { forall i :: 0 <= i < |ms| ==> Valid(ms[i].text) }

  /** A position a cursor may name. */
  predicate PositionOk(ms: seq<Match>, p: Position) {
    && p.index < |ms|
    && match p.phase
       case InText =>
         p.offset <= |ms[p.index].text| && Boundary(ms[p.index].text, p.offset) &&
         (p.offset == |ms[p.index].text| ==> p.offset == 0)
       case InAttachments => p.offset <= |ms[p.index].attachments|
  }

  // ---- sizing one entry ----

  /** The predicate the text search probes: an end inside the first character never qualifies. */
  function EndFits(m: Match, offset: nat, docs: seq<Entry>, fits: Sizer): int -> bool
    requires Valid(m.text) && offset <= |m.text|
  {
    end =>
      var e := CutAt(m.text, end);
      e > offset && fits(docs + [WithText(HeaderOf(m), m.text, offset, e)], MAX_CURSOR)
  }

  function ChosenEnd(m: Match, offset: nat, docs: seq<Entry>, fits: Sizer): int
    requires Valid(m.text) && offset < |m.text|
  {
    Bisect.Largest(offset + 1, |m.text|, EndFits(m, offset, docs, fits))
  }

  function CountFits(m: Match, e: Entry, offset: nat, docs: seq<Entry>, fits: Sizer): int -> bool
    requires offset <= |m.attachments|
  {
    n => 0 <= n <= |m.attachments| - offset &&
         fits(docs + [WithAttachments(e, m.attachments, offset, n)], MAX_CURSOR)
  }

  /** How many attachments go beside an entry; at least none when its text is already placed. */
  function Count(m: Match, e: Entry, offset: nat, docs: seq<Entry>, progressed: bool, fits: Sizer): (n: int)
    requires offset <= |m.attachments|
    ensures -1 <= n <= |m.attachments| - offset
  {
    var n := Bisect.Largest(0, |m.attachments| - offset, CountFits(m, e, offset, docs, fits));
    if n < 0 && progressed then 0 else n
  }

  /** Where a text page that cannot carry the rest of its text stops. */
  function PageCut(text: Text, offset: nat, end: nat): (cut: nat)
    requires Valid(text) && offset < end <= |text| && Boundary(text, end)
    ensures offset < cut <= end && Boundary(text, cut)
    ensures end == |text| ==> cut == end
  {
    ParagraphEndIsBoundary(text, offset, end);
    var paragraph := ParagraphEnd(text, offset, end);
    if end < |text| && paragraph > offset then paragraph else end
  }

  /** How far the text on this page reaches; offset when not even one character was placed. */
  function TextStop(m: Match, offset: nat, docs: seq<Entry>, fits: Sizer): (end: nat)
    requires Valid(m.text) && offset < |m.text|
    ensures offset <= end <= |m.text|
    ensures offset < end ==> Boundary(m.text, end)
  {
    var found := ChosenEnd(m, offset, docs, fits);
    if found <= offset then offset
    else
      ChosenIsForward(m, offset, docs, fits);
      PageCut(m.text, offset, CutAt(m.text, found))
  }

  // ---- one page ----

  /** What becomes of a match's attachments: all placed, some placed, or none and nothing to stop after. */
  datatype Placed = Whole(documents: seq<Entry>) | Stopped(documents: seq<Entry>, next: Position) | Refused

  function Place(m: Match, index: nat, e: Entry, offset: nat, docs: seq<Entry>, progressed: bool, fits: Sizer): Placed
    requires offset <= |m.attachments|
  {
    var n := Count(m, e, offset, docs, progressed, fits);
    if n == |m.attachments| - offset then Whole(docs + [WithAttachments(e, m.attachments, offset, n)])
    else if n > 0 || progressed then
      Stopped(docs + [WithAttachments(e, m.attachments, offset, n)], Position(index, InAttachments, offset + n))
    else if docs != [] then Stopped(docs, Position(index, InAttachments, offset))
    else Refused
  }

  /** The rest of a page that stands at p with docs already on it. */
  function Build(ms: seq<Match>, p: Position, docs: seq<Entry>, fits: Sizer): Built
    requires TextsValid(ms) && (p.index < |ms| ==> PositionOk(ms, p))
    decreases |ms| - p.index, 1
  {
    if p.index >= |ms| then Page(docs, None)
    else
      var m := ms[p.index];
      if p.phase == InText && p.offset < |m.text| then
        var end := TextStop(m, p.offset, docs, fits);
        if end == p.offset then (if docs != [] then Page(docs, Some(p)) else TooLarge)
        else
          var e := WithText(HeaderOf(m), m.text, p.offset, end);
          if end < |m.text| then Page(docs + [e], Some(Position(p.index, InText, end)))
          else Attach(ms, p.index, e, 0, docs, true, fits)
      else Attach(ms, p.index, HeaderOf(m), if p.phase == InText then 0 else p.offset, docs, false, fits)
  }

  function Attach(ms: seq<Match>, index: nat, e: Entry, offset: nat, docs: seq<Entry>, progressed: bool, fits: Sizer): Built
    requires TextsValid(ms) && index < |ms| && offset <= |ms[index].attachments|
    decreases |ms| - index, 0
  {
    match Place(ms[index], index, e, offset, docs, progressed, fits)
    case Whole(documents) => NextMatch(ms, index); Build(ms, Position(index + 1, InText, 0), documents, fits)
    case Stopped(documents, next) => Page(documents, Some(next))
    case Refused => TooLarge
  }

  lemma NextMatch(ms: seq<Match>, index: nat)
    requires TextsValid(ms) && index < |ms|
    ensures index + 1 < |ms| ==> PositionOk(ms, Position(index + 1, InText, 0))
  {
    if index + 1 < |ms| {
      StartIsBoundary(ms[index + 1].text);
    }
  }

  /** The text half of the page loop's body. */
  method FindTextStop(m: Match, offset: nat, documents: seq<Entry>, fits: Sizer) returns (end: nat)
    requires Valid(m.text) && offset < |m.text|
    ensures end == TextStop(m, offset, documents, fits)
  {
    var found := Bisect.LargestFitting(offset + 1, |m.text|, EndFits(m, offset, documents, fits));
    if found <= offset {
      return offset;
    }
    ChosenIsForward(m, offset, documents, fits);
    end := BoundaryAtOrBefore(m.text, found);
    if end < |m.text| {
      var paragraph := ParagraphEnd(m.text, offset, end);
      if paragraph > offset {
        end := paragraph;
      }
    }
  }

  /** The attachment half of the page loop's body. */
  method PlaceAttachments(m: Match, index: nat, entry: Entry, offset: nat, documents: seq<Entry>, progressed: bool,
                          fits: Sizer)
    returns (placed: Placed)
    requires offset <= |m.attachments|
    ensures placed == Place(m, index, entry, offset, documents, progressed, fits)
  {
    var remaining := |m.attachments| - offset;
    var count := Bisect.LargestFitting(0, remaining, CountFits(m, entry, offset, documents, fits));
    if count < 0 && progressed {
      count := 0;
    }
    if count == remaining {
      placed := Whole(documents + [WithAttachments(entry, m.attachments, offset, count)]);
    } else if count > 0 || progressed {
      placed := Stopped(documents + [WithAttachments(entry, m.attachments, offset, count)],
                        Position(index, InAttachments, offset + count));
    } else if documents != [] {
      placed := Stopped(documents, Position(index, InAttachments, offset));
    } else {
      placed := Refused;
    }
  }

  /** buildDocumentPage, up to the measuring of the finished page. */
  method BuildDocumentPage(ms: seq<Match>, start: Position, fits: Sizer) returns (r: Built)
    requires TextsValid(ms) && (start.index < |ms| ==> PositionOk(ms, start))
    ensures r == Build(ms, start, [], fits)
  {
    var pos, documents := start, [];
    ghost var whole := Build(ms, start, [], fits);
    while pos.index < |ms|
      invariant pos.index < |ms| ==> PositionOk(ms, pos)
      invariant Build(ms, pos, documents, fits) == whole
      decreases |ms| - pos.index
    {
      var m := ms[pos.index];
      var entry := HeaderOf(m);
      var progressed := false;
      if pos.phase == InText && pos.offset < |m.text| {
        var end := FindTextStop(m, pos.offset, documents, fits);
        if end <= pos.offset {
          return if documents != [] then Page(documents, Some(pos)) else TooLarge;
        }
        entry := WithText(entry, m.text, pos.offset, end);
        if end < |m.text| {
          return Page(documents + [entry], Some(Position(pos.index, InText, end)));
        }
        pos := Position(pos.index, InAttachments, 0);
        progressed := true;
      } else if pos.phase == InText {
        pos := Position(pos.index, InAttachments, 0);
      }
      var placed := PlaceAttachments(m, pos.index, entry, pos.offset, documents, progressed, fits);
      match placed {
        case Refused => return TooLarge;
        case Stopped(filled, next) => return Page(filled, Some(next));
        case Whole(filled) =>
          documents := filled;
          NextMatch(ms, pos.index);
          pos := Position(pos.index + 1, InText, 0);
      }
    }
    r := Page(documents, None);
  }

  lemma ChosenIsForward(m: Match, offset: nat, docs: seq<Entry>, fits: Sizer)
    requires Valid(m.text) && offset < |m.text|
    requires ChosenEnd(m, offset, docs, fits) > offset
    ensures CutAt(m.text, ChosenEnd(m, offset, docs, fits)) > offset
    ensures fits(docs + [WithText(HeaderOf(m), m.text, offset, CutAt(m.text, ChosenEnd(m, offset, docs, fits)))], MAX_CURSOR)
  {
    var p := EndFits(m, offset, docs, fits);
    Bisect.LargestIsAnEdge(offset + 1, |m.text|, p);
    assert p(ChosenEnd(m, offset, docs, fits));
  }
}
