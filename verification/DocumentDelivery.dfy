/**
 * What a caller who follows document cursors to the end has received: every match's text as an exact partition, before
 * its attachments, and each attachment once.
 */
module DocumentDelivery {
  import opened Wrappers
  import opened Seqs
  import opened Utf8
  import opened DocumentPages
  import Bisect

  // ---- what one entry of a page may carry ----

  /** A match with no text starts at its attachments. */
  function Norm(ms: seq<Match>, p: Position): Position {
    if p.index < |ms| && p.phase == InText && p.offset >= |ms[p.index].text| then Position(p.index, InAttachments, 0) else p
  }

  function StartOf(ms: seq<Match>, index: nat): Position { Norm(ms, Position(index, InText, 0)) }

  /** The entry carries the next stretch of the match it stands at, and nothing else. */
  predicate EntryOk(ms: seq<Match>, p: Position, e: Entry) {
    && p.index < |ms|
    && var m := ms[p.index];
    && e.docID == m.docID
    && match p.phase
       case InText =>
         && e.range.Some? && e.range.value.start == p.offset < e.range.value.end <= |m.text|
         && var end := e.range.value.end;
         && Boundary(m.text, end)
         && e.text == m.text[p.offset..end]
         && e.textComplete == (end == |m.text|)
         && e.offset == 0
         && (if end < |m.text| then e.attachments == [] else e.attachments <= m.attachments)
       case InAttachments =>
         && e.range.None? && e.text == [] && e.textComplete
         && e.offset == p.offset && p.offset + |e.attachments| <= |m.attachments|
         && e.attachments == m.attachments[p.offset..p.offset + |e.attachments|]
         && (e.attachments == [] ==> p.offset == |m.attachments|)
  }

  /** Where the stretch after an entry starts. */
  function AfterEntry(ms: seq<Match>, p: Position, e: Entry): Position
    requires EntryOk(ms, p, e)
  {
    var m := ms[p.index];
    if p.phase == InText && e.range.value.end < |m.text| then Position(p.index, InText, e.range.value.end)
    else
      var placed := e.offset + |e.attachments|;
      if placed == |m.attachments| then StartOf(ms, p.index + 1) else Position(p.index, InAttachments, placed)
  }

  /** The entries carry everything from p up to q, in order. */
  predicate Consumes(ms: seq<Match>, p: Position, es: seq<Entry>, q: Position)
    decreases |es|
  {
    if es == [] then p == q
    else EntryOk(ms, p, es[0]) && Consumes(ms, AfterEntry(ms, p, es[0]), es[1..], q)
  }

  lemma {:induction false} ConsumesOn(ms: seq<Match>, p: Position, es: seq<Entry>, q: Position, fs: seq<Entry>, r: Position)
    requires Consumes(ms, p, es, q) && Consumes(ms, q, fs, r)
    ensures Consumes(ms, p, es + fs, r)
    decreases |es|
  {
    if es == [] {
      assert es + fs == fs;
    } else {
      assert (es + fs)[1..] == es[1..] + fs;
      ConsumesOn(ms, AfterEntry(ms, p, es[0]), es[1..], q, fs, r);
    }
  }

  lemma ConsumesFirst(ms: seq<Match>, p: Position, e: Entry, fs: seq<Entry>, r: Position)
    requires EntryOk(ms, p, e) && Consumes(ms, AfterEntry(ms, p, e), fs, r)
    ensures Consumes(ms, p, [e] + fs, r)
  {
    assert ([e] + fs)[1..] == fs;
  }

  // ---- every page carries what its position says ----

  /** Where a page that stops at `next` stands. */
  predicate StopsAt(ms: seq<Match>, next: Option<Position>, q: Position) {
    match next
    case None => q.index == |ms|
    case Some(n) => PositionOk(ms, n) && Norm(ms, n) == q
  }

  lemma {:induction false} BuildCarries(ms: seq<Match>, p: Position, docs: seq<Entry>, fits: Sizer)
    returns (added: seq<Entry>, q: Position)
    requires TextsValid(ms) && p.index <= |ms| && (p.index < |ms| ==> PositionOk(ms, p))
    requires Build(ms, p, docs, fits).Page?
    ensures var r := Build(ms, p, docs, fits);
            r.documents == docs + added && Consumes(ms, Norm(ms, p), added, q) && StopsAt(ms, r.next, q) &&
            (p.index < |ms| && docs == [] ==> added != [])
    decreases |ms| - p.index, 1
  {
    if p.index == |ms| {
      added, q := [], p;
      assert docs + [] == docs;
    } else {
      var m := ms[p.index];
      if p.phase == InText && p.offset < |m.text| {
        var end := TextStop(m, p.offset, docs, fits);
        if end == p.offset {
          added, q := [], p;
          assert docs + [] == docs;
        } else {
          var e := WithText(HeaderOf(m), m.text, p.offset, end);
          if end < |m.text| {
            added, q := [e], Position(p.index, InText, end);
            assert [e][1..] == [];
          } else {
            added, q := AttachCarries(ms, p, e, 0, docs, true, fits);
          }
        }
      } else {
        added, q := AttachCarries(ms, Norm(ms, p), HeaderOf(m), Norm(ms, p).offset, docs, false, fits);
      }
    }
  }

  /** What stands on the page when a match's attachments are about to be placed. */
  predicate AttachStart(ms: seq<Match>, p: Position, e: Entry, offset: nat, progressed: bool) {
    && PositionOk(ms, p) && offset <= |ms[p.index].attachments|
    && if progressed
       then p.phase == InText && p.offset < |ms[p.index].text| && offset == 0 &&
            e == WithText(HeaderOf(ms[p.index]), ms[p.index].text, p.offset, |ms[p.index].text|)
       else p.phase == InAttachments && p.offset == offset && e == HeaderOf(ms[p.index])
  }

  lemma PlaceCarries(ms: seq<Match>, p: Position, e: Entry, offset: nat, docs: seq<Entry>, progressed: bool, fits: Sizer)
    returns (added: seq<Entry>, q: Position)
    requires AttachStart(ms, p, e, offset, progressed)
    ensures var r := Place(ms[p.index], p.index, e, offset, docs, progressed, fits);
            && (r.Whole? ==> r.documents == docs + added && added != [] && q == StartOf(ms, p.index + 1))
            && (r.Stopped? ==> r.documents == docs + added && q == r.next && PositionOk(ms, q) && q.phase == InAttachments &&
                               (docs == [] ==> added != []))
            && (!r.Refused? ==> Consumes(ms, p, added, q))
  {
    var m := ms[p.index];
    var n := Count(m, e, offset, docs, progressed, fits);
    if n == |m.attachments| - offset || n > 0 || progressed {
      var placed := WithAttachments(e, m.attachments, offset, n);
      EntryPlaced(ms, p, e, offset, n, progressed);
      added, q := [placed], AfterEntry(ms, p, placed);
      ConsumesFirst(ms, p, placed, [], q);
    } else {
      added, q := [], p;
      assert docs + [] == docs;
    }
  }

  lemma {:induction false} AttachCarries(ms: seq<Match>, p: Position, e: Entry, offset: nat, docs: seq<Entry>,
                                         progressed: bool, fits: Sizer)
    returns (added: seq<Entry>, q: Position)
    requires TextsValid(ms) && AttachStart(ms, p, e, offset, progressed)
    requires Attach(ms, p.index, e, offset, docs, progressed, fits).Page?
    ensures var r := Attach(ms, p.index, e, offset, docs, progressed, fits);
            r.documents == docs + added && Consumes(ms, p, added, q) && StopsAt(ms, r.next, q) &&
            (docs == [] ==> added != [])
    decreases |ms| - p.index, 0
  {
    hide Place, Build, EntryOk, AfterEntry, Consumes;
    added, q := PlaceCarries(ms, p, e, offset, docs, progressed, fits);
    var placed := Place(ms[p.index], p.index, e, offset, docs, progressed, fits);
    if placed.Whole? {
      NextMatch(ms, p.index);
      var rest, stop := BuildCarries(ms, Position(p.index + 1, InText, 0), placed.documents, fits);
      ConsumesOn(ms, p, added, q, rest, stop);
      assert docs + added + rest == docs + (added + rest);
      added, q := added + rest, stop;
    }
  }

  lemma EntryPlaced(ms: seq<Match>, p: Position, e: Entry, offset: nat, n: nat, progressed: bool)
    requires AttachStart(ms, p, e, offset, progressed) && offset + n <= |ms[p.index].attachments|
    requires n > 0 || progressed || n == |ms[p.index].attachments| - offset
    ensures var placed := WithAttachments(e, ms[p.index].attachments, offset, n);
            EntryOk(ms, p, placed) &&
            AfterEntry(ms, p, placed) ==
              (if offset + n == |ms[p.index].attachments| then StartOf(ms, p.index + 1)
               else Position(p.index, InAttachments, offset + n))
  {
  }

  // ---- chains ----

  datatype Visit = Visit(at: Position, documents: seq<Entry>, next: Option<Position>)

  /** What a page may be whatever its size limit decided: it carries everything between where it starts and stops. */
  ghost predicate LegalVisit(ms: seq<Match>, v: Visit) {
    && PositionOk(ms, v.at)
    && v.documents != []
    && exists q :: Consumes(ms, Norm(ms, v.at), v.documents, q) && StopsAt(ms, v.next, q)
  }

  lemma PageIsLegal(ms: seq<Match>, at: Position, fits: Sizer)
    requires TextsValid(ms) && PositionOk(ms, at)
    ensures var r := Build(ms, at, [], fits); r.Page? ==> LegalVisit(ms, Visit(at, r.documents, r.next))
  {
    if Build(ms, at, [], fits).Page? {
      var added, q := BuildCarries(ms, at, [], fits);
      assert [] + added == added;
    }
  }

  /** A chain of cursors: each page is read where the one before said to go on. */
  ghost predicate Chain(ms: seq<Match>, from: Position, visits: seq<Visit>)
    decreases |visits|
  {
    && |visits| > 0
    && visits[0].at == from
    && LegalVisit(ms, visits[0])
    && (|visits| > 1 ==> visits[0].next.Some? && Chain(ms, visits[0].next.value, visits[1..]))
  }

  predicate Completed(visits: seq<Visit>) { |visits| > 0 && visits[|visits| - 1].next.None? }

  function Entries(visits: seq<Visit>): seq<Entry> {
    if visits == [] then [] else visits[0].documents + Entries(visits[1..])
  }

  lemma {:induction false} ChainCarries(ms: seq<Match>, from: Position, visits: seq<Visit>) returns (q: Position)
    requires Chain(ms, from, visits)
    ensures Consumes(ms, Norm(ms, from), Entries(visits), q) && StopsAt(ms, visits[|visits| - 1].next, q)
    decreases |visits|
  {
    var first := visits[0];
    var stop :| Consumes(ms, Norm(ms, from), first.documents, stop) && StopsAt(ms, first.next, stop);
    if |visits| == 1 {
      q := stop;
      assert visits[1..] == [];
      assert Entries(visits) == first.documents;
    } else {
      q := ChainCarries(ms, first.next.value, visits[1..]);
      ConsumesOn(ms, Norm(ms, from), first.documents, stop, Entries(visits[1..]), q);
    }
  }

  // ---- progress ----

  /** The stretches still to carry from match j on. */
  function Left(ms: seq<Match>, j: nat): nat
    decreases |ms| - j
  {
    if j >= |ms| then 0 else |ms[j].text| + |ms[j].attachments| + 1 + Left(ms, j + 1)
  }

  function Remaining(ms: seq<Match>, p: Position): int {
    if p.index >= |ms| then 0
    else if p.phase == InText then Left(ms, p.index) - p.offset
    else |ms[p.index].attachments| - p.offset + 1 + Left(ms, p.index + 1)
  }

  /** Every entry takes something off what remains. */
  lemma EntryShrinks(ms: seq<Match>, p: Position, e: Entry)
    requires EntryOk(ms, p, e)
    ensures Remaining(ms, AfterEntry(ms, p, e)) < Remaining(ms, p)
  {
    assert Left(ms, p.index) == |ms[p.index].text| + |ms[p.index].attachments| + 1 + Left(ms, p.index + 1);
  }

  lemma {:induction false} ConsumingShrinks(ms: seq<Match>, p: Position, es: seq<Entry>, q: Position)
    requires Consumes(ms, p, es, q)
    ensures Remaining(ms, q) + |es| <= Remaining(ms, p)
    decreases |es|
  {
    hide EntryOk, AfterEntry, Remaining;
    if es != [] {
      EntryShrinks(ms, p, es[0]);
      ConsumingShrinks(ms, AfterEntry(ms, p, es[0]), es[1..], q);
    }
  }

  /** Delivery order: by match, a match's text before its attachments, and by offset. */
  predicate Before(a: Position, b: Position) {
    || a.index < b.index
    || (a.index == b.index && a.phase == InText && b.phase == InAttachments)
    || (a.index == b.index && a.phase == b.phase && a.offset < b.offset)
  }

  lemma {:induction false} ConsumingAdvances(ms: seq<Match>, p: Position, es: seq<Entry>, q: Position)
    requires es != [] && Consumes(ms, p, es, q)
    ensures Before(p, q)
    decreases |es|
  {
    if |es| > 1 {
      ConsumingAdvances(ms, AfterEntry(ms, p, es[0]), es[1..], q);
    }
  }

  /** Every page that names a continuation moves strictly forward, to a position that can be read. */
  lemma VisitAdvances(ms: seq<Match>, v: Visit)
    requires LegalVisit(ms, v) && v.next.Some?
    ensures PositionOk(ms, v.next.value)
    ensures Before(v.at, v.next.value)
    ensures Remaining(ms, Norm(ms, v.next.value)) < Remaining(ms, Norm(ms, v.at))
  {
    var stop :| Consumes(ms, Norm(ms, v.at), v.documents, stop) && StopsAt(ms, v.next, stop);
    ConsumingAdvances(ms, Norm(ms, v.at), v.documents, stop);
    ConsumingShrinks(ms, Norm(ms, v.at), v.documents, stop);
  }

  lemma RemainingIsNatural(ms: seq<Match>, p: Position)
    requires PositionOk(ms, p)
    ensures Remaining(ms, Norm(ms, p)) >= 1
  {
  }

  /** Finished or not, no chain is longer than what its start leaves to carry. */
  lemma {:induction false} ChainIsBounded(ms: seq<Match>, from: Position, visits: seq<Visit>)
    requires Chain(ms, from, visits)
    ensures |visits| <= Remaining(ms, Norm(ms, from))
    decreases |visits|
  {
    RemainingIsNatural(ms, from);
    if |visits| > 1 {
      VisitAdvances(ms, visits[0]);
      ChainIsBounded(ms, visits[0].next.value, visits[1..]);
    }
  }

  // ---- the partition ----

  /** Entries that carry one match from p's stretch of it to its end. */
  predicate Carries(ms: seq<Match>, p: Position, es: seq<Entry>)
    decreases |es|
  {
    && es != []
    && EntryOk(ms, p, es[0])
    && var next := AfterEntry(ms, p, es[0]);
    && if next.index == p.index then Carries(ms, next, es[1..]) else es[1..] == []
  }

  function JoinText(es: seq<Entry>): Text {
    if es == [] then [] else es[0].text + JoinText(es[1..])
  }

  function JoinAttachments(es: seq<Entry>): seq<Attachment> {
    if es == [] then [] else es[0].attachments + JoinAttachments(es[1..])
  }

  /** Text comes before attachments. */
  predicate TextFirst(es: seq<Entry>) {
    forall k, l :: 0 <= k < l < |es| && es[k].attachments != [] ==> es[l].text == []
  }

  lemma {:induction false} CarriesJoinsText(ms: seq<Match>, p: Position, es: seq<Entry>)
    requires Carries(ms, p, es)
    ensures JoinText(es) == (if p.phase == InText then ms[p.index].text[p.offset..] else [])
    decreases |es|
  {
    var m, e := ms[p.index], es[0];
    var next := AfterEntry(ms, p, e);
    if next.index == p.index {
      CarriesJoinsText(ms, next, es[1..]);
    }
    if p.phase == InText {
      var end := e.range.value.end;
      SplitAt(m.text, p.offset, end);
    }
  }

  /** Where the attachments an entry may carry start. */
  function AttachmentsFrom(p: Position): nat { if p.phase == InText then 0 else p.offset }

  lemma EntryAttachments(ms: seq<Match>, p: Position, e: Entry)
    requires EntryOk(ms, p, e)
    ensures var from, end := AttachmentsFrom(p), AttachmentsFrom(p) + |e.attachments|;
            var next := AfterEntry(ms, p, e);
            end <= |ms[p.index].attachments| && e.attachments == ms[p.index].attachments[from..end] &&
            (next.index == p.index ==> AttachmentsFrom(next) == end) &&
            (next.index != p.index ==> end == |ms[p.index].attachments|)
  {
    var all := ms[p.index].attachments;
    assert all[0..|e.attachments|] == all[..|e.attachments|];
  }

  lemma {:induction false} CarriesJoinsAttachments(ms: seq<Match>, p: Position, es: seq<Entry>)
    requires Carries(ms, p, es)
    ensures AttachmentsFrom(p) <= |ms[p.index].attachments|
    ensures JoinAttachments(es) == ms[p.index].attachments[AttachmentsFrom(p)..]
    decreases |es|
  {
    var all, e := ms[p.index].attachments, es[0];
    EntryAttachments(ms, p, e);
    hide EntryOk, AfterEntry, AttachmentsFrom;
    var next := AfterEntry(ms, p, e);
    var first, end := AttachmentsFrom(p), AttachmentsFrom(p) + |e.attachments|;
    if next.index == p.index {
      CarriesJoinsAttachments(ms, next, es[1..]);
    } else {
      assert es[1..] == [] && all[end..] == [];
    }
    SplitAt(all, first, end);
  }

  lemma SplitAt<T>(s: seq<T>, i: nat, j: nat)
    requires i <= j <= |s|
    ensures s[i..] == s[i..j] + s[j..]
  {
  }

  lemma {:induction false} AttachmentsCarryNoText(ms: seq<Match>, p: Position, es: seq<Entry>, k: nat)
    requires Carries(ms, p, es) && p.phase == InAttachments && k < |es|
    ensures es[k].text == []
    decreases |es|
  {
    if k > 0 {
      AttachmentsCarryNoText(ms, AfterEntry(ms, p, es[0]), es[1..], k - 1);
    }
  }

  lemma {:induction false} CarriesTextFirst(ms: seq<Match>, p: Position, es: seq<Entry>)
    requires Carries(ms, p, es)
    ensures TextFirst(es)
    decreases |es|
  {
    if |es| > 1 {
      var next := AfterEntry(ms, p, es[0]);
      CarriesTextFirst(ms, next, es[1..]);
      forall k, l | 0 <= k < l < |es| && es[k].attachments != [] ensures es[l].text == [] {
        assert es[l] == es[1..][l - 1];
        if k > 0 {
          assert es[k] == es[1..][k - 1];
        } else {
          AttachmentsCarryNoText(ms, next, es[1..], l - 1);
        }
      }
    }
  }

  lemma GroupIsWhole(ms: seq<Match>, i: nat, es: seq<Entry>)
    requires i < |ms| && Carries(ms, StartOf(ms, i), es)
    ensures JoinText(es) == ms[i].text && JoinAttachments(es) == ms[i].attachments && TextFirst(es)
  {
    CarriesJoinsText(ms, StartOf(ms, i), es);
    CarriesJoinsAttachments(ms, StartOf(ms, i), es);
    CarriesTextFirst(ms, StartOf(ms, i), es);
    assert ms[i].text[0..] == ms[i].text && ms[i].attachments[0..] == ms[i].attachments;
  }

  /** One group of entries per match from p's on, the first starting at p. */
  predicate Grouped(ms: seq<Match>, p: Position, es: seq<Entry>, groups: seq<seq<Entry>>)
    decreases |groups|
  {
    && p.index + |groups| == |ms|
    && if groups == [] then es == []
       else Carries(ms, p, groups[0]) && groups[0] <= es &&
            Grouped(ms, StartOf(ms, p.index + 1), es[|groups[0]|..], groups[1..])
  }

  lemma {:induction false} GroupsCarry(ms: seq<Match>, i: nat, es: seq<Entry>, groups: seq<seq<Entry>>)
    requires i <= |ms| && Grouped(ms, StartOf(ms, i), es, groups)
    ensures i + |groups| == |ms| && Flatten(groups) == es
    ensures forall g :: 0 <= g < |groups| ==> Carries(ms, StartOf(ms, i + g), groups[g])
    decreases |groups|
  {
    if groups != [] {
      hide Carries;
      assert StartOf(ms, i).index == i;
      var rest := groups[1..];
      GroupsCarry(ms, i + 1, es[|groups[0]|..], rest);
      forall g | 0 <= g < |groups| ensures Carries(ms, StartOf(ms, i + g), groups[g]) {
        if g > 0 {
          assert Carries(ms, StartOf(ms, i + 1 + (g - 1)), rest[g - 1]);
        }
      }
    }
  }

  lemma {:induction false} ConsumesGroups(ms: seq<Match>, p: Position, es: seq<Entry>, q: Position)
    returns (groups: seq<seq<Entry>>)
    requires Consumes(ms, p, es, q) && q.index == |ms|
    ensures p.index <= |ms| && Grouped(ms, p, es, groups)
    decreases |es|
  {
    if es == [] {
      groups := [];
    } else {
      var next := AfterEntry(ms, p, es[0]);
      var rest := ConsumesGroups(ms, next, es[1..], q);
      if next.index == p.index {
        groups := FirstJoinsGroup(ms, p, es, rest);
      } else {
        groups := FirstIsAGroup(ms, p, es, rest);
      }
    }
  }

  lemma EntryInFront(ms: seq<Match>, p: Position, e: Entry, es: seq<Entry>)
    requires EntryOk(ms, p, e)
    requires var next := AfterEntry(ms, p, e); if next.index == p.index then Carries(ms, next, es) else es == []
    ensures Carries(ms, p, [e] + es)
  {
    assert ([e] + es)[1..] == es;
  }

  lemma FirstJoinsGroup(ms: seq<Match>, p: Position, es: seq<Entry>, rest: seq<seq<Entry>>)
    returns (groups: seq<seq<Entry>>)
    requires es != [] && EntryOk(ms, p, es[0]) && AfterEntry(ms, p, es[0]).index == p.index
    requires Grouped(ms, AfterEntry(ms, p, es[0]), es[1..], rest)
    ensures Grouped(ms, p, es, groups)
  {
    assert p.index < |ms|;
    EntryInFront(ms, p, es[0], rest[0]);
    hide EntryOk, AfterEntry, StartOf, Carries;
    var group := [es[0]] + rest[0];
    groups := [group] + rest[1..];
    assert groups[1..] == rest[1..];
    assert group <= es && es[|group|..] == es[1..][|rest[0]|..];
  }

  lemma LastEntryLeadsOn(ms: seq<Match>, p: Position, e: Entry)
    requires EntryOk(ms, p, e) && AfterEntry(ms, p, e).index != p.index
    ensures AfterEntry(ms, p, e) == StartOf(ms, p.index + 1) && StartOf(ms, p.index + 1).index == p.index + 1
  {
  }

  lemma FirstIsAGroup(ms: seq<Match>, p: Position, es: seq<Entry>, rest: seq<seq<Entry>>)
    returns (groups: seq<seq<Entry>>)
    requires es != [] && EntryOk(ms, p, es[0]) && AfterEntry(ms, p, es[0]).index != p.index
    requires Grouped(ms, AfterEntry(ms, p, es[0]), es[1..], rest)
    ensures Grouped(ms, p, es, groups)
  {
    EntryInFront(ms, p, es[0], []);
    assert [es[0]] + [] == [es[0]];
    hide EntryOk, AfterEntry, StartOf, Carries;
    LastEntryLeadsOn(ms, p, es[0]);
    groups := [[es[0]]] + rest;
    assert groups[1..] == rest;
  }

  /** Entries that carry everything fall into one group per match. */
  lemma WholeGroups(ms: seq<Match>, es: seq<Entry>, q: Position) returns (groups: seq<seq<Entry>>)
    requires |ms| > 0 && Consumes(ms, StartOf(ms, 0), es, q) && q.index == |ms|
    ensures Flatten(groups) == es && |groups| == |ms|
    ensures forall i :: 0 <= i < |ms| ==> Carries(ms, StartOf(ms, i), groups[i])
  {
    groups := ConsumesGroups(ms, StartOf(ms, 0), es, q);
    GroupsCarry(ms, 0, es, groups);
    hide *;
    forall i | 0 <= i < |ms| ensures Carries(ms, StartOf(ms, i), groups[i]) {
      assert Carries(ms, StartOf(ms, 0 + i), groups[i]);
    }
  }

  /**
   * Following the cursors of one lookup to a complete page, over matches that do not change, delivers every match in
   * order: its text as contiguous ranges that join to exactly that text, all of it before the first attachment, and
   * each attachment exactly once.
   */
  lemma CompleteChainDeliversAll(ms: seq<Match>, visits: seq<Visit>) returns (groups: seq<seq<Entry>>)
    requires TextsValid(ms) && |ms| > 0 && Chain(ms, Position(0, InText, 0), visits) && Completed(visits)
    ensures Flatten(groups) == Entries(visits) && |groups| == |ms|
    ensures forall i :: 0 <= i < |ms| ==>
              Carries(ms, StartOf(ms, i), groups[i]) &&
              JoinText(groups[i]) == ms[i].text && JoinAttachments(groups[i]) == ms[i].attachments && TextFirst(groups[i])
    ensures |visits| <= Left(ms, 0)
  {
    var q := ChainCarries(ms, Position(0, InText, 0), visits);
    ChainIsBounded(ms, Position(0, InText, 0), visits);
    groups := WholeGroups(ms, Entries(visits), q);
    hide *;
    forall i | 0 <= i < |ms|
      ensures Carries(ms, StartOf(ms, i), groups[i])
      ensures JoinText(groups[i]) == ms[i].text && JoinAttachments(groups[i]) == ms[i].attachments && TextFirst(groups[i])
    {
      GroupIsWhole(ms, i, groups[i]);
    }
  }
}
