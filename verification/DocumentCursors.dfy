/**
 * Stateless continuation of a document lookup: a cursor names the lookup, the match by identity and text revision, and
 * the position in it, and is resolved against a fresh run of the lookup.
 */
module DocumentCursors {
  import opened Wrappers
  import opened Utf8
  import opened DocumentPages
  import opened DocumentDelivery
  import opened DocumentReading
  import opened Seqs

  const VERSION := 1

  datatype Cursor = Cursor(version: nat, fingerprint: string, docID: string, textHash: string, phase: Phase, offset: nat)
  datatype CursorError = Invalid | Stale

  /** documentTextHash, of which only the absence of collisions matters. */
  type Hash = Text -> string

  ghost predicate Injective(hash: Hash) { forall a, b :: hash(a) == hash(b) ==> a == b }

  function Encode(ms: seq<Match>, p: Position, fingerprint: string, hash: Hash): Cursor
    requires p.index < |ms|
  {
    Cursor(VERSION, fingerprint, ms[p.index].docID, hash(ms[p.index].text), p.phase, p.offset)
  }

  /** decodeDocumentCursor's checks on a cursor that parses. */
  function Accept(c: Cursor, fingerprint: string): Result<Cursor, CursorError> {
    if c.version != VERSION || c.fingerprint != fingerprint || c.docID == "" then Err(Invalid) else Ok(c)
  }

  predicate Distinct(ms: seq<Match>) {
    forall i, j :: 0 <= i < j < |ms| ==> ms[i].docID != ms[j].docID
  }

  predicate Identified(ms: seq<Match>) {
    forall i :: 0 <= i < |ms| ==> ms[i].docID != ""
  }

  /** The position a cursor may resume at within the match it names. */
  predicate ResumesAt(m: Match, c: Cursor, hash: Hash) {
    && hash(m.text) == c.textHash
    && match c.phase
       case InText => c.offset < |m.text| && RuneStart(m.text[c.offset])
       case InAttachments => c.offset <= |m.attachments|
  }

  predicate IsFirst(ms: seq<Match>, i: int, docID: string) {
    0 <= i < |ms| && ms[i].docID == docID && forall k :: 0 <= k < i ==> ms[k].docID != docID
  }

  /** The first match of the cursor's identity decides, looking at the matches from i on. */
  function Resolved(c: Cursor, ms: seq<Match>, hash: Hash, i: nat): Result<Position, CursorError>
    requires i <= |ms|
    decreases |ms| - i
  {
    if i == |ms| then Err(Stale)
    else if ms[i].docID != c.docID then Resolved(c, ms, hash, i + 1)
    else if ResumesAt(ms[i], c, hash) then Ok(Position(i, c.phase, c.offset))
    else Err(Stale)
  }

  /** Where a fetch starts, or why its cursor is refused. */
  function StartOfFetch(ms: seq<Match>, cursor: Option<Cursor>, fingerprint: string, hash: Hash)
    : Result<Position, CursorError>
  {
    match cursor
    case None => Ok(Position(0, InText, 0))
    case Some(c) =>
      match Accept(c, fingerprint)
      case Err(e) => Err(e)
      case Ok(accepted) => Resolved(accepted, ms, hash, 0)
  }

  /** position: resolves to the first match of that identity, and only when its text and position still stand. */
  method Resolve(c: Cursor, ms: seq<Match>, hash: Hash) returns (r: Result<Position, CursorError>)
    ensures r == Resolved(c, ms, hash, 0)
    ensures r.Ok? ==>
              && IsFirst(ms, r.value.index, c.docID)
              && ResumesAt(ms[r.value.index], c, hash)
              && r.value.phase == c.phase && r.value.offset == c.offset
    ensures r.Err? ==>
              && r.error == Stale
              && (forall i :: IsFirst(ms, i, c.docID) ==> !ResumesAt(ms[i], c, hash))
  {
    for i := 0 to |ms|
      invariant forall k :: 0 <= k < i ==> ms[k].docID != c.docID
      invariant Resolved(c, ms, hash, i) == Resolved(c, ms, hash, 0)
    {
      var m := ms[i];
      if m.docID != c.docID {
        continue;
      }
      if hash(m.text) != c.textHash {
        return Err(Stale);
      }
      if c.phase == InText && (c.offset >= |m.text| || !RuneStart(m.text[c.offset])) {
        return Err(Stale);
      }
      if c.phase == InAttachments && c.offset > |m.attachments| {
        return Err(Stale);
      }
      return Ok(Position(i, c.phase, c.offset));
    }
    r := Err(Stale);
  }

  /** A position a page stopped at never stands at the end of a text. */
  lemma {:induction false} NextHasText(ms: seq<Match>, p: Position, docs: seq<Entry>, fits: Sizer)
    requires TextsValid(ms) && (p.index < |ms| ==> PositionOk(ms, p))
    requires var r := Build(ms, p, docs, fits); r.Page? && r.next.Some?
    ensures var next := Build(ms, p, docs, fits).next.value;
            PositionOk(ms, next) && (next.phase == InText ==> next.offset < |ms[next.index].text|)
    decreases |ms| - p.index
  {
    if p.index < |ms| {
      var m := ms[p.index];
      if p.phase == InText && p.offset < |m.text| {
        var end := TextStop(m, p.offset, docs, fits);
        if end == |m.text| {
          AfterPlacing(ms, p.index, WithText(HeaderOf(m), m.text, p.offset, end), 0, docs, true, fits);
        }
      } else {
        AfterPlacing(ms, p.index, HeaderOf(m), if p.phase == InText then 0 else p.offset, docs, false, fits);
      }
    }
  }

  lemma {:induction false} AfterPlacing(ms: seq<Match>, index: nat, e: Entry, offset: nat, docs: seq<Entry>,
                                        progressed: bool, fits: Sizer)
    requires TextsValid(ms) && index < |ms| && offset <= |ms[index].attachments|
    requires var r := Attach(ms, index, e, offset, docs, progressed, fits); r.Page? && r.next.Some?
    ensures var next := Attach(ms, index, e, offset, docs, progressed, fits).next.value;
            PositionOk(ms, next) && (next.phase == InText ==> next.offset < |ms[next.index].text|)
    decreases |ms| - index, 0
  {
    var placed := Place(ms[index], index, e, offset, docs, progressed, fits);
    if placed.Whole? {
      NextMatch(ms, index);
      NextHasText(ms, Position(index + 1, InText, 0), placed.documents, fits);
    }
  }

  lemma {:induction false} FirstIsResolved(c: Cursor, ms: seq<Match>, hash: Hash, i: nat, k: nat)
    requires i <= k < |ms| && ms[k].docID == c.docID && forall j :: i <= j < k ==> ms[j].docID != c.docID
    requires ResumesAt(ms[k], c, hash)
    ensures Resolved(c, ms, hash, i) == Ok(Position(k, c.phase, c.offset))
    decreases k - i
  {
    if i < k {
      FirstIsResolved(c, ms, hash, i + 1, k);
    }
  }

  /**
   * The cursor a page issues is accepted over the same matches, for the lookup it was issued for and no other, and
   * starts the next page exactly where that page stopped.
   */
  lemma CursorRoundTrips(ms: seq<Match>, start: Position, fits: Sizer, fingerprint: string, other: string, hash: Hash)
    requires TextsValid(ms) && PositionOk(ms, start) && Distinct(ms) && Identified(ms)
    requires var r := Build(ms, start, [], fits); r.Page? && r.next.Some?
    ensures var next := Build(ms, start, [], fits).next.value;
            && next.index < |ms|
            && var issued := Some(Encode(ms, next, fingerprint, hash));
            && StartOfFetch(ms, issued, fingerprint, hash) == Ok(next)
            && (other != fingerprint ==> StartOfFetch(ms, issued, other, hash) == Err(Invalid))
  {
    NextHasText(ms, start, [], fits);
    var next := Build(ms, start, [], fits).next.value;
    FirstIsResolved(Encode(ms, next, fingerprint, hash), ms, hash, 0, next.index);
  }

  lemma {:induction false} ResolvedResumes(c: Cursor, ms: seq<Match>, hash: Hash, i: nat)
    requires i <= |ms|
    ensures var r := Resolved(c, ms, hash, i);
            if r.Ok? then i <= r.value.index < |ms| && ms[r.value.index].docID == c.docID &&
                          ResumesAt(ms[r.value.index], c, hash) && r.value.phase == c.phase && r.value.offset == c.offset
            else r.error == Stale
    decreases |ms| - i
  {
    if i < |ms| && ms[i].docID != c.docID {
      ResolvedResumes(c, ms, hash, i + 1);
    }
  }

  /**
   * Resuming never mixes revisions: a cursor issued over one run of the lookup and accepted over another resumes in a
   * match of the same identity and the same text, at the same place in it. Otherwise it is stale.
   */
  lemma ResumesTheSameText(ms: seq<Match>, p: Position, again: seq<Match>, fingerprint: string, hash: Hash)
    requires p.index < |ms| && ms[p.index].docID != "" && Injective(hash)
    ensures var start := StartOfFetch(again, Some(Encode(ms, p, fingerprint, hash)), fingerprint, hash);
            if start.Ok? then
              && start.value.index < |again| && start.value.phase == p.phase && start.value.offset == p.offset
              && again[start.value.index].docID == ms[p.index].docID && again[start.value.index].text == ms[p.index].text
            else start.error == Stale
  {
    ResolvedResumes(Encode(ms, p, fingerprint, hash), again, hash, 0);
  }

  /** One fetch: resolve, build, issue. Over matches that do not change it continues the delivery chain. */
  method Fetch(ms: seq<Match>, cursor: Option<Cursor>, fingerprint: string, hash: Hash, fits: Sizer)
    returns (r: Result<(Built, Option<Cursor>), CursorError>, at: Position)
    requires TextsValid(ms)
    ensures var start := StartOfFetch(ms, cursor, fingerprint, hash);
            if start.Err? then r == Err(start.error) else r.Ok? && at == start.value
    ensures cursor.Some? && r == Err(Invalid) <==>
            cursor.Some? && (cursor.value.version != 1 || cursor.value.fingerprint != fingerprint || cursor.value.docID == "")
    ensures r.Ok? ==> (at.index < |ms| ==> PositionOk(ms, at)) && r.value.0 == Build(ms, at, [], fits)
    ensures r.Ok? && r.value.0.Page? && at.index < |ms| ==>
              LegalVisit(ms, Visit(at, r.value.0.documents, r.value.0.next))
    ensures r.Ok? && r.value.0.Page? ==>
              match r.value.0.next
              case None => r.value.1 == None
              case Some(next) => next.index < |ms| && r.value.1 == Some(Encode(ms, next, fingerprint, hash))
  {
    at := Position(0, InText, 0);
    if |ms| > 0 {
      StartIsBoundary(ms[0].text);
    }
    if cursor.Some? {
      var accepted := Accept(cursor.value, fingerprint);
      if accepted.Err? {
        return Err(accepted.error), at;
      }
      var resolved := Resolve(accepted.value, ms, hash);
      if resolved.Err? {
        return Err(resolved.error), at;
      }
      at := resolved.value;
    }
    var built := BuildDocumentPage(ms, at, fits);
    if built.Page? && at.index < |ms| {
      PageIsLegal(ms, at, fits);
    }
    var next := None;
    if built.Page? && built.next.Some? {
      NextHasText(ms, at, [], fits);
      next := Some(Encode(ms, built.next.value, fingerprint, hash));
    }
    r := Ok((built, next));
  }

  // ---- a lookup read to its end ----

  /** The pages a client gets who passes back each cursor, as it came, with the arguments of the first fetch. */
  ghost predicate Fetched(ms: seq<Match>, cursor: Option<Cursor>, fingerprint: string, hash: Hash, fits: Sizer,
                          visits: seq<Visit>)
    requires TextsValid(ms)
    decreases |visits|
  {
    && visits != []
    && var v := visits[0];
    && StartOfFetch(ms, cursor, fingerprint, hash) == Ok(v.at)
    && PositionOk(ms, v.at) && Build(ms, v.at, [], fits) == Page(v.documents, v.next)
    && (|visits| > 1 ==>
          && v.next.Some? && v.next.value.index < |ms|
          && Fetched(ms, Some(Encode(ms, v.next.value, fingerprint, hash)), fingerprint, hash, fits, visits[1..]))
  }

  lemma {:induction false} FetchesAreChain(ms: seq<Match>, cursor: Option<Cursor>, fingerprint: string, hash: Hash,
                                           fits: Sizer, visits: seq<Visit>)
    requires TextsValid(ms) && Distinct(ms) && Identified(ms) && Fetched(ms, cursor, fingerprint, hash, fits, visits)
    ensures Chain(ms, visits[0].at, visits)
    decreases |visits|
  {
    var v := visits[0];
    PageIsLegal(ms, v.at, fits);
    if |visits| > 1 {
      CursorRoundTrips(ms, v.at, fits, fingerprint, fingerprint, hash);
      FetchesAreChain(ms, Some(Encode(ms, v.next.value, fingerprint, hash)), fingerprint, hash, fits, visits[1..]);
    }
  }

  /** Fetching on with each cursor follows the positions one by one: no cursor of a reading is ever refused. */
  lemma {:induction false} FollowedByCursors(ms: seq<Match>, cursor: Option<Cursor>, p: Position, fingerprint: string,
                                             hash: Hash, fits: Sizer)
    requires TextsValid(ms) && Distinct(ms) && Identified(ms) && PositionOk(ms, p)
    requires StartOfFetch(ms, cursor, fingerprint, hash) == Ok(p) && Follow(ms, p, fits) != []
    ensures Fetched(ms, cursor, fingerprint, hash, fits, Follow(ms, p, fits))
    decreases Remaining(ms, Norm(ms, p))
  {
    var r := Build(ms, p, [], fits);
    PageIsLegal(ms, p, fits);
    if r.next.Some? {
      VisitAdvances(ms, Visit(p, r.documents, r.next));
      RemainingIsNatural(ms, r.next.value);
      CursorRoundTrips(ms, p, fits, fingerprint, fingerprint, hash);
      if Follow(ms, r.next.value, fits) != [] {
        FollowedByCursors(ms, Some(Encode(ms, r.next.value, fingerprint, hash)), r.next.value, fingerprint, hash, fits);
      }
    }
  }

  /**
   * A client who starts without a cursor and passes each one back until a page names none has every text and every
   * attachment, in order and once; where one entry always fits and no text has a short tail, that is what happens.
   */
  lemma LookupIsRead(ms: seq<Match>, fingerprint: string, hash: Hash, fits: Sizer)
    returns (visits: seq<Visit>, groups: seq<seq<Entry>>)
    requires TextsValid(ms) && |ms| > 0 && Distinct(ms) && Identified(ms) && RoomForOne(ms, fits)
    requires forall i :: 0 <= i < |ms| ==> NoShortTail(ms[i].text)
    ensures Fetched(ms, None, fingerprint, hash, fits, visits) && Completed(visits)
    ensures Flatten(groups) == Entries(visits) && |groups| == |ms|
    ensures forall i :: 0 <= i < |ms| ==>
              JoinText(groups[i]) == ms[i].text && JoinAttachments(groups[i]) == ms[i].attachments && TextFirst(groups[i])
  {
    visits, groups := ReadingDeliversAll(ms, fits);
    FollowedByCursors(ms, None, Position(0, InText, 0), fingerprint, hash, fits);
  }
}
