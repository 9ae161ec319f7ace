/**
 * Browsing a live mailbox in pages. The guarantee is over a whole series: whatever the page sizes and whatever is
 * ingested between pages, the pages together are the sorted list of what matched at the first one.
 */
module MailboxPaging {
  import opened Wrappers
  import opened Keyset
  import opened Fingerprint

  datatype Cursor = Cursor(version: string, order: Order, fingerprint: string, key: Key, snapshot: int)
  datatype Request = Request(filters: Filters, order: Order, limit: int, cursor: Option<Cursor>)
  datatype PageQuery = PageQuery(filters: Filters, order: Order, limit: nat, snapshot: int, after: Option<Key>)
  datatype Listing = Listing(
    messages: seq<Row>, filters: Filters, order: Order, snapshot: int, hasMore: bool, nextCursor: Option<Cursor>)
  datatype ListError = WrongVersion | WrongOrder | WrongFilters | NotAfterBoundary | OutOfOrder

  /** Page size bounds, the filter digest, and the clock the store stamps rows with. */
  datatype Service = Service(defaultLimit: nat, maxLimit: nat, text: TimeText, digest: Digest) {
    predicate Bounded() { defaultLimit > 0 && maxLimit > 0 }
  }
  type Store = PageQuery -> seq<Row>

  function Clamp(s: Service, limit: int): (l: nat)
    requires s.Bounded()
    ensures l >= 1
  {
    if limit <= 0 then s.defaultLimit else if limit > s.maxLimit then s.maxLimit else limit
  }

  function CursorFor(s: Service, k: Key, o: Order, f: Filters, snapshot: int): Cursor {
    Cursor(CURSOR_VERSION, o, Print(f, s.text, s.digest), k, snapshot)
  }

  /** cursorState.check, after the version check of decodeCursor. */
  function Check(s: Service, c: Cursor, o: Order, f: Filters): Result<(), ListError> {
    if c.version != CURSOR_VERSION then Err(WrongVersion)
    else if c.order != o then Err(WrongOrder)
    else if c.fingerprint != Print(f, s.text, s.digest) then Err(WrongFilters)
    else Ok(())
  }

  /** A cursor is accepted for the filters and the order it was issued for and no others, and refused for what differs. */
  lemma CursorBindsItsRequest(s: Service, k: Key, o: Order, f: Filters, snapshot: int, o': Order, f': Filters)
    requires Faithful(s.text, s.digest)
    ensures var checked := Check(s, CursorFor(s, k, o, f, snapshot), o', f');
            && (checked.Ok? <==> o' == o && f' == f)
            && (checked == Err(WrongOrder) <==> o' != o)
            && (checked == Err(WrongFilters) <==> o' == o && f' != f)
  {
    if Print(f, s.text, s.digest) == Print(f', s.text, s.digest) {
      FingerprintIdentifies(f, f', s.text, s.digest);
    }
  }

  /** A cursor of another version is refused as such, whatever else it says. */
  lemma VersionIsChecked(s: Service, c: Cursor, o: Order, f: Filters)
    ensures Check(s, c, o, f) == Err(WrongVersion) <==> c.version != "3"
  {
  }

  // ---- checking what the store returned ----

  /** Why a page is refused, looking at its rows in order. */
  function Refusal(rows: seq<Row>, o: Order, after: Option<Key>, i: nat): Option<ListError>
    requires i <= |rows|
    decreases |rows| - i
  {
    if i == |rows| then None
    else if after.Some? && !AfterKey(o, after.value, rows[i].key) then Some(NotAfterBoundary)
    else if i > 0 && !Before(o, rows[i - 1].key, rows[i].key) then Some(OutOfOrder)
    else Refusal(rows, o, after, i + 1)
  }

  /** verifyPage. */
  method VerifyPage(rows: seq<Row>, o: Order, after: Option<Key>) returns (r: Option<ListError>)
    ensures r == Refusal(rows, o, after, 0)
  {
    for i := 0 to |rows|
      invariant Refusal(rows, o, after, i) == Refusal(rows, o, after, 0)
    {
      if after.Some? && !AfterKey(o, after.value, rows[i].key) {
        return Some(NotAfterBoundary);
      }
      if i > 0 && !Before(o, rows[i - 1].key, rows[i].key) {
        return Some(OutOfOrder);
      }
    }
    r := None;
  }

  /** A refused page has a first row at fault, and the refusal says whether it is not past the boundary, or out of order. */
  lemma {:induction false} FirstFaultIsNamed(rows: seq<Row>, o: Order, after: Option<Key>, i: nat) returns (k: nat)
    requires i <= |rows| && Refusal(rows, o, after, i).Some?
    ensures i <= k < |rows| && forall j :: i <= j < k ==>
              (after.Some? ==> AfterKey(o, after.value, rows[j].key)) && (j > 0 ==> Before(o, rows[j - 1].key, rows[j].key))
    ensures var past := after.Some? ==> AfterKey(o, after.value, rows[k].key);
            && (Refusal(rows, o, after, i).value == NotAfterBoundary <==> !past)
            && (Refusal(rows, o, after, i).value == OutOfOrder <==>
                  past && k > 0 && !Before(o, rows[k - 1].key, rows[k].key))
    decreases |rows| - i
  {
    if Refusal(rows, o, after, i + 1) == Refusal(rows, o, after, i) &&
       (after.Some? ==> AfterKey(o, after.value, rows[i].key)) && (i > 0 ==> Before(o, rows[i - 1].key, rows[i].key)) {
      k := FirstFaultIsNamed(rows, o, after, i + 1);
    } else {
      k := i;
    }
  }

  /** Comparing neighbours is enough: an accepted page is strictly sorted and wholly past the boundary, and only such. */
  lemma {:induction false} AcceptedExactly(rows: seq<Row>, o: Order, after: Option<Key>, i: nat)
    requires i <= |rows| && Sorted(rows[..i], o)
    requires after.Some? ==> forall k :: 0 <= k < i ==> AfterKey(o, after.value, rows[k].key)
    ensures Refusal(rows, o, after, i).None? <==>
            Sorted(rows, o) && (after.Some? ==> forall k :: 0 <= k < |rows| ==> AfterKey(o, after.value, rows[k].key))
    decreases |rows| - i
  {
    if i == |rows| {
      assert rows[..i] == rows;
    } else if !(after.Some? && !AfterKey(o, after.value, rows[i].key)) && (i == 0 || Before(o, rows[i - 1].key, rows[i].key)) {
      forall k | 0 <= k < i ensures Before(o, rows[k].key, rows[i].key) {
        assert rows[..i][k] == rows[k] && rows[..i][i - 1] == rows[i - 1];
        BeforeIsStrictTotalOrder(o, rows[k].key, rows[i - 1].key, rows[i].key);
      }
      assert rows[..i + 1] == rows[..i] + [rows[i]];
      AcceptedExactly(rows, o, after, i + 1);
    }
  }

  // ---- one page ----

  function QueryOf(s: Service, req: Request, watermark: int): PageQuery
    requires s.Bounded()
  {
    PageQuery(req.filters, req.order, Clamp(s, req.limit) + 1,
              if req.cursor.Some? then req.cursor.value.snapshot else watermark,
              if req.cursor.Some? then Some(req.cursor.value.key) else None)
  }

  /** What one request answers. One row beyond the page decides whether there is more. */
  function ListPage(s: Service, store: Store, req: Request, watermark: int): Result<Listing, ListError>
    requires s.Bounded()
  {
    if req.cursor.Some? && Check(s, req.cursor.value, req.order, req.filters).Err?
    then Err(Check(s, req.cursor.value, req.order, req.filters).error)
    else
      var q := QueryOf(s, req, watermark);
      var rows := store(q);
      if Refusal(rows, req.order, q.after, 0).Some? then Err(Refusal(rows, req.order, q.after, 0).value)
      else
        var limit := Clamp(s, req.limit);
        var more := |rows| > limit;
        var page := if more then rows[..limit] else rows;
        Ok(Listing(page, req.filters, req.order, q.snapshot, more,
                   if more then Some(CursorFor(s, page[limit - 1].key, req.order, req.filters, q.snapshot)) else None))
  }

  /** At most so many messages, and when more remain exactly so many. */
  predicate Holds(l: Listing, size: nat) { |l.messages| <= size && (l.hasMore ==> |l.messages| == size) }

  /** A page is of the size asked for, of the largest size when more is asked for, and of the usual size unasked. */
  predicate SizedAsAsked(s: Service, asked: int, l: Listing) {
    && (1 <= asked <= s.maxLimit ==> Holds(l, asked))
    && (asked > s.maxLimit ==> Holds(l, s.maxLimit))
    && (asked <= 0 ==> Holds(l, s.defaultLimit))
  }

  lemma PageIsSizedAsAsked(s: Service, store: Store, req: Request, watermark: int)
    requires s.Bounded()
    ensures var r := ListPage(s, store, req, watermark); r.Ok? ==> SizedAsAsked(s, req.limit, r.value)
  {
    hide Check, Refusal, CursorFor;
  }

  function Truncated(s: Service, l: Listing, n: nat): Listing
    requires 1 <= n <= |l.messages|
  {
    l.(messages := l.messages[..n], hasMore := true,
       nextCursor := Some(CursorFor(s, l.messages[n - 1].key, l.order, l.filters, l.snapshot)))
  }

  class ListResult {
    const service: Service
    const filters: Filters
    const order: Order
    const snapshot: int
    var messages: seq<Row>
    var returned: nat
    var hasMore: bool
    var nextCursor: Option<Cursor>

    constructor (service: Service, l: Listing)
      ensures View() == l && this.service == service && returned == |l.messages|
    {
      this.service, filters, order, snapshot := service, l.filters, l.order, l.snapshot;
      messages, returned, hasMore, nextCursor := l.messages, |l.messages|, l.hasMore, l.nextCursor;
    }

    function View(): Listing
      reads this
    {
      Listing(messages, filters, order, snapshot, hasMore, nextCursor)
    }

    /** Shortens the page to its first n messages and re-issues the cursor after the last one kept. */
    method Truncate(n: int) returns (ok: bool)
      modifies this
      ensures ok <==> 1 <= n < |old(messages)|
      ensures !ok ==> View() == old(View()) && returned == old(returned)
      ensures ok ==> View() == Truncated(service, old(View()), n) && returned == n
    {
      if n < 1 || n >= |messages| {
        return false;
      }
      var last := messages[n - 1];
      nextCursor := Some(CursorFor(service, last.key, order, filters, snapshot));
      messages := messages[..n];
      returned := n;
      hasMore := true;
      ok := true;
    }
  }

  method ListMessages(s: Service, store: Store, req: Request, watermark: int) returns (r: Result<ListResult, ListError>)
    requires s.Bounded()
    ensures r.Ok? <==> ListPage(s, store, req, watermark).Ok?
    ensures r.Err? ==> r.error == ListPage(s, store, req, watermark).error
    ensures r.Ok? ==> fresh(r.value) && r.value.service == s && r.value.View() == ListPage(s, store, req, watermark).value
    ensures r.Ok? ==> SizedAsAsked(s, req.limit, r.value.View())
  {
    var limit := Clamp(s, req.limit);
    var snapshot, after := watermark, None;
    if req.cursor.Some? {
      var checked := Check(s, req.cursor.value, req.order, req.filters);
      if checked.Err? {
        return Err(checked.error);
      }
      snapshot := req.cursor.value.snapshot;
      after := Some(req.cursor.value.key);
    }
    var rows := store(PageQuery(req.filters, req.order, limit + 1, snapshot, after));
    var refusal := VerifyPage(rows, req.order, after);
    if refusal.Some? {
      return Err(refusal.value);
    }
    var hasMore := |rows| > limit;
    if hasMore {
      rows := rows[..limit];
    }
    var next := None;
    if hasMore && |rows| > 0 {
      next := Some(CursorFor(s, rows[|rows| - 1].key, req.order, req.filters, snapshot));
    }
    PageIsSizedAsAsked(s, store, req, watermark);
    var result := new ListResult(s, Listing(rows, req.filters, req.order, snapshot, hasMore, next));
    r := Ok(result);
  }

  // ---- the store's contract ----

  type Matches = (Filters, Row) -> bool

  ghost function Visible(db: set<Row>, matches: Matches, f: Filters, snapshot: int): set<Row> {
    set r | r in db && r.ingestedAt <= snapshot && matches(f, r)
  }

  /** The rows the browse query answers with: the snapshot bound, the filters and the keyset predicate, sorted, limited. */
  ghost function Select(db: set<Row>, matches: Matches, q: PageQuery): seq<Row>
    requires UniqueIDs(db)
  {
    var rows := set r | r in Visible(db, matches, q.filters, q.snapshot) &&
                        (q.after.Some? ==> KeysetPredicate(q.order, q.after.value, r.key.sentAt, r.key.docID) == True);
    var list := Sort(rows, q.order);
    if |list| > q.limit then list[..q.limit] else list
  }

  /** Ingestion between pages only adds rows, stamped after the watermark. */
  ghost predicate Grown(db: set<Row>, db': set<Row>, watermark: int) {
    db <= db' && forall r :: r in db' && r !in db ==> r.ingestedAt > watermark
  }

  lemma GrowthIsInvisible(db: set<Row>, db': set<Row>, matches: Matches, f: Filters, watermark: int)
    requires Grown(db, db', watermark)
    ensures Visible(db', matches, f, watermark) == Visible(db, matches, f, watermark)
  {
  }

  /** The position after c rows of the list, as a page boundary. */
  function BoundaryAt(list: seq<Row>, c: nat): Option<Key>
    requires c <= |list|
  {
    if c == 0 then None else Some(list[c - 1].key)
  }

  /** Selecting past the c-th row, however the mailbox has grown, continues the list of the first page. */
  lemma SelectContinues(db: set<Row>, db': set<Row>, matches: Matches, q: PageQuery, c: nat)
    requires UniqueIDs(db) && UniqueIDs(db') && Grown(db, db', q.snapshot)
    requires var list := Sort(Visible(db, matches, q.filters, q.snapshot), q.order);
             c <= |list| && q.after == BoundaryAt(list, c)
    ensures var list := Sort(Visible(db, matches, q.filters, q.snapshot), q.order);
            Select(db', matches, q) == if |list| - c > q.limit then list[c..c + q.limit] else list[c..]
  {
    GrowthIsInvisible(db, db', matches, q.filters, q.snapshot);
    var visible := Visible(db, matches, q.filters, q.snapshot);
    var list := Sort(visible, q.order);
    var rows := set r | r in visible &&
                        (q.after.Some? ==> KeysetPredicate(q.order, q.after.value, r.key.sentAt, r.key.docID) == True);
    if c == 0 {
      assert rows == visible;
      assert list[0..] == list;
    } else {
      forall r | r in visible
        ensures KeysetPredicate(q.order, q.after.value, r.key.sentAt, r.key.docID) == True <==>
                AfterKey(q.order, q.after.value, r.key)
      {
        KeysetIsAfterKey(q.order, q.after.value, r.key);
      }
      assert rows == set r | r in visible && AfterKey(q.order, list[c - 1].key, r.key);
      AfterBoundaryIsTheRest(visible, q.order, c);
    }
  }

  /** A store that keeps its contract is never refused. */
  lemma ContinuationIsAccepted(db: set<Row>, matches: Matches, f: Filters, snapshot: int, o: Order, c: nat, rows: seq<Row>)
    requires UniqueIDs(db)
    requires var list := Sort(Visible(db, matches, f, snapshot), o);
             c + |rows| <= |list| && rows == list[c..c + |rows|]
    ensures Refusal(rows, o, BoundaryAt(Sort(Visible(db, matches, f, snapshot), o), c), 0).None?
  {
    var list := Sort(Visible(db, matches, f, snapshot), o);
    SortSorts(Visible(db, matches, f, snapshot), o);
    AcceptedExactly(rows, o, BoundaryAt(list, c), 0);
  }

  // ---- a series ----

  /** One fetch of a series: the mailbox it saw, the page size asked for, and how many rows the transport kept. */
  datatype Fetch = Fetch(db: set<Row>, limit: int, kept: nat)

  ghost function StoreOver(db: set<Row>, matches: Matches): Store
    requires UniqueIDs(db)
  {
    q => Select(db, matches, q)
  }

  /** What a fetch hands the caller: the page, shortened when the transport kept fewer rows. */
  ghost function Handed(s: Service, matches: Matches, f: Fetch, req: Request, watermark: int): Result<Listing, ListError>
    requires s.Bounded() && UniqueIDs(f.db)
  {
    match ListPage(s, StoreOver(f.db, matches), req.(limit := f.limit), watermark)
    case Err(e) => Err(e)
    case Ok(l) => Ok(if 1 <= f.kept < |l.messages| then Truncated(s, l, f.kept) else l)
  }

  /** The caller follows next cursors until a page says there is no more, collecting `out`. */
  ghost predicate Series(s: Service, matches: Matches, first: set<Row>, watermark: int, req: Request,
                         fetches: seq<Fetch>, out: seq<Row>)
    requires s.Bounded() && UniqueIDs(first)
    decreases |fetches|
  {
    && fetches != []
    && UniqueIDs(fetches[0].db)
    && Grown(first, fetches[0].db, watermark)
    && var handed := Handed(s, matches, fetches[0], req, watermark);
    && handed.Ok?
    && handed.value.messages <= out
    && var rest := out[|handed.value.messages|..];
    && if handed.value.hasMore
       then
         && handed.value.nextCursor.Some?
         && Series(s, matches, first, watermark, req.(cursor := handed.value.nextCursor), fetches[1..], rest)
       else rest == [] && |fetches| == 1
  }

  /** The cursor that stands after c rows of the list of the first page. */
  function CursorAt(s: Service, list: seq<Row>, c: nat, o: Order, f: Filters, watermark: int): Option<Cursor>
    requires c <= |list|
  {
    if c == 0 then None else Some(CursorFor(s, list[c - 1].key, o, f, watermark))
  }

  /** The listing carries the rows of the list from c on, says truly whether more remain, and where they start. */
  ghost predicate Continues(s: Service, list: seq<Row>, c: nat, o: Order, f: Filters, watermark: int, l: Listing) {
    && var end := c + |l.messages|;
    && end <= |list| && l.messages == list[c..end]
    && l.filters == f && l.order == o && l.snapshot == watermark
    && (l.hasMore <==> end < |list|)
    && (l.hasMore ==> c < end && l.nextCursor == CursorAt(s, list, end, o, f, watermark))
  }

  lemma RowsContinue(s: Service, store: Store, req: Request, watermark: int, list: seq<Row>, c: nat, rows: seq<Row>)
    requires s.Bounded() && c <= |list|
    requires req.cursor == CursorAt(s, list, c, req.order, req.filters, watermark)
    requires var q := QueryOf(s, req, watermark);
             rows == store(q) && Refusal(rows, req.order, q.after, 0).None? &&
             rows == if |list| - c > q.limit then list[c..c + q.limit] else list[c..]
    ensures var l := ListPage(s, store, req, watermark);
            l.Ok? && Continues(s, list, c, req.order, req.filters, watermark, l.value)
  {
    hide Refusal, Print;
    var limit, end := Clamp(s, req.limit), c + |rows|;
    RestIsSlice(list, c);
    assert rows == list[c..end];
    if |rows| > limit {
      PrefixOfSlice(list, c, end, limit);
    }
  }

  lemma RestIsSlice<T>(list: seq<T>, c: nat)
    requires c <= |list|
    ensures list[c..] == list[c..|list|]
  {
  }

  lemma PrefixOfSlice<T>(list: seq<T>, c: nat, end: nat, n: nat)
    requires c <= end <= |list| && n <= end - c
    ensures list[c..end][..n] == list[c..c + n]
  {
  }

  lemma PageContinues(s: Service, matches: Matches, first: set<Row>, watermark: int, req: Request, db: set<Row>,
                      list: seq<Row>, c: nat)
    requires s.Bounded() && UniqueIDs(first) && UniqueIDs(db) && Grown(first, db, watermark)
    requires list == Sort(Visible(first, matches, req.filters, watermark), req.order) && c <= |list|
    requires req.cursor == CursorAt(s, list, c, req.order, req.filters, watermark)
    ensures var l := ListPage(s, StoreOver(db, matches), req, watermark);
            l.Ok? && Continues(s, list, c, req.order, req.filters, watermark, l.value)
  {
    var q := QueryOf(s, req, watermark);
    SelectContinues(first, db, matches, q, c);
    var rows := StoreOver(db, matches)(q);
    ContinuationIsAccepted(first, matches, req.filters, watermark, req.order, c, rows);
    RowsContinue(s, StoreOver(db, matches), req, watermark, list, c, rows);
  }

  /** Keeping fewer rows moves the boundary back with them: the rest is the start of the next page. */
  lemma TruncatedContinues(s: Service, list: seq<Row>, c: nat, o: Order, f: Filters, watermark: int, l: Listing, n: nat)
    requires Continues(s, list, c, o, f, watermark, l) && 1 <= n < |l.messages|
    ensures Continues(s, list, c, o, f, watermark, Truncated(s, l, n))
  {
    assert l.messages[..n] == list[c..c + n];
  }

  /** A fetch after c rows, truncated or not, hands over the next rows of the list. */
  lemma HandedContinues(s: Service, matches: Matches, first: set<Row>, watermark: int, req: Request, f: Fetch,
                        list: seq<Row>, c: nat)
    requires s.Bounded() && UniqueIDs(first) && UniqueIDs(f.db) && Grown(first, f.db, watermark)
    requires list == Sort(Visible(first, matches, req.filters, watermark), req.order) && c <= |list|
    requires req.cursor == CursorAt(s, list, c, req.order, req.filters, watermark)
    ensures var handed := Handed(s, matches, f, req, watermark);
            handed.Ok? && Continues(s, list, c, req.order, req.filters, watermark, handed.value)
  {
    var asked := req.(limit := f.limit);
    PageContinues(s, matches, first, watermark, asked, f.db, list, c);
    var l := ListPage(s, StoreOver(f.db, matches), asked, watermark).value;
    if 1 <= f.kept < |l.messages| {
      TruncatedContinues(s, list, c, req.order, req.filters, watermark, l, f.kept);
    }
  }

  lemma FirstFetchContinues(s: Service, matches: Matches, first: set<Row>, watermark: int, req: Request,
                            fetches: seq<Fetch>, out: seq<Row>, list: seq<Row>, c: nat)
    returns (l: Listing)
    requires s.Bounded() && UniqueIDs(first) && Series(s, matches, first, watermark, req, fetches, out)
    requires list == Sort(Visible(first, matches, req.filters, watermark), req.order) && c <= |list|
    requires req.cursor == CursorAt(s, list, c, req.order, req.filters, watermark)
    ensures Continues(s, list, c, req.order, req.filters, watermark, l) && l.messages <= out && fetches != []
    ensures if l.hasMore
            then Series(s, matches, first, watermark, req.(cursor := l.nextCursor), fetches[1..], out[|l.messages|..])
            else out[|l.messages|..] == [] && c + |l.messages| == |list|
  {
    HandedContinues(s, matches, first, watermark, req, fetches[0], list, c);
    l := Handed(s, matches, fetches[0], req, watermark).value;
  }

  lemma {:induction false} SeriesContinues(s: Service, matches: Matches, first: set<Row>, watermark: int, req: Request,
                                           fetches: seq<Fetch>, out: seq<Row>, list: seq<Row>, c: nat)
    requires s.Bounded() && UniqueIDs(first) && Series(s, matches, first, watermark, req, fetches, out)
    requires list == Sort(Visible(first, matches, req.filters, watermark), req.order) && c <= |list|
    requires req.cursor == CursorAt(s, list, c, req.order, req.filters, watermark)
    ensures out == list[c..]
    decreases |fetches|
  {
    hide Series, CursorAt, Sort, Visible;
    var l := FirstFetchContinues(s, matches, first, watermark, req, fetches, out, list, c);
    var end := c + |l.messages|;
    if l.hasMore {
      SeriesContinues(s, matches, first, watermark, req.(cursor := l.nextCursor), fetches[1..], out[|l.messages|..], list,
                      end);
    }
    RestJoins(out, l.messages, list, c);
  }

  lemma RestJoins(out: seq<Row>, page: seq<Row>, list: seq<Row>, c: nat)
    requires c + |page| <= |list| && page == list[c..c + |page|] && page <= out && out[|page|..] == list[c + |page|..]
    ensures out == list[c..]
  {
    assert out == page + out[|page|..];
    assert list[c..] == list[c..c + |page|] + list[c + |page|..];
  }

  /**
   * Whatever the filters, the order, the page sizes and the points a transport truncates at, and whatever is ingested
   * above the watermark between pages, the pages of a series together are exactly the sorted list of the rows that
   * matched at its first page: each once, none skipped.
   */
  lemma SeriesIsExact(s: Service, matches: Matches, first: set<Row>, watermark: int, req: Request,
                      fetches: seq<Fetch>, out: seq<Row>)
    requires s.Bounded() && UniqueIDs(first) && req.cursor.None?
    requires Series(s, matches, first, watermark, req, fetches, out)
    ensures out == Sort(Visible(first, matches, req.filters, watermark), req.order)
  {
    var list := Sort(Visible(first, matches, req.filters, watermark), req.order);
    SeriesContinues(s, matches, first, watermark, req, fetches, out, list, 0);
    assert list[0..] == list;
  }
}
