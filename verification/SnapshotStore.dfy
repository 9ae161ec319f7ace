/**
 * The session store behind evidence paging: frozen results, the cursors that name positions in them, a byte count, and
 * expiry and eviction. Class QueryTool updates the store in place; `Store` is its value, on which the guarantees over
 * every run of operations are stated.
 */
module SnapshotStore {
  import opened Wrappers
  import opened Seqs
  import opened EvidencePages
  import EvidenceDelivery

  type Token = string
  type Random = nat -> Option<Token>

  const TOKEN_TRIES := 16

  datatype Config = Config(ttl: int, maxSnapshots: int, maxBytes: int) {
    predicate Positive() { ttl > 0 && maxSnapshots > 0 && maxBytes > 0 }
  }
  /** A frozen result, its size in bytes, and what its own question, budget and warnings leave room for on a page. */
  datatype Snapshot = Snapshot(evidence: Evidence, fits: Sizer, size: nat, lastAccess: int, expires: int)
  datatype CursorState = CursorState(snapshotID: string, position: Position, nextToken: Option<Token>)
  datatype Store = Store(
    snapshots: map<string, Snapshot>, cursors: map<Token, CursorState>, reserved: set<string>, bytes: int)

  datatype Delivered = Delivered(page: Page, cursor: Option<Token>)
  datatype StoreError = Cancelled | CursorInvalid | DuplicateIdentity | ResultTooLarge | NoToken | PageFailed(e: PageError)
  type Outcome = Result<Delivered, StoreError>

  // ---- the invariant ----

  ghost function Sum(m: map<string, Snapshot>): nat {
    if m == map[] then 0 else var id :| id in m; m[id].size + Sum(m - {id})
  }

  /** The sum does not depend on which snapshot is taken out first. */
  lemma {:induction false} SumWithout(m: map<string, Snapshot>, id: string)
    requires id in m
    ensures Sum(m) == m[id].size + Sum(m - {id})
    decreases |m|
  {
    var k :| k in m && Sum(m) == m[k].size + Sum(m - {k});
    if k != id {
      SumWithout(m - {k}, id);
      SumWithout(m - {id}, k);
      assert m - {k} - {id} == m - {id} - {k};
    }
  }

  /** A cursor names a live snapshot at a position that can be read, and its successor token the position that follows. */
  ghost predicate CursorOk(s: Store, c: Token)
    requires c in s.cursors
  {
    var state := s.cursors[c];
    && state.snapshotID in s.snapshots
    && var ev := s.snapshots[state.snapshotID].evidence;
    && Deliverable(ev)
    && PositionOk(ev, state.position)
    && (state.nextToken.Some? ==>
          && state.nextToken.value in s.cursors
          && var successor := s.cursors[state.nextToken.value];
          && successor.snapshotID == state.snapshotID
          && var built := PageAt(ev, state.position, false, s.snapshots[state.snapshotID].fits);
          && built.Ok?
          && built.value.next == Some(successor.position))
  }

  ghost predicate Inv(s: Store, cfg: Config) {
    && cfg.Positive()
    && s.bytes == Sum(s.snapshots)
    && s.bytes <= cfg.maxBytes
    && |s.snapshots| <= cfg.maxSnapshots
    && (forall id :: id in s.snapshots ==> Deliverable(s.snapshots[id].evidence))
    && (forall c :: c in s.cursors ==> CursorOk(s, c))
  }

  /** What a cursor pages through: neither reading nor time changes it. */
  ghost predicate SameResult(a: Snapshot, b: Snapshot) { a.evidence == b.evidence && a.fits == b.fits }

  /** Nothing but the cursor, its evidence and where its successor points decides whether the cursor is well formed. */
  lemma CursorOkFrame(s: Store, s': Store, c: Token)
    requires c in s.cursors && CursorOk(s, c) && c in s'.cursors && s'.cursors[c] == s.cursors[c]
    requires var id := s.cursors[c].snapshotID;
             id in s'.snapshots && SameResult(s.snapshots[id], s'.snapshots[id])
    requires var t := s.cursors[c].nextToken;
             t.Some? ==> t.value in s'.cursors && s'.cursors[t.value].snapshotID == s.cursors[t.value].snapshotID &&
                         s'.cursors[t.value].position == s.cursors[t.value].position
    ensures CursorOk(s', c)
  {
  }

  const EMPTY := Store(map[], map[], {}, 0)

  // ---- removal, expiry, eviction ----

  /** removeSnapshotLocked: the snapshot goes with every cursor that names it. */
  function Remove(s: Store, id: string): Store {
    if id !in s.snapshots then s
    else Store(s.snapshots - {id},
               map c | c in s.cursors && s.cursors[c].snapshotID != id :: s.cursors[c],
               s.reserved, s.bytes - s.snapshots[id].size)
  }

  lemma RemoveKeepsInv(s: Store, cfg: Config, id: string)
    requires Inv(s, cfg)
    ensures Inv(Remove(s, id), cfg)
  {
    if id in s.snapshots {
      SumWithout(s.snapshots, id);
      var s' := Remove(s, id);
      forall c | c in s'.cursors ensures CursorOk(s', c) {
        assert CursorOk(s, c);
      }
    }
  }

  predicate Live(s: Store, now: int, id: string) { id in s.snapshots && now < s.snapshots[id].expires }

  /** cleanupExpiredLocked: what is left is exactly what has not expired. */
  ghost function Clean(s: Store, now: int): Store {
    var live := map id | id in s.snapshots && Live(s, now, id) :: s.snapshots[id];
    Store(live, map c | c in s.cursors && Live(s, now, s.cursors[c].snapshotID) :: s.cursors[c], s.reserved, Sum(live))
  }

  /** s is before with some snapshots, and exactly their cursors, taken out. */
  ghost predicate OnlyRemoved(before: Store, s: Store) {
    && s.reserved == before.reserved
    && (forall id :: id in s.snapshots ==> id in before.snapshots && s.snapshots[id] == before.snapshots[id])
    && (forall c :: c in s.cursors <==> c in before.cursors && before.cursors[c].snapshotID in s.snapshots)
    && (forall c :: c in s.cursors ==> s.cursors[c] == before.cursors[c])
  }

  lemma RemoveOnlyRemoves(before: Store, s: Store, id: string)
    requires OnlyRemoved(before, s)
    ensures OnlyRemoved(before, Remove(s, id))
  {
  }

  lemma RemovedIsClean(before: Store, s: Store, cfg: Config, now: int)
    requires OnlyRemoved(before, s) && s.bytes == Sum(s.snapshots)
    requires forall id :: id in before.snapshots ==> (id in s.snapshots <==> Live(before, now, id))
    ensures s == Clean(before, now)
  {
    assert s.snapshots == Clean(before, now).snapshots;
    assert s.cursors == Clean(before, now).cursors;
  }

  predicate IsOldest(s: Store, id: string) {
    id in s.snapshots && forall k :: k in s.snapshots ==> s.snapshots[id].lastAccess <= s.snapshots[k].lastAccess
  }

  predicate NeedsRoom(s: Store, cfg: Config, size: nat) {
    |s.snapshots| >= cfg.maxSnapshots || s.bytes + size > cfg.maxBytes
  }

  /** Least recently used snapshots go one at a time, and only while the new one has no room. */
  ghost predicate EvictedFor(s: Store, s': Store, cfg: Config, size: nat)
    decreases |s.snapshots|
  {
    if NeedsRoom(s, cfg, size) && |s.snapshots| > 0
    then exists id :: IsOldest(s, id) && EvictedFor(Remove(s, id), s', cfg, size)
    else s' == s
  }

  lemma {:induction false} EvictionMakesRoom(s: Store, s': Store, cfg: Config, size: nat)
    requires Inv(s, cfg) && EvictedFor(s, s', cfg, size) && size <= cfg.maxBytes
    ensures Inv(s', cfg) && !NeedsRoom(s', cfg, size)
    decreases |s.snapshots|
  {
    if NeedsRoom(s, cfg, size) && |s.snapshots| > 0 {
      var id :| IsOldest(s, id) && EvictedFor(Remove(s, id), s', cfg, size);
      RemoveKeepsInv(s, cfg, id);
      EvictionMakesRoom(Remove(s, id), s', cfg, size);
    } else {
      assert |s.snapshots| == 0 ==> s.snapshots == map[] && Sum(map[]) == 0;
    }
  }

  /** Eviction only takes snapshots out, each with its cursors. */
  lemma {:induction false} EvictionOnlyRemoves(before: Store, s: Store, s': Store, cfg: Config, size: nat)
    requires OnlyRemoved(before, s) && EvictedFor(s, s', cfg, size)
    ensures OnlyRemoved(before, s')
    decreases |s.snapshots|
  {
    if NeedsRoom(s, cfg, size) && |s.snapshots| > 0 {
      var id :| IsOldest(s, id) && EvictedFor(Remove(s, id), s', cfg, size);
      RemoveOnlyRemoves(before, s, id);
      EvictionOnlyRemoves(before, Remove(s, id), s', cfg, size);
    }
  }

  lemma {:induction false} EvictionShrinks(s: Store, s': Store, cfg: Config, size: nat)
    requires EvictedFor(s, s', cfg, size)
    ensures s'.snapshots.Keys <= s.snapshots.Keys
    decreases |s.snapshots|
  {
    if NeedsRoom(s, cfg, size) && |s.snapshots| > 0 {
      var id :| IsOldest(s, id) && EvictedFor(Remove(s, id), s', cfg, size);
      EvictionShrinks(Remove(s, id), s', cfg, size);
    }
  }

  /** Everything evicted was used no later than anything that survives. */
  lemma {:induction false} EvictionTakesTheOldest(s: Store, s': Store, cfg: Config, size: nat, out: string, kept: string)
    requires EvictedFor(s, s', cfg, size) && out in s.snapshots && out !in s'.snapshots && kept in s'.snapshots
    ensures kept in s.snapshots && s.snapshots[out].lastAccess <= s.snapshots[kept].lastAccess
    decreases |s.snapshots|
  {
    EvictionShrinks(s, s', cfg, size);
    if NeedsRoom(s, cfg, size) && |s.snapshots| > 0 {
      var id :| IsOldest(s, id) && EvictedFor(Remove(s, id), s', cfg, size);
      if out != id {
        EvictionTakesTheOldest(Remove(s, id), s', cfg, size, out, kept);
      }
    }
  }

  // ---- tokens ----

  /** newCursorLocked: the first of sixteen draws that names no cursor; a failed draw ends the search. */
  function FreshToken(cursors: map<Token, CursorState>, random: Random, tries: nat): (r: Option<Token>)
    requires tries <= TOKEN_TRIES
    ensures r.Some? ==> r.value !in cursors
    decreases TOKEN_TRIES - tries
  {
    if tries == TOKEN_TRIES then None
    else match random(tries)
      case None => None
      case Some(t) => if t !in cursors then Some(t) else FreshToken(cursors, random, tries + 1)
  }

  /** Some draw names no cursor, and no draw before it fails. */
  ghost predicate DrawsFresh(cursors: map<Token, CursorState>, random: Random, tries: nat) {
    exists i :: tries <= i < 16 && random(i).Some? && random(i).value !in cursors &&
                forall k :: tries <= k < i ==> random(k).Some?
  }

  /** A token is found exactly when one of sixteen draws is fresh before any fails. */
  lemma {:induction false} FreshTokenExactly(cursors: map<Token, CursorState>, random: Random, tries: nat)
    requires tries <= 16
    ensures FreshToken(cursors, random, tries).Some? <==> DrawsFresh(cursors, random, tries)
    decreases 16 - tries
  {
    if tries < 16 {
      FreshTokenExactly(cursors, random, tries + 1);
      if DrawsFresh(cursors, random, tries + 1) && random(tries).Some? {
        var i :| tries + 1 <= i < 16 && random(i).Some? && random(i).value !in cursors &&
                 forall k :: tries + 1 <= k < i ==> random(k).Some?;
        assert forall k :: tries <= k < i ==> random(k).Some?;
      }
    }
  }

  // ---- storing a result ----

  /** What becomes of a result once there is room for it. */
  function Admit(s: Store, cfg: Config, id: string, ev: Evidence, fits: Sizer, size: nat, now: int, random: Random): (Store, Outcome) {
    var stored := Stored(s, cfg, id, ev, fits, size, now);
    match IndexBuilt(ev, SearchPage, 0, fits)
    case Err(e) => (Remove(stored, id), Err(PageFailed(e)))
    case Ok(built) =>
      match built.next
      case None =>
        (Remove(stored, id), if fits(built.page) then Ok(Delivered(built.page, None)) else Err(PageFailed(TooLarge)))
      case Some(next) =>
        match FreshToken(s.cursors, random, 0)
        case None => (Remove(stored, id), Err(NoToken))
        case Some(t) =>
          var issued := stored.(cursors := s.cursors[t := CursorState(id, next, None)]);
          if fits(built.page) then (issued, Ok(Delivered(built.page, Some(t))))
          else (Remove(issued, id), Err(PageFailed(TooLarge)))
  }

  /** storeSearchResult. */
  ghost predicate Stores(s: Store, s': Store, cfg: Config, id: string, ev: Evidence, fits: Sizer, size: nat, now: int,
                         random: Random, r: Outcome)
  {
    var s0 := s.(reserved := s.reserved - {id});
    if id in s.snapshots then s' == s0 && r == Err(DuplicateIdentity)
    else if size > cfg.maxBytes then s' == Clean(s0, now) && r == Err(ResultTooLarge)
    else exists room ::
        EvictedFor(Clean(s0, now), room, cfg, size) && (s', r) == Admit(room, cfg, id, ev, fits, size, now, random)
  }

  // ---- reading a page ----

  /** readEvidencePage once its cursor has been found live. */
  function ReadLive(s: Store, cfg: Config, cursor: Token, now: int, random: Random): (Store, Outcome)
    requires cursor in s.cursors && s.cursors[cursor].snapshotID in s.snapshots
    requires var ev := s.snapshots[s.cursors[cursor].snapshotID].evidence;
             Deliverable(ev) && PositionOk(ev, s.cursors[cursor].position)
  {
    var state := s.cursors[cursor];
    var fits := s.snapshots[state.snapshotID].fits;
    match PageAt(s.snapshots[state.snapshotID].evidence, state.position, false, fits)
    case Err(e) => (s, Err(PageFailed(e)))
    case Ok(built) =>
      var token := if state.nextToken.Some? then state.nextToken else FreshToken(s.cursors, random, 0);
      if built.next.Some? && token.None? then (s, Err(NoToken))
      else
        var issued := if built.next.Some? && state.nextToken.None? then Issue(s, cursor, built.next.value, token.value)
                      else s;
        if !fits(built.page) then (issued, Err(PageFailed(TooLarge)))
        else (Touch(issued, state.snapshotID, now, cfg.ttl),
              Ok(Delivered(built.page, if built.next.Some? then token else None)))
  }

  /** readEvidencePage. */
  ghost function Read(s: Store, cfg: Config, cursor: Token, now: int, random: Random): (Store, Outcome)
    requires Inv(s, cfg)
  {
    var clean := Clean(s, now);
    if cursor !in clean.cursors then (clean, Err(CursorInvalid))
    else
      assert CursorOk(s, cursor);
      ReadLive(clean, cfg, cursor, now, random)
  }

  /** Remembers `token` as the successor of `cursor`, at position `next`. */
  function Issue(s: Store, cursor: Token, next: Position, token: Token): Store
    requires cursor in s.cursors
  {
    var state := s.cursors[cursor];
    s.(cursors := s.cursors[cursor := state.(nextToken := Some(token))]
                           [token := CursorState(state.snapshotID, next, None)])
  }

  function Touch(s: Store, id: string, now: int, ttl: int): Store
    requires id in s.snapshots
  {
    s.(snapshots := s.snapshots[id := s.snapshots[id].(lastAccess := now, expires := now + ttl)])
  }

  // ---- every operation keeps the invariant ----

  lemma {:induction false} SumOfPart(m: map<string, Snapshot>, part: map<string, Snapshot>)
    requires part.Keys <= m.Keys && forall id :: id in part ==> part[id].size == m[id].size
    ensures Sum(part) <= Sum(m) && |part| <= |m|
    ensures part.Keys == m.Keys ==> Sum(part) == Sum(m)
    decreases |m|
  {
    if m == map[] {
      assert part.Keys == {};
      assert part == map[];
    } else {
      var k :| k in m;
      SumWithout(m, k);
      if k in part {
        SumWithout(part, k);
        SumOfPart(m - {k}, part - {k});
      } else {
        SumOfPart(m - {k}, part);
      }
    }
  }

  lemma CleanKeepsInv(s: Store, cfg: Config, now: int)
    requires Inv(s, cfg)
    ensures Inv(Clean(s, now), cfg)
  {
    var s' := Clean(s, now);
    SumOfPart(s.snapshots, s'.snapshots);
    forall c | c in s'.cursors ensures CursorOk(s', c) {
      assert CursorOk(s, c);
    }
  }

  /** Giving a cursor its successor keeps the invariant when that is where its page says to go on. */
  lemma IssueKeepsOthers(s: Store, cursor: Token, next: Position, token: Token, c: Token)
    requires cursor in s.cursors && token !in s.cursors && s.cursors[cursor].snapshotID in s.snapshots
    requires c in s.cursors && c != cursor && CursorOk(s, c)
    ensures CursorOk(Issue(s, cursor, next, token), c)
  {
    CursorOkFrame(s, Issue(s, cursor, next, token), c);
  }

  lemma IssueKeepsInv(s: Store, cfg: Config, cursor: Token, next: Position, token: Token)
    requires Inv(s, cfg) && cursor in s.cursors && s.cursors[cursor].nextToken.None? && token !in s.cursors
    requires var st := s.cursors[cursor];
             st.snapshotID in s.snapshots &&
             var ev := s.snapshots[st.snapshotID].evidence;
             Deliverable(ev) && PositionOk(ev, st.position) && PositionOk(ev, next) &&
             var built := PageAt(ev, st.position, false, s.snapshots[st.snapshotID].fits); built.Ok? && built.value.next == Some(next)
    ensures Inv(Issue(s, cursor, next, token), cfg)
  {
    var s' := Issue(s, cursor, next, token);
    assert CursorOk(s', cursor) && CursorOk(s', token);
    forall c | c in s'.cursors ensures CursorOk(s', c) {
      if c != token && c != cursor {
        IssueKeepsOthers(s, cursor, next, token, c);
      }
    }
  }

  lemma TouchKeepsInv(s: Store, cfg: Config, id: string, now: int)
    requires Inv(s, cfg) && id in s.snapshots
    ensures Inv(Touch(s, id, now, cfg.ttl), cfg)
  {
    var s' := Touch(s, id, now, cfg.ttl);
    assert s'.snapshots.Keys == s.snapshots.Keys;
    SumOfPart(s.snapshots, s'.snapshots);
    forall c | c in s'.cursors ensures CursorOk(s', c) {
      assert CursorOk(s, c);
    }
  }

  /** Where a page says to go on is a position that can be read. */
  lemma NextIsReadable(ev: Evidence, at: Position, search: bool, fits: Sizer)
    requires Deliverable(ev) && PositionOk(ev, at)
    ensures var r := PageAt(ev, at, search, fits); r.Ok? && r.value.next.Some? ==> PositionOk(ev, r.value.next.value)
  {
    EvidenceDelivery.PageIsLegal(ev, at, search, fits);
    var r := PageAt(ev, at, search, fits);
    if r.Ok? && r.value.next.Some? {
      EvidenceDelivery.VisitAdvances(ev, EvidenceDelivery.Visit(at, r.value));
    }
  }

  lemma ReadKeepsInv(s: Store, cfg: Config, cursor: Token, now: int, random: Random)
    requires Inv(s, cfg)
    ensures Inv(Read(s, cfg, cursor, now, random).0, cfg)
  {
    CleanKeepsInv(s, cfg, now);
    var clean := Clean(s, now);
    if cursor in clean.cursors {
      assert CursorOk(clean, cursor);
      var state := clean.cursors[cursor];
      var ev := clean.snapshots[state.snapshotID].evidence;
      NextIsReadable(ev, state.position, false, clean.snapshots[state.snapshotID].fits);
      var page := PageAt(ev, state.position, false, clean.snapshots[state.snapshotID].fits);
      if page.Ok? && page.value.next.Some? && state.nextToken.None? {
        var token := FreshToken(clean.cursors, random, 0);
        if token.Some? {
          IssueKeepsInv(clean, cfg, cursor, page.value.next.value, token.value);
          TouchKeepsInv(Issue(clean, cursor, page.value.next.value, token.value), cfg, state.snapshotID, now);
        }
      } else {
        TouchKeepsInv(clean, cfg, state.snapshotID, now);
      }
    }
  }

  function Stored(s: Store, cfg: Config, id: string, ev: Evidence, fits: Sizer, size: nat, now: int): Store {
    s.(snapshots := s.snapshots[id := Snapshot(ev, fits, size, now, now + cfg.ttl)], bytes := s.bytes + size)
  }

  lemma SumWith(m: map<string, Snapshot>, id: string, added: Snapshot)
    requires id !in m
    ensures Sum(m[id := added]) == Sum(m) + added.size && |m[id := added]| == |m| + 1
  {
    var m' := m[id := added];
    SumWithout(m', id);
    assert m' - {id} == m;
    assert m'.Keys == m.Keys + {id};
  }

  lemma StoredKeepsCursors(s: Store, cfg: Config, id: string, ev: Evidence, fits: Sizer, size: nat, now: int)
    requires id !in s.snapshots && forall c :: c in s.cursors ==> CursorOk(s, c)
    ensures var s' := Stored(s, cfg, id, ev, fits, size, now); forall c :: c in s'.cursors ==> CursorOk(s', c)
  {
    var s' := Stored(s, cfg, id, ev, fits, size, now);
    forall c | c in s'.cursors ensures CursorOk(s', c) {
      CursorOkFrame(s, s', c);
    }
  }

  lemma StoredKeepsInv(s: Store, cfg: Config, id: string, ev: Evidence, fits: Sizer, size: nat, now: int)
    requires Inv(s, cfg) && !NeedsRoom(s, cfg, size) && id !in s.snapshots && Deliverable(ev)
    ensures Inv(Stored(s, cfg, id, ev, fits, size, now), cfg)
  {
    hide CursorOk, Deliverable, Sum;
    StoredKeepsCursors(s, cfg, id, ev, fits, size, now);
    SumWith(s.snapshots, id, Snapshot(ev, fits, size, now, now + cfg.ttl));
  }

  lemma FirstCursorKeepsInv(s: Store, cfg: Config, id: string, next: Position, t: Token)
    requires Inv(s, cfg) && id in s.snapshots && t !in s.cursors && PositionOk(s.snapshots[id].evidence, next)
    ensures Inv(s.(cursors := s.cursors[t := CursorState(id, next, None)]), cfg)
  {
    var s' := s.(cursors := s.cursors[t := CursorState(id, next, None)]);
    forall c | c in s'.cursors ensures CursorOk(s', c) {
      if c != t {
        assert CursorOk(s, c);
        CursorOkFrame(s, s', c);
      }
    }
  }

  lemma AdmitKeepsInv(s: Store, cfg: Config, id: string, ev: Evidence, fits: Sizer, size: nat, now: int, random: Random)
    requires Inv(s, cfg) && !NeedsRoom(s, cfg, size) && id !in s.snapshots && Deliverable(ev)
    ensures Inv(Admit(s, cfg, id, ev, fits, size, now, random).0, cfg)
  {
    var stored := Stored(s, cfg, id, ev, fits, size, now);
    StoredKeepsInv(s, cfg, id, ev, fits, size, now);
    RemoveKeepsInv(stored, cfg, id);
    NextIsReadable(ev, AtIndex(0), true, fits);
    var built := IndexBuilt(ev, SearchPage, 0, fits);
    var token := FreshToken(s.cursors, random, 0);
    if built.Ok? && built.value.next.Some? && token.Some? {
      FirstCursorKeepsInv(stored, cfg, id, built.value.next.value, token.value);
      RemoveKeepsInv(stored.(cursors := s.cursors[token.value := CursorState(id, built.value.next.value, None)]), cfg, id);
    }
  }

  lemma ReservedKeepsInv(s: Store, cfg: Config, reserved: set<string>)
    requires Inv(s, cfg)
    ensures Inv(s.(reserved := reserved), cfg)
  {
    var s' := s.(reserved := reserved);
    forall c | c in s'.cursors ensures CursorOk(s', c) {
      assert CursorOk(s, c);
      CursorOkFrame(s, s', c);
    }
  }

  lemma RoomFor(s: Store, room: Store, cfg: Config, id: string, size: nat, now: int)
    requires Inv(s, cfg) && id !in s.snapshots && size <= cfg.maxBytes
    requires EvictedFor(Clean(s, now), room, cfg, size)
    ensures Inv(room, cfg) && !NeedsRoom(room, cfg, size) && id !in room.snapshots
  {
    CleanKeepsInv(s, cfg, now);
    EvictionMakesRoom(Clean(s, now), room, cfg, size);
    EvictionShrinks(Clean(s, now), room, cfg, size);
  }

  lemma StoreKeepsInv(s: Store, s': Store, cfg: Config, id: string, ev: Evidence, fits: Sizer, size: nat, now: int,
                      random: Random, r: Outcome)
    requires Inv(s, cfg) && Deliverable(ev) && Stores(s, s', cfg, id, ev, fits, size, now, random, r)
    ensures Inv(s', cfg)
  {
    var s0 := s.(reserved := s.reserved - {id});
    ReservedKeepsInv(s, cfg, s.reserved - {id});
    if id !in s.snapshots {
      CleanKeepsInv(s0, cfg, now);
      if size <= cfg.maxBytes {
        var room :| EvictedFor(Clean(s0, now), room, cfg, size) &&
                    (s', r) == Admit(room, cfg, id, ev, fits, size, now, random);
        RoomFor(s0, room, cfg, id, size, now);
        AdmitKeepsInv(room, cfg, id, ev, fits, size, now, random);
      }
    }
  }

  /** Any operation the session can perform. */
  ghost predicate Step(s: Store, s': Store, cfg: Config)
    requires Inv(s, cfg)
  {
    || (exists cursor, now, random :: s' == Read(s, cfg, cursor, now, random).0)
    || (exists id, ev, fits, size: nat, now, random, r :: Deliverable(ev) && Stores(s, s', cfg, id, ev, fits, size, now, random, r))
    || (exists reserved :: s' == s.(reserved := reserved))
    || s' == EMPTY
  }

  lemma StepKeepsInv(s: Store, s': Store, cfg: Config)
    requires Inv(s, cfg) && Step(s, s', cfg)
    ensures Inv(s', cfg)
  {
    if cursor, now, random :| s' == Read(s, cfg, cursor, now, random).0 {
      ReadKeepsInv(s, cfg, cursor, now, random);
    } else if id, ev, fits, size: nat, now, random, r :| Deliverable(ev) && Stores(s, s', cfg, id, ev, fits, size, now, random, r) {
      StoreKeepsInv(s, s', cfg, id, ev, fits, size, now, random, r);
    } else if s' != EMPTY {
      ReservedKeepsInv(s, cfg, s'.reserved);
    }
  }

  /** A run of the session from an empty store; Step says what may follow a well-formed state. */
  ghost predicate Run(states: seq<Store>, cfg: Config) {
    && cfg.Positive()
    && |states| > 0
    && states[0] == EMPTY
    && Steps(states, cfg)
  }

  ghost predicate Steps(states: seq<Store>, cfg: Config) {
    forall k :: 0 <= k < |states| - 1 ==> Inv(states[k], cfg) ==> Step(states[k], states[k + 1], cfg)
  }

  lemma {:induction false} StepsKeepInv(states: seq<Store>, cfg: Config, n: nat)
    requires Steps(states, cfg) && n < |states| && Inv(states[0], cfg)
    ensures Inv(states[n], cfg)
  {
    if n > 0 {
      StepsKeepInv(states, cfg, n - 1);
      StepKeepsInv(states[n - 1], states[n], cfg);
    }
  }

  /** In every state of every run the byte count, the bounds and every cursor are as they should be. */
  lemma RunKeepsInv(states: seq<Store>, cfg: Config, n: nat)
    requires Run(states, cfg) && n < |states|
    ensures Inv(states[n], cfg)
    ensures states[n].bytes == Sum(states[n].snapshots) <= cfg.maxBytes && |states[n].snapshots| <= cfg.maxSnapshots
  {
    StepsKeepInv(states, cfg, n);
  }

  // ---- re-reading a cursor ----

  /** The cursor is live in s under the snapshot called id. */
  predicate Names(s: Store, c: Token, id: string) {
    c in s.cursors && s.cursors[c].snapshotID == id && id in s.snapshots
  }

  /** A live cursor keeps its position, the evidence behind it, and the successor it has been given. */
  ghost predicate Keeps(s: Store, s': Store, c: Token, id: string)
    requires Names(s, c, id) && Names(s', c, id)
  {
    && s'.cursors[c].position == s.cursors[c].position
    && SameResult(s.snapshots[id], s'.snapshots[id])
    && (s.cursors[c].nextToken.Some? ==> s'.cursors[c].nextToken == s.cursors[c].nextToken)
  }

  lemma AdmitKeepsCursor(s: Store, room: Store, cfg: Config, nid: string, ev: Evidence, fits: Sizer, size: nat, now: int,
                         random: Random, c: Token, id: string)
    requires OnlyRemoved(s, room) && nid !in s.snapshots && Names(s, c, id)
    requires var s' := Admit(room, cfg, nid, ev, fits, size, now, random).0; Names(s', c, id)
    ensures Keeps(s, Admit(room, cfg, nid, ev, fits, size, now, random).0, c, id)
  {
  }

  lemma CleanOnlyRemoves(s: Store, cfg: Config, now: int)
    requires Inv(s, cfg)
    ensures OnlyRemoved(s, Clean(s, now))
  {
    forall c | c in s.cursors ensures s.cursors[c].snapshotID in s.snapshots {
      assert CursorOk(s, c);
    }
  }

  lemma StoreKeepsCursor(s: Store, s': Store, cfg: Config, nid: string, ev: Evidence, fits: Sizer, size: nat, now: int,
                         random: Random, r: Outcome, c: Token, id: string)
    requires Inv(s, cfg) && Stores(s, s', cfg, nid, ev, fits, size, now, random, r) && Names(s, c, id) && Names(s', c, id)
    ensures Keeps(s, s', c, id)
  {
    var s0 := s.(reserved := s.reserved - {nid});
    if nid !in s.snapshots {
      ReservedKeepsInv(s, cfg, s.reserved - {nid});
      CleanOnlyRemoves(s0, cfg, now);
      if size <= cfg.maxBytes {
        var room :| EvictedFor(Clean(s0, now), room, cfg, size) &&
                    (s', r) == Admit(room, cfg, nid, ev, fits, size, now, random);
        EvictionOnlyRemoves(s0, Clean(s0, now), room, cfg, size);
        AdmitKeepsCursor(s0, room, cfg, nid, ev, fits, size, now, random, c, id);
      }
    }
  }

  lemma IssueKeepsCursor(s: Store, cursor: Token, next: Position, token: Token, c: Token, id: string)
    requires cursor in s.cursors && s.cursors[cursor].nextToken.None? && token !in s.cursors
    requires Names(s, c, id)
    ensures Names(Issue(s, cursor, next, token), c, id) && Keeps(s, Issue(s, cursor, next, token), c, id)
  {
  }

  lemma ReadLiveKeepsCursor(s: Store, cfg: Config, cursor: Token, now: int, random: Random, c: Token, id: string)
    requires cursor in s.cursors && s.cursors[cursor].snapshotID in s.snapshots
    requires var ev := s.snapshots[s.cursors[cursor].snapshotID].evidence;
             Deliverable(ev) && PositionOk(ev, s.cursors[cursor].position)
    requires Names(s, c, id) && Names(ReadLive(s, cfg, cursor, now, random).0, c, id)
    ensures Keeps(s, ReadLive(s, cfg, cursor, now, random).0, c, id)
  {
    var state := s.cursors[cursor];
    var page := PageAt(s.snapshots[state.snapshotID].evidence, state.position, false, s.snapshots[state.snapshotID].fits);
    var token := FreshToken(s.cursors, random, 0);
    if page.Ok? && page.value.next.Some? && state.nextToken.None? && token.Some? {
      IssueKeepsCursor(s, cursor, page.value.next.value, token.value, c, id);
    }
  }

  lemma ReadKeepsCursor(s: Store, cfg: Config, cursor: Token, now: int, random: Random, c: Token, id: string)
    requires Inv(s, cfg) && Names(s, c, id) && Names(Read(s, cfg, cursor, now, random).0, c, id)
    ensures Keeps(s, Read(s, cfg, cursor, now, random).0, c, id)
  {
    CleanOnlyRemoves(s, cfg, now);
    var clean := Clean(s, now);
    if cursor in clean.cursors {
      assert CursorOk(s, cursor);
      if Names(clean, c, id) {
        ReadLiveKeepsCursor(clean, cfg, cursor, now, random, c, id);
      }
    }
  }

  lemma StepKeepsCursor(s: Store, s': Store, cfg: Config, c: Token, id: string)
    requires Inv(s, cfg) && Step(s, s', cfg) && Names(s, c, id) && Names(s', c, id)
    ensures Keeps(s, s', c, id)
  {
    if cursor, now, random :| s' == Read(s, cfg, cursor, now, random).0 {
      ReadKeepsCursor(s, cfg, cursor, now, random, c, id);
    } else if nid, ev, fits, size: nat, now, random, r :| Deliverable(ev) && Stores(s, s', cfg, nid, ev, fits, size, now, random, r) {
      StoreKeepsCursor(s, s', cfg, nid, ev, fits, size, now, random, r, c, id);
    }
  }

  lemma {:induction false} StepsKeepCursor(states: seq<Store>, cfg: Config, c: Token, id: string, n: nat)
    requires Steps(states, cfg) && n < |states| && Inv(states[0], cfg)
    requires forall k :: 0 <= k < |states| ==> Names(states[k], c, id)
    ensures Keeps(states[0], states[n], c, id)
  {
    if n > 0 {
      StepsKeepCursor(states, cfg, c, id, n - 1);
      StepsKeepInv(states, cfg, n - 1);
      StepKeepsCursor(states[n - 1], states[n], cfg, c, id);
    }
  }

  /**
   * A retried cursor is answered as it was the first time: after a successful read, and whatever else the session does
   * while that cursor stays live, reading it again before it expires returns the same page and the same next cursor.
   */
  lemma RereadIsIdempotent(first: Store, states: seq<Store>, cfg: Config, c: Token, id: string,
                           now: int, random: Random, later: int, again: Random)
    requires Inv(first, cfg) && Names(first, c, id) && |states| > 0 && Steps(states, cfg)
    requires Read(first, cfg, c, now, random).0 == states[0] && Read(first, cfg, c, now, random).1.Ok?
    requires forall k :: 0 <= k < |states| ==> Names(states[k], c, id)
    requires Live(states[|states| - 1], later, id)
    ensures Inv(states[|states| - 1], cfg)
    ensures Read(states[|states| - 1], cfg, c, later, again).1 == Read(first, cfg, c, now, random).1
  {
    var last := |states| - 1;
    ReadKeepsInv(first, cfg, c, now, random);
    StepsKeepInv(states, cfg, last);
    StepsKeepCursor(states, cfg, c, id, last);
    FirstReadSettles(first, cfg, c, id, now, random);
    assert CursorOk(states[last], c);
    SettledReadRepeats(states[last], cfg, c, id, later, again);
  }

  /** What a read of c answers once its page is known to be deliverable and its successor issued. */
  function Answer(s: Store, c: Token, id: string): Outcome
    requires Names(s, c, id) && Deliverable(s.snapshots[id].evidence)
    requires PositionOk(s.snapshots[id].evidence, s.cursors[c].position)
  {
    match PageAt(s.snapshots[id].evidence, s.cursors[c].position, false, s.snapshots[id].fits)
    case Err(e) => Err(PageFailed(e))
    case Ok(built) =>
      if !s.snapshots[id].fits(built.page) then Err(PageFailed(TooLarge))
      else Ok(Delivered(built.page, if built.next.Some? then s.cursors[c].nextToken else None))
  }

  lemma LiveReadSettles(s: Store, cfg: Config, c: Token, id: string, now: int, random: Random)
    requires Names(s, c, id) && CursorOk(s, c)
    requires ReadLive(s, cfg, c, now, random).1.Ok?
    ensures var read := ReadLive(s, cfg, c, now, random);
            && Names(read.0, c, id)
            && SameResult(s.snapshots[id], read.0.snapshots[id])
            && read.0.cursors[c].position == s.cursors[c].position
            && Answer(read.0, c, id) == read.1
            && (read.1.value.cursor.Some? || read.1.value.page.complete)
  {
    hide PageAt, FreshToken, EvidenceDelivery.LegalVisit;
    EvidenceDelivery.PageIsLegal(s.snapshots[id].evidence, s.cursors[c].position, false, s.snapshots[id].fits);
  }

  lemma FirstReadSettles(s: Store, cfg: Config, c: Token, id: string, now: int, random: Random)
    requires Inv(s, cfg) && Names(s, c, id)
    requires var read := Read(s, cfg, c, now, random); read.1.Ok? && Inv(read.0, cfg) && Names(read.0, c, id)
    ensures var read := Read(s, cfg, c, now, random);
            CursorOk(read.0, c) && Answer(read.0, c, id) == read.1 &&
            (read.1.value.cursor.Some? || read.1.value.page.complete)
  {
    assert CursorOk(s, c);
    CleanKeepsInv(s, cfg, now);
    assert CursorOk(Clean(s, now), c);
    LiveReadSettles(Clean(s, now), cfg, c, id, now, random);
    assert CursorOk(Read(s, cfg, c, now, random).0, c);
  }

  lemma SettledReadRepeats(s: Store, cfg: Config, c: Token, id: string, now: int, random: Random)
    requires Inv(s, cfg) && Names(s, c, id) && Live(s, now, id)
    requires CursorOk(s, c) && Answer(s, c, id).Ok?
    requires Answer(s, c, id).value.cursor.Some? || Answer(s, c, id).value.page.complete
    ensures Read(s, cfg, c, now, random).1 == Answer(s, c, id)
  {
    assert CursorOk(Clean(s, now), c) by {
      CleanKeepsInv(s, cfg, now);
    }
  }

  /** A successful read is one legal visit of the delivery chain, and the token it hands out continues that chain. */
  lemma ReadFollowsChain(s: Store, cfg: Config, c: Token, now: int, random: Random)
    requires Inv(s, cfg) && Read(s, cfg, c, now, random).1.Ok?
    ensures var (s', r) := Read(s, cfg, c, now, random);
            && c in s.cursors
            && s.cursors[c].snapshotID in s.snapshots
            && var ev := s.snapshots[s.cursors[c].snapshotID].evidence;
            && Deliverable(ev) && PositionOk(ev, s.cursors[c].position)
            && var built := PageAt(ev, s.cursors[c].position, false, s.snapshots[s.cursors[c].snapshotID].fits);
            && built.Ok? && r.value.page == built.value.page
            && EvidenceDelivery.LegalVisit(ev, EvidenceDelivery.Visit(s.cursors[c].position, built.value))
            && (built.value.next.None? <==> r.value.cursor.None?)
            && (r.value.cursor.Some? ==>
                  r.value.cursor.value in s'.cursors &&
                  Some(s'.cursors[r.value.cursor.value].position) == built.value.next &&
                  s'.cursors[r.value.cursor.value].snapshotID == s.cursors[c].snapshotID)
            && s.cursors[c].snapshotID in s'.snapshots
            && SameResult(s.snapshots[s.cursors[c].snapshotID], s'.snapshots[s.cursors[c].snapshotID])
  {
    assert CursorOk(s, c);
    CleanKeepsInv(s, cfg, now);
    assert CursorOk(Clean(s, now), c);
    var snapshot := s.snapshots[s.cursors[c].snapshotID];
    EvidenceDelivery.PageIsLegal(snapshot.evidence, s.cursors[c].position, false, snapshot.fits);
  }

  // ---- what a step does to lifetimes ----

  /** A cursor is refused as invalid exactly when it names nothing, or a result that has expired by then. */
  lemma InvalidExactly(s: Store, cfg: Config, c: Token, now: int, random: Random)
    requires Inv(s, cfg)
    ensures Read(s, cfg, c, now, random).1 == Err(CursorInvalid) <==>
            c !in s.cursors || s.cursors[c].snapshotID !in s.snapshots ||
            s.snapshots[s.cursors[c].snapshotID].expires <= now
  {
    if c in s.cursors {
      assert CursorOk(s, c);
    }
  }

  /** A live cursor is answered with its page whenever that is within bounds and a token it still needs can be drawn. */
  lemma ReadSucceeds(s: Store, cfg: Config, c: Token, now: int, random: Random)
    requires Inv(s, cfg) && c in s.cursors && Live(s, now, s.cursors[c].snapshotID)
    requires CursorOk(s, c)
    requires var snapshot := s.snapshots[s.cursors[c].snapshotID];
             var built := PageAt(snapshot.evidence, s.cursors[c].position, false, snapshot.fits);
             built.Ok? && snapshot.fits(built.value.page) &&
             (built.value.next.Some? && s.cursors[c].nextToken.None? ==> DrawsFresh(s.cursors, random, 0))
    ensures Read(s, cfg, c, now, random).1.Ok?
  {
    FreshTokenExactly(Clean(s, now).cursors, random, 0);
  }

  /** A successful read renews the result it reads and no other; a failed one renews none. What has expired goes. */
  lemma ReadRenews(s: Store, cfg: Config, c: Token, now: int, random: Random, id: string)
    requires Inv(s, cfg)
    ensures var (s', r) := Read(s, cfg, c, now, random);
            && (id in s'.snapshots <==> id in s.snapshots && now < s.snapshots[id].expires)
            && (id in s'.snapshots ==>
                  if r.Ok? && c in s.cursors && s.cursors[c].snapshotID == id
                  then s'.snapshots[id] == s.snapshots[id].(lastAccess := now, expires := now + cfg.ttl)
                  else s'.snapshots[id] == s.snapshots[id])
  {
    if c in Clean(s, now).cursors {
      assert CursorOk(s, c);
      LiveReadRenews(Clean(s, now), cfg, c, now, random, id);
    }
  }

  lemma LiveReadRenews(s: Store, cfg: Config, c: Token, now: int, random: Random, id: string)
    requires c in s.cursors && s.cursors[c].snapshotID in s.snapshots
    requires var ev := s.snapshots[s.cursors[c].snapshotID].evidence;
             Deliverable(ev) && PositionOk(ev, s.cursors[c].position)
    ensures var (s', r) := ReadLive(s, cfg, c, now, random);
            && (id in s'.snapshots <==> id in s.snapshots)
            && (id in s'.snapshots ==>
                  if r.Ok? && s.cursors[c].snapshotID == id
                  then s'.snapshots[id] == s.snapshots[id].(lastAccess := now, expires := now + cfg.ttl)
                  else s'.snapshots[id] == s.snapshots[id])
  {
    hide PageAt, FreshToken;
  }

  /**
   * A result that is not too large, whose first page is within bounds, and for which a fresh token is drawn if it needs
   * one, is stored whatever has to make room for it, and lives from then for the time results live.
   */
  lemma StoreSucceeds(s: Store, s': Store, cfg: Config, id: string, ev: Evidence, fits: Sizer, size: nat, now: int,
                      random: Random, r: Outcome)
    requires Inv(s, cfg) && Stores(s, s', cfg, id, ev, fits, size, now, random, r)
    requires id !in s.snapshots && size <= cfg.maxBytes
    requires var first := IndexBuilt(ev, SearchPage, 0, fits);
             first.Ok? && fits(first.value.page) && (first.value.next.Some? ==> DrawsFresh(s.cursors, random, 0))
    ensures r.Ok? && r.value.page == IndexBuilt(ev, SearchPage, 0, fits).value.page
    ensures r.value.cursor.Some? <==> IndexBuilt(ev, SearchPage, 0, fits).value.next.Some?
    ensures if r.value.cursor.Some? then id in s'.snapshots && s'.snapshots[id] == Snapshot(ev, fits, size, now, now + cfg.ttl)
            else id !in s'.snapshots
  {
    var s0 := s.(reserved := s.reserved - {id});
    ReservedKeepsInv(s, cfg, s.reserved - {id});
    CleanOnlyRemoves(s0, cfg, now);
    var room :| EvictedFor(Clean(s0, now), room, cfg, size) &&
                (s', r) == Admit(room, cfg, id, ev, fits, size, now, random);
    EvictionOnlyRemoves(s0, Clean(s0, now), room, cfg, size);
    if IndexBuilt(ev, SearchPage, 0, fits).value.next.Some? {
      FreshTokenExactly(room.cursors, random, 0);
    }
  }

  // ---- a client's whole session ----

  /** One successful read in a run: the operation between two of its states, and the cursor it was made with. */
  datatype Reading = Reading(step: nat, cursor: Token, now: int, random: Random)

  /** Between these states the token is not drawn for another result once the one it was issued for has gone. */
  ghost predicate NotReissued(states: seq<Store>, c: Token, m: nat, n: nat)
    requires n < |states|
  {
    forall k :: m <= k < n && c in states[k + 1].cursors ==>
      c in states[k].cursors && states[k].cursors[c].snapshotID == states[k + 1].cursors[c].snapshotID
  }

  ghost function OutcomeOf(states: seq<Store>, cfg: Config, r: Reading): Outcome
    requires r.step < |states| && Inv(states[r.step], cfg)
  {
    Read(states[r.step], cfg, r.cursor, r.now, r.random).1
  }

  /** The client reads the token issued to it by state `issued`, then each token the page before handed out. */
  ghost predicate Session(states: seq<Store>, cfg: Config, issued: nat, token: Token, readings: seq<Reading>)
    decreases |readings|
  {
    && readings != []
    && var r := readings[0];
    && r.cursor == token && issued <= r.step < |states| - 1
    && NotReissued(states, token, issued, r.step)
    && Inv(states[r.step], cfg)
    && states[r.step + 1] == Read(states[r.step], cfg, token, r.now, r.random).0
    && var outcome := OutcomeOf(states, cfg, r);
    && outcome.Ok?
    && (|readings| > 1 ==>
          outcome.value.cursor.Some? && Session(states, cfg, r.step + 1, outcome.value.cursor.value, readings[1..]))
  }

  /** The pages are those the session's reads returned, and the last read ended it just when the chain is complete. */
  ghost predicate Returned(states: seq<Store>, cfg: Config, readings: seq<Reading>, visits: seq<EvidenceDelivery.Visit>) {
    && |visits| == |readings|
    && forall i :: 0 <= i < |readings| ==>
         && readings[i].step < |states| && Inv(states[readings[i].step], cfg)
         && var outcome := OutcomeOf(states, cfg, readings[i]);
         && outcome.Ok? && outcome.value.page == visits[i].built.page
         && (outcome.value.cursor.None? <==> visits[i].built.next.None?)
  }

  lemma CursorNamesSnapshot(s: Store, cfg: Config, c: Token)
    requires Inv(s, cfg) && c in s.cursors
    ensures Names(s, c, s.cursors[c].snapshotID)
  {
    assert CursorOk(s, c);
  }

  lemma StretchKeepsInv(states: seq<Store>, cfg: Config, m: nat, n: nat)
    requires Steps(states, cfg) && m <= n < |states| && Inv(states[m], cfg)
    ensures Inv(states[n], cfg)
  {
    hide Inv, Step;
    StepsKeepInv(states[m..], cfg, n - m);
  }

  /** A token that names a cursor at the end of a stretch it was not drawn again in has named it all along. */
  lemma {:induction false} NamedAllAlong(states: seq<Store>, cfg: Config, c: Token, id: string, m: nat, n: nat)
    requires Steps(states, cfg) && m <= n < |states| && Inv(states[m], cfg)
    requires NotReissued(states, c, m, n) && Names(states[n], c, id)
    ensures forall k :: m <= k <= n ==> Names(states[k], c, id)
    decreases n
  {
    hide Step, CursorOk;
    if m < n {
      var k := n - 1;
      StretchKeepsInv(states, cfg, m, k);
      assert c in states[k + 1].cursors;
      CursorNamesSnapshot(states[k], cfg, c);
      NamedAllAlong(states, cfg, c, id, m, k);
    }
  }

  /** From issue to reading a cursor keeps its position and its result. */
  lemma IssuedIsRead(states: seq<Store>, cfg: Config, c: Token, id: string, m: nat, n: nat)
    requires Steps(states, cfg) && m <= n < |states| && Inv(states[m], cfg) && Inv(states[n], cfg)
    requires NotReissued(states, c, m, n) && Names(states[m], c, id) && c in states[n].cursors
    ensures Names(states[n], c, id) && Keeps(states[m], states[n], c, id)
  {
    CursorNamesSnapshot(states[n], cfg, c);
    var last := states[n].cursors[c].snapshotID;
    NamedAllAlong(states, cfg, c, last, m, n);
    var stretch := states[m..n + 1];
    forall k | 0 <= k < |stretch| - 1 && Inv(stretch[k], cfg) ensures Step(stretch[k], stretch[k + 1], cfg) {
      assert Step(states[m + k], states[m + k + 1], cfg);
    }
    StepsKeepCursor(stretch, cfg, c, id, n - m);
  }

  /** One reading of a session: a legal visit where its token was issued for, and a token for where that page stops. */
  lemma ReadingIsVisit(states: seq<Store>, cfg: Config, issued: nat, token: Token, id: string, r: Reading)
    returns (v: EvidenceDelivery.Visit)
    requires Steps(states, cfg) && issued <= r.step < |states| - 1 && r.cursor == token
    requires Inv(states[issued], cfg) && Names(states[issued], token, id) && NotReissued(states, token, issued, r.step)
    requires Inv(states[r.step], cfg) && states[r.step + 1] == Read(states[r.step], cfg, token, r.now, r.random).0
    requires OutcomeOf(states, cfg, r).Ok?
    ensures v.at == states[issued].cursors[token].position
    ensures EvidenceDelivery.LegalVisit(states[issued].snapshots[id].evidence, v)
    ensures Inv(states[r.step + 1], cfg)
    ensures var d := OutcomeOf(states, cfg, r).value;
            && d.page == v.built.page && (d.cursor.None? <==> v.built.next.None?)
            && (d.cursor.Some? ==>
                  Names(states[r.step + 1], d.cursor.value, id) &&
                  v.built.next == Some(states[r.step + 1].cursors[d.cursor.value].position) &&
                  states[r.step + 1].snapshots[id].evidence == states[issued].snapshots[id].evidence)
  {
    var s := states[r.step];
    hide Read, Inv, Steps, Clean, EvidenceDelivery.LegalVisit, PageAt;
    ReadKeepsInv(s, cfg, token, r.now, r.random);
    ReadFollowsChain(s, cfg, token, r.now, r.random);
    IssuedIsRead(states, cfg, token, id, issued, r.step);
    var position := s.cursors[token].position;
    v := EvidenceDelivery.Visit(position, PageAt(s.snapshots[id].evidence, position, false, s.snapshots[id].fits).value);
  }

  /** A session's reads are a chain of legal visits of the result its first token was issued for. */
  lemma {:induction false} SessionIsChain(states: seq<Store>, cfg: Config, issued: nat, token: Token, id: string,
                                          readings: seq<Reading>)
    returns (visits: seq<EvidenceDelivery.Visit>)
    requires Steps(states, cfg) && Session(states, cfg, issued, token, readings)
    requires issued < |states| && Inv(states[issued], cfg) && Names(states[issued], token, id)
    ensures EvidenceDelivery.Chain(states[issued].snapshots[id].evidence, states[issued].cursors[token].position, visits)
    ensures Returned(states, cfg, readings, visits)
    decreases |readings|
  {
    hide Read, Inv, Steps, NotReissued, OutcomeOf, EvidenceDelivery.LegalVisit;
    var r := readings[0];
    var first := ReadingIsVisit(states, cfg, issued, token, id, r);
    if |readings| == 1 {
      visits := [first];
    } else {
      var rest := SessionIsChain(states, cfg, r.step + 1, OutcomeOf(states, cfg, r).value.cursor.value, id, readings[1..]);
      visits := [first] + rest;
      assert visits[1..] == rest;
    }
  }

  /** A stored result's first page is a legal visit at its start, and the token it comes with names the continuation. */
  lemma StoreStartsChain(s: Store, s': Store, cfg: Config, id: string, ev: Evidence, fits: Sizer, size: nat, now: int,
                         random: Random, r: Outcome)
    returns (first: EvidenceDelivery.Visit)
    requires Inv(s, cfg) && Deliverable(ev) && Stores(s, s', cfg, id, ev, fits, size, now, random, r) && r.Ok?
    ensures first.at == AtIndex(0) && first.built.page == r.value.page && EvidenceDelivery.LegalVisit(ev, first)
    ensures first.built.next.None? <==> r.value.cursor.None?
    ensures r.value.cursor.Some? ==>
              Names(s', r.value.cursor.value, id) && s'.snapshots[id].evidence == ev &&
              first.built.next == Some(s'.cursors[r.value.cursor.value].position)
  {
    EvidenceDelivery.PageIsLegal(ev, AtIndex(0), true, fits);
    first := EvidenceDelivery.Visit(AtIndex(0), IndexBuilt(ev, SearchPage, 0, fits).value);
  }

  /**
   * Whatever the session does for other clients in between, expiry and eviction included: a client that stores a
   * result and reads token after token until a page comes without one has been given every packet of the index once,
   * in order, and every text as contiguous ranges that join to it.
   */
  lemma SessionDeliversAll(states: seq<Store>, cfg: Config, k: nat, id: string, ev: Evidence, fits: Sizer, size: nat,
                           now: int, random: Random, r: Outcome, readings: seq<Reading>)
    returns (visits: seq<EvidenceDelivery.Visit>, groups: seq<seq<Segment>>)
    requires Run(states, cfg) && k + 1 < |states| && Deliverable(ev)
    requires Stores(states[k], states[k + 1], cfg, id, ev, fits, size, now, random, r) && r.Ok? && r.value.cursor.Some?
    requires Session(states, cfg, k + 1, r.value.cursor.value, readings)
    requires var last := readings[|readings| - 1];
             last.step < |states| && Inv(states[last.step], cfg) &&
             var outcome := OutcomeOf(states, cfg, last);
             outcome.Ok? && outcome.value.cursor.None?
    ensures |visits| > 0 && visits[0].built.page == r.value.page && Returned(states, cfg, readings, visits[1..])
    ensures EvidenceDelivery.Packets(visits) == ev.index
    ensures Flatten(groups) == EvidenceDelivery.Segments(visits) && |groups| == |ev.items|
    ensures forall j :: 0 <= j < |ev.items| ==>
              EvidenceDelivery.Tiles(ev.items[j], groups[j], 0) && EvidenceDelivery.Join(groups[j]) == ev.items[j].text
  {
    RunKeepsInv(states, cfg, k);
    RunKeepsInv(states, cfg, k + 1);
    var first := StoreStartsChain(states[k], states[k + 1], cfg, id, ev, fits, size, now, random, r);
    var rest := SessionIsChain(states, cfg, k + 1, r.value.cursor.value, id, readings);
    visits := EvidenceDelivery.ChainFrom(ev, first, rest);
    groups := EvidenceDelivery.CompleteChainDeliversAll(ev, visits);
  }

  // ---- the tool ----

  class QueryTool {
    const cfg: Config
    var snapshots: map<string, Snapshot>
    var cursors: map<Token, CursorState>
    var reserved: set<string>
    var bytes: int

    ghost function View(): Store
      reads this
    {
      Store(snapshots, cursors, reserved, bytes)
    }

    ghost predicate Valid()
      reads this
    {
      Inv(View(), cfg)
    }

    constructor (cfg: Config)
      requires cfg.Positive()
      ensures Valid() && View() == EMPTY && this.cfg == cfg
    {
      this.cfg := cfg;
      snapshots, cursors, reserved, bytes := map[], map[], {}, 0;
    }

    method RemoveSnapshot(id: string)
      modifies this
      ensures View() == Remove(old(View()), id)
    {
      if id !in snapshots {
        return;
      }
      bytes := bytes - snapshots[id].size;
      snapshots := snapshots - {id};
      cursors := map c | c in cursors && cursors[c].snapshotID != id :: cursors[c];
    }

    method CleanupExpired(now: int)
      requires Valid()
      modifies this
      ensures Valid() && View() == Clean(old(View()), now)
    {
      ghost var before := View();
      var ids := snapshots.Keys;
      while ids != {}
        invariant Valid() && OnlyRemoved(before, View()) && ids <= snapshots.Keys
        invariant forall id :: id in before.snapshots && id !in ids ==> (id in snapshots <==> Live(before, now, id))
        decreases |ids|
      {
        var id :| id in ids;
        if !(now < snapshots[id].expires) {
          RemoveKeepsInv(View(), cfg, id);
          RemoveOnlyRemoves(before, View(), id);
          RemoveSnapshot(id);
        }
        ids := ids - {id};
      }
      RemovedIsClean(before, View(), cfg, now);
    }

    method EvictOldest() returns (evicted: bool)
      requires Valid()
      modifies this
      ensures Valid()
      ensures evicted <==> old(snapshots) != map[]
      ensures !evicted ==> View() == old(View())
      ensures evicted ==> exists id :: IsOldest(old(View()), id) && View() == Remove(old(View()), id)
    {
      var ids := snapshots.Keys;
      if ids == {} {
        return false;
      }
      var oldest :| oldest in ids;
      ids := ids - {oldest};
      while ids != {}
        invariant ids <= snapshots.Keys && oldest in snapshots
        invariant forall k :: k in snapshots && k !in ids ==> snapshots[oldest].lastAccess <= snapshots[k].lastAccess
        decreases |ids|
      {
        var id :| id in ids;
        if snapshots[id].lastAccess < snapshots[oldest].lastAccess {
          oldest := id;
        }
        ids := ids - {id};
      }
      RemoveKeepsInv(View(), cfg, oldest);
      RemoveSnapshot(oldest);
      evicted := true;
    }

    method NewCursor(random: Random) returns (r: Option<Token>)
      ensures r == FreshToken(cursors, random, 0)
    {
      var tries := 0;
      while tries < TOKEN_TRIES
        invariant 0 <= tries <= TOKEN_TRIES
        invariant FreshToken(cursors, random, tries) == FreshToken(cursors, random, 0)
      {
        var draw := random(tries);
        if draw.None? {
          return None;
        }
        if draw.value !in cursors {
          return draw;
        }
        tries := tries + 1;
      }
      r := None;
    }

    method MakeRoom(size: nat)
      requires Valid() && size <= cfg.maxBytes
      modifies this
      ensures Valid() && EvictedFor(old(View()), View(), cfg, size)
    {
      ghost var before := View();
      while |snapshots| >= cfg.maxSnapshots || bytes + size > cfg.maxBytes
        invariant Valid()
        invariant forall end :: EvictedFor(View(), end, cfg, size) ==> EvictedFor(before, end, cfg, size)
        decreases |snapshots|
      {
        ghost var now := View();
        var evicted := EvictOldest();
        if !evicted {
          break;
        }
        ghost var id :| IsOldest(now, id) && View() == Remove(now, id);
        assert View().snapshots == now.snapshots - {id};
        assert forall end :: EvictedFor(View(), end, cfg, size) ==> EvictedFor(now, end, cfg, size);
      }
    }

    /** newResultID: reserves the first of sixteen draws that names no result. */
    method NewResultID(random: Random) returns (r: Option<string>)
      requires Valid()
      modifies this
      ensures Valid()
      ensures r.Some? ==> r.value !in old(snapshots) && r.value !in old(reserved)
      ensures View() == if r.Some? then old(View()).(reserved := old(reserved) + {r.value}) else old(View())
    {
      var tries := 0;
      while tries < TOKEN_TRIES
        invariant View() == old(View())
      {
        var draw := random(tries);
        if draw.None? {
          return None;
        }
        if draw.value !in snapshots && draw.value !in reserved {
          ReservedKeepsInv(View(), cfg, reserved + {draw.value});
          reserved := reserved + {draw.value};
          return draw;
        }
        tries := tries + 1;
      }
      r := None;
    }

    method StoreSearchResult(id: string, ev: Evidence, fits: Sizer, size: nat, now: int, random: Random) returns (r: Outcome)
      requires Valid() && Deliverable(ev)
      modifies this
      ensures Valid()
      ensures Stores(old(View()), View(), cfg, id, ev, fits, size, now, random, r)
    {
      ghost var before := View();
      ghost var s0 := before.(reserved := before.reserved - {id});
      ReservedKeepsInv(View(), cfg, reserved - {id});
      reserved := reserved - {id};
      if id in snapshots {
        return Err(DuplicateIdentity);
      }
      CleanupExpired(now);
      if size > cfg.maxBytes {
        return Err(ResultTooLarge);
      }
      MakeRoom(size);
      ghost var room := View();
      RoomFor(s0, room, cfg, id, size, now);
      AdmitKeepsInv(room, cfg, id, ev, fits, size, now, random);
      r := Place(id, ev, fits, size, now, random);
    }

    /** The second half of storeSearchResult: store, build the first page, issue its cursor, measure. */
    method Place(id: string, ev: Evidence, fits: Sizer, size: nat, now: int, random: Random) returns (r: Outcome)
      modifies this
      ensures (View(), r) == Admit(old(View()), cfg, id, ev, fits, size, now, random)
    {
      snapshots := snapshots[id := Snapshot(ev, fits, size, now, now + cfg.ttl)];
      bytes := bytes + size;
      var built := BuildIndexPage(ev, 0, true, fits);
      if built.Err? {
        RemoveSnapshot(id);
        return Err(PageFailed(built.error));
      }
      var page := built.value.page;
      var next := built.value.next;
      var cursor := None;
      if next.Some? {
        cursor := NewCursor(random);
        if cursor.None? {
          RemoveSnapshot(id);
          return Err(NoToken);
        }
        cursors := cursors[cursor.value := CursorState(id, next.value, None)];
      }
      if !fits(page) {
        RemoveSnapshot(id);
        return Err(PageFailed(TooLarge));
      }
      if next.None? {
        RemoveSnapshot(id);
      }
      r := Ok(Delivered(page, cursor));
    }

    method ReadEvidencePage(cursor: Token, now: int, random: Random, cancelled: bool) returns (r: Outcome)
      requires Valid()
      modifies this
      ensures Valid()
      ensures cancelled ==> View() == old(View()) && r == Err(Cancelled)
      ensures !cancelled ==> (View(), r) == Read(old(View()), cfg, cursor, now, random)
    {
      if cancelled {
        return Err(Cancelled);
      }
      ReadKeepsInv(View(), cfg, cursor, now, random);
      CleanupExpired(now);
      if cursor !in cursors {
        return Err(CursorInvalid);
      }
      assert CursorOk(View(), cursor);
      r := Deliver(cursor, now, random);
    }

    /** The part of readEvidencePage that follows the lookup. */
    method Deliver(cursor: Token, now: int, random: Random) returns (r: Outcome)
      requires Valid() && cursor in cursors && CursorOk(View(), cursor)
      modifies this
      ensures (View(), r) == ReadLive(old(View()), cfg, cursor, now, random)
    {
      var state := cursors[cursor];
      var snapshot := snapshots[state.snapshotID];
      hide IndexBuilt, TextBuilt, FreshToken;
      var built;
      match state.position {
        case AtIndex(i) => built := BuildIndexPage(snapshot.evidence, i, false, snapshot.fits);
        case AtText(j, o) => built := BuildTextPage(snapshot.evidence, j, o, snapshot.fits);
      }
      if built.Err? {
        return Err(PageFailed(built.error));
      }
      var page := built.value.page;
      var next := built.value.next;
      var shown := None;
      if next.Some? {
        if state.nextToken.None? {
          var token := NewCursor(random);
          if token.None? {
            return Err(NoToken);
          }
          state := state.(nextToken := token);
          cursors := cursors[cursor := state][token.value := CursorState(state.snapshotID, next.value, None)];
        }
        shown := state.nextToken;
      }
      if !snapshot.fits(page) {
        return Err(PageFailed(TooLarge));
      }
      snapshots := snapshots[state.snapshotID := snapshot.(lastAccess := now, expires := now + cfg.ttl)];
      r := Ok(Delivered(page, shown));
    }

    method CloseSnapshots()
      requires Valid()
      modifies this
      ensures Valid() && View() == EMPTY
    {
      snapshots, cursors, reserved, bytes := map[], map[], {}, 0;
    }
  }
}
