/** The shared table of passages and the placements that say where each document holds them. */
module ChunkStore {
  import opened Wrappers

  type Id = nat
  type Doc = nat
  type Model = nat
  type Key = nat
  type Vector = seq<real>

  /** One row of text and its vector, shared by every place that holds it. The key is the hash of the text. */
  datatype Passage = Passage(model: Model, key: Key, text: string, vector: Vector)

  /** Where one document holds a passage. */
  datatype Placement = Placement(doc: Doc, passage: Id, index: nat, start: nat, end: nat, slice: string)

  datatype Chunk = Chunk(id: Id, doc: Doc, model: Model, key: Key, index: nat, start: nat, end: nat,
                         text: string, vector: Vector)

  datatype Store = Store(passages: map<Id, Passage>, placements: map<Id, Placement>)

  predicate Named(p: Passage, model: Model, key: Key) { p.model == model && p.key == key }

  // ---- the invariant ----

  /** The table's unique constraint: one row for a model and a key. */
  ghost predicate Unique(ps: map<Id, Passage>) {
    forall i, j :: i in ps && j in ps && Named(ps[i], ps[j].model, ps[j].key) ==> i == j
  }

  predicate Used(placements: map<Id, Placement>, id: Id) {
    exists p :: p in placements && placements[p].passage == id
  }

  ghost predicate NoneDangling(db: Store) {
    forall p :: p in db.placements ==> db.placements[p].passage in db.passages
  }

  ghost predicate NoneOrphaned(db: Store) {
    forall id :: id in db.passages ==> Used(db.placements, id)
  }

  ghost predicate Inv(db: Store) { Unique(db.passages) && NoneDangling(db) && NoneOrphaned(db) }

  // ---- the statements of one replacement ----

  ghost function Find(ps: map<Id, Passage>, model: Model, key: Key): (r: Option<Id>)
    ensures r.Some? ==> r.value in ps && Named(ps[r.value], model, key)
    ensures r.None? ==> forall id :: id in ps ==> !Named(ps[id], model, key)
  {
    if exists id :: id in ps && Named(ps[id], model, key)
    then var id :| id in ps && Named(ps[id], model, key); Some(id)
    else None
  }

  predicate Seen(chunks: seq<Chunk>, key: Key) {
    exists i :: 0 <= i < |chunks| && chunks[i].key == key
  }

  /** The first chunk of each key; the model is not looked at. */
  function Firsts(chunks: seq<Chunk>): (r: seq<Chunk>)
    ensures |r| <= |chunks|
    decreases |chunks|
  {
    if chunks == [] then []
    else
      var n := |chunks| - 1;
      if Seen(chunks[..n], chunks[n].key) then Firsts(chunks[..n]) else Firsts(chunks[..n]) + [chunks[n]]
  }

  function RowOf(c: Chunk): Passage { Passage(c.model, c.key, c.text, c.vector) }

  ghost predicate Has(ps: map<Id, Passage>, model: Model, key: Key) { Find(ps, model, key).Some? }

  ghost function InsertRow(ps: map<Id, Passage>, row: Chunk, id: Id): map<Id, Passage> {
    if Has(ps, row.model, row.key) then ps else ps[id := RowOf(row)]
  }

  /** INSERT INTO chunks ... ON CONFLICT (embed_model, raw_sha256) DO NOTHING. */
  ghost function Insert(ps: map<Id, Passage>, rows: seq<Chunk>, ids: seq<Id>): map<Id, Passage>
    requires |rows| <= |ids|
    decreases |rows|
  {
    if rows == [] then ps
    else
      var n := |rows| - 1;
      InsertRow(Insert(ps, rows[..n], ids), rows[n], ids[n])
  }

  function PlacementOf(c: Chunk, passage: Id): Placement {
    Placement(c.doc, passage, c.index, c.start, c.end, c.text)
  }

  /** INSERT INTO document_chunks ... JOIN chunks: a chunk without a row gets no placement; a used id fails. */
  ghost function Place(ps: map<Id, Passage>, placements: map<Id, Placement>, chunks: seq<Chunk>)
    : Option<map<Id, Placement>>
    decreases |chunks|
  {
    if chunks == [] then Some(placements)
    else
      var c := chunks[|chunks| - 1];
      var before := Place(ps, placements, chunks[..|chunks| - 1]);
      var row := Find(ps, c.model, c.key);
      if before.None? || row.None? then before
      else if c.id in before.value then None
      else Some(before.value[c.id := PlacementOf(c, row.value)])
  }

  function Others(placements: map<Id, Placement>, doc: Doc): map<Id, Placement> {
    map p | p in placements && placements[p].doc != doc :: placements[p]
  }

  function Released(placements: map<Id, Placement>, doc: Doc): set<Id> {
    set p | p in placements && placements[p].doc == doc :: placements[p].passage
  }

  function Sweep(ps: map<Id, Passage>, placements: map<Id, Placement>, released: set<Id>): map<Id, Passage> {
    map id | id in ps && (id !in released || Used(placements, id)) :: ps[id]
  }

  /** The store after ReplaceChunks, or None when the transaction rolls back. */
  ghost function Replace(db: Store, doc: Doc, chunks: seq<Chunk>, ids: seq<Id>): Option<Store>
    requires |chunks| <= |ids|
  {
    var ps := Insert(db.passages, Firsts(chunks), ids);
    var placed := Place(ps, Others(db.placements, doc), chunks);
    if placed.None? then None
    else Some(Store(Sweep(ps, placed.value, Released(db.placements, doc)), placed.value))
  }

  /** gen_random_uuid() never repeats itself or an id in use. */
  ghost predicate Fresh(ps: map<Id, Passage>, ids: seq<Id>) {
    && (forall i :: 0 <= i < |ids| ==> ids[i] !in ps)
    && (forall i, j :: 0 <= i < j < |ids| ==> ids[i] != ids[j])
  }

  // ---- inserting passages ----

  ghost predicate Keeps(ps: map<Id, Passage>, after: map<Id, Passage>) {
    forall id :: id in ps ==> id in after && after[id] == ps[id]
  }

  predicate FromRows(p: Passage, rows: seq<Chunk>) {
    exists i :: 0 <= i < |rows| && p == RowOf(rows[i])
  }

  /** What is new after an insert: rows of the statement, under ids of its own. */
  ghost predicate OnlyAdds(ps: map<Id, Passage>, rows: seq<Chunk>, ids: seq<Id>, after: map<Id, Passage>)
    requires |rows| <= |ids|
  {
    forall id :: id in after && id !in ps ==> id in ids[..|rows|] && FromRows(after[id], rows)
  }

  ghost predicate AllNamed(ps: map<Id, Passage>, rows: seq<Chunk>) {
    forall i :: 0 <= i < |rows| ==> Has(ps, rows[i].model, rows[i].key)
  }

  lemma InsertRowKeeps(ps: map<Id, Passage>, row: Chunk, id: Id)
    requires Unique(ps) && id !in ps
    ensures var after := InsertRow(ps, row, id);
            Unique(after) && Keeps(ps, after) && Has(after, row.model, row.key)
  {
    if !Has(ps, row.model, row.key) {
      assert Named(InsertRow(ps, row, id)[id], row.model, row.key);
    }
  }

  lemma KeptNames(ps: map<Id, Passage>, after: map<Id, Passage>, rows: seq<Chunk>)
    requires Keeps(ps, after) && AllNamed(ps, rows)
    ensures AllNamed(after, rows)
  {
    forall i | 0 <= i < |rows|
      ensures Has(after, rows[i].model, rows[i].key)
    {
      assert Has(ps, rows[i].model, rows[i].key);
      var id := Find(ps, rows[i].model, rows[i].key).value;
      assert Named(after[id], rows[i].model, rows[i].key);
    }
  }

  lemma AllNamedSnoc(ps: map<Id, Passage>, rows: seq<Chunk>, row: Chunk)
    requires AllNamed(ps, rows) && Has(ps, row.model, row.key)
    ensures AllNamed(ps, rows + [row])
  {
  }

  lemma FromMoreRows(p: Passage, rows: seq<Chunk>, row: Chunk)
    requires FromRows(p, rows) || p == RowOf(row)
    ensures FromRows(p, rows + [row])
  {
    if FromRows(p, rows) {
      var i :| 0 <= i < |rows| && p == RowOf(rows[i]);
      assert (rows + [row])[i] == rows[i];
    } else {
      assert (rows + [row])[|rows|] == row;
    }
  }

  lemma {:induction false} InsertOnlyAdds(ps: map<Id, Passage>, rows: seq<Chunk>, ids: seq<Id>)
    requires |rows| <= |ids|
    ensures OnlyAdds(ps, rows, ids, Insert(ps, rows, ids))
    decreases |rows|
  {
    if rows != [] {
      var n := |rows| - 1;
      var before, after := Insert(ps, rows[..n], ids), Insert(ps, rows, ids);
      InsertOnlyAdds(ps, rows[..n], ids);
      assert rows[..n] + [rows[n]] == rows && ids[..n] + [ids[n]] == ids[..n + 1];
      forall id | id in after && id !in ps
        ensures id in ids[..n + 1] && FromRows(after[id], rows)
      {
        if id == ids[n] && !Has(before, rows[n].model, rows[n].key) {
          assert ids[..n + 1][n] == id;
        }
        FromMoreRows(after[id], rows[..n], rows[n]);
      }
    }
  }

  /** What is there stays as it is, names stay unique, and every row's name is there afterwards. */
  lemma {:induction false} InsertKeeps(ps: map<Id, Passage>, rows: seq<Chunk>, ids: seq<Id>)
    requires Unique(ps) && |rows| <= |ids| && Fresh(ps, ids)
    ensures var after := Insert(ps, rows, ids);
            Unique(after) && Keeps(ps, after) && AllNamed(after, rows)
    decreases |rows|
  {
    if rows != [] {
      var n := |rows| - 1;
      var before := Insert(ps, rows[..n], ids);
      InsertKeeps(ps, rows[..n], ids);
      IdIsUnused(ps, rows[..n], ids, n);
      hide Unique, AllNamed, Fresh, Has, Named, Keeps;
      InsertRowKeeps(before, rows[n], ids[n]);
      KeepsOn(ps, before, Insert(ps, rows, ids));
      KeptNames(before, Insert(ps, rows, ids), rows[..n]);
      AllNamedSnoc(Insert(ps, rows, ids), rows[..n], rows[n]);
      assert rows[..n] + [rows[n]] == rows;
    }
  }

  lemma IdIsUnused(ps: map<Id, Passage>, rows: seq<Chunk>, ids: seq<Id>, n: nat)
    requires Fresh(ps, ids) && |rows| <= n < |ids|
    ensures ids[n] !in Insert(ps, rows, ids)
  {
    InsertOnlyAdds(ps, rows, ids);
  }

  lemma KeepsOn(a: map<Id, Passage>, b: map<Id, Passage>, c: map<Id, Passage>)
    requires Keeps(a, b) && Keeps(b, c)
    ensures Keeps(a, c)
  {
  }

  /** Inserting rows whose names are all taken changes nothing. */
  lemma {:induction false} InsertNothing(ps: map<Id, Passage>, rows: seq<Chunk>, ids: seq<Id>)
    requires |rows| <= |ids| && AllNamed(ps, rows)
    ensures Insert(ps, rows, ids) == ps
    decreases |rows|
  {
    if rows != [] {
      var n := |rows| - 1;
      assert AllNamed(ps, rows[..n]);
      InsertNothing(ps, rows[..n], ids);
      assert Has(ps, rows[n].model, rows[n].key);
    }
  }

  // ---- placing ----

  /** A chunk is placed when its name is stored; the placement says everything about it. */
  ghost predicate PlacedAt(ps: map<Id, Passage>, placements: map<Id, Placement>, c: Chunk)
    requires Has(ps, c.model, c.key)
  {
    c.id in placements && placements[c.id] == PlacementOf(c, Find(ps, c.model, c.key).value)
  }

  ghost predicate PlacedOrNot(ps: map<Id, Passage>, placements: map<Id, Placement>, c: Chunk) {
    Has(ps, c.model, c.key) ==> PlacedAt(ps, placements, c)
  }

  ghost predicate Accounts(ps: map<Id, Passage>, chunks: seq<Chunk>, p: Id) {
    exists i :: 0 <= i < |chunks| && chunks[i].id == p && Has(ps, chunks[i].model, chunks[i].key)
  }

  /** The placements of a statement that succeeded: those before it, untouched, and one for each stored chunk. */
  ghost predicate PlacedExactly(ps: map<Id, Passage>, placements: map<Id, Placement>, chunks: seq<Chunk>,
                                after: map<Id, Placement>) {
    && (forall p :: p in placements ==> p in after && after[p] == placements[p])
    && (forall i :: 0 <= i < |chunks| ==> PlacedOrNot(ps, after, chunks[i]))
    && (forall p :: p in after && p !in placements ==> Accounts(ps, chunks, p))
    && (forall i :: 0 <= i < |chunks| && Has(ps, chunks[i].model, chunks[i].key) ==> chunks[i].id !in placements)
  }

  lemma AccountsMore(ps: map<Id, Passage>, chunks: seq<Chunk>, c: Chunk, p: Id)
    requires Accounts(ps, chunks, p) || (c.id == p && Has(ps, c.model, c.key))
    ensures Accounts(ps, chunks + [c], p)
  {
    if Accounts(ps, chunks, p) {
      var i :| 0 <= i < |chunks| && chunks[i].id == p && Has(ps, chunks[i].model, chunks[i].key);
      assert (chunks + [c])[i] == chunks[i];
    } else {
      assert (chunks + [c])[|chunks|] == c;
    }
  }

  lemma PlaceOne(ps: map<Id, Passage>, placements: map<Id, Placement>, chunks: seq<Chunk>, c: Chunk,
                 before: map<Id, Placement>)
    requires PlacedExactly(ps, placements, chunks, before) && Has(ps, c.model, c.key) && c.id !in before
    ensures PlacedExactly(ps, placements, chunks + [c],
                          before[c.id := PlacementOf(c, Find(ps, c.model, c.key).value)])
  {
    var after := before[c.id := PlacementOf(c, Find(ps, c.model, c.key).value)];
    forall p | p in after && p !in placements
      ensures Accounts(ps, chunks + [c], p)
    {
      AccountsMore(ps, chunks, c, p);
    }
    forall i | 0 <= i < |chunks + [c]|
      ensures PlacedOrNot(ps, after, (chunks + [c])[i])
    {
      if i < |chunks| {
        assert PlacedOrNot(ps, before, chunks[i]);
      }
    }
  }

  lemma SkipOne(ps: map<Id, Passage>, placements: map<Id, Placement>, chunks: seq<Chunk>, c: Chunk,
                after: map<Id, Placement>)
    requires PlacedExactly(ps, placements, chunks, after) && !Has(ps, c.model, c.key)
    ensures PlacedExactly(ps, placements, chunks + [c], after)
  {
    forall p | p in after && p !in placements
      ensures Accounts(ps, chunks + [c], p)
    {
      AccountsMore(ps, chunks, c, p);
    }
  }

  lemma {:induction false} PlaceIsExact(ps: map<Id, Passage>, placements: map<Id, Placement>, chunks: seq<Chunk>)
    ensures var after := Place(ps, placements, chunks);
            after.Some? ==> PlacedExactly(ps, placements, chunks, after.value)
    decreases |chunks|
  {
    if chunks != [] {
      var n := |chunks| - 1;
      var c := chunks[n];
      PlaceIsExact(ps, placements, chunks[..n]);
      assert chunks[..n] + [c] == chunks;
      var before := Place(ps, placements, chunks[..n]);
      if before.Some? {
        if !Has(ps, c.model, c.key) {
          SkipOne(ps, placements, chunks[..n], c, before.value);
        } else if c.id !in before.value {
          PlaceOne(ps, placements, chunks[..n], c, before.value);
        }
      }
    }
  }

  // ---- which chunks a call stores ----

  /** The first chunk of a key. */
  function FirstOf(chunks: seq<Chunk>, key: Key): (i: nat)
    requires Seen(chunks, key)
    ensures i < |chunks| && chunks[i].key == key
    ensures forall j :: 0 <= j < i ==> chunks[j].key != key
    decreases |chunks|
  {
    var n := |chunks| - 1;
    if Seen(chunks[..n], key) then FirstOf(chunks[..n], key) else n
  }

  lemma {:induction false} FirstsAreChunks(chunks: seq<Chunk>, row: Chunk)
    requires row in Firsts(chunks)
    ensures row in chunks && Seen(chunks, row.key) && chunks[FirstOf(chunks, row.key)] == row
    decreases |chunks|
  {
    var n := |chunks| - 1;
    if row in Firsts(chunks[..n]) {
      FirstsAreChunks(chunks[..n], row);
    } else {
      assert row == chunks[n];
    }
  }

  lemma {:induction false} EachFirstIsThere(chunks: seq<Chunk>, key: Key)
    requires Seen(chunks, key)
    ensures chunks[FirstOf(chunks, key)] in Firsts(chunks)
    decreases |chunks|
  {
    var n := |chunks| - 1;
    if Seen(chunks[..n], key) {
      EachFirstIsThere(chunks[..n], key);
    }
  }

  /**
   * A chunk's name has a row after the insert exactly when it had one before or the first chunk of its key in
   * this call is of its model: the statement is built by key alone, the join looks the model up too.
   */
  lemma StoredExactly(ps: map<Id, Passage>, chunks: seq<Chunk>, ids: seq<Id>, c: Chunk)
    requires Unique(ps) && |chunks| <= |ids| && Fresh(ps, ids) && c in chunks
    ensures Seen(chunks, c.key)
    ensures Has(Insert(ps, Firsts(chunks), ids), c.model, c.key) <==>
            Has(ps, c.model, c.key) || chunks[FirstOf(chunks, c.key)].model == c.model
  {
    var rows := Firsts(chunks);
    var after := Insert(ps, rows, ids);
    InsertKeeps(ps, rows, ids);
    InsertOnlyAdds(ps, rows, ids);
    var i :| 0 <= i < |chunks| && chunks[i] == c;
    EachFirstIsThere(chunks, c.key);
    var first := chunks[FirstOf(chunks, c.key)];
    if Has(ps, c.model, c.key) {
      assert Named(after[Find(ps, c.model, c.key).value], c.model, c.key);
    } else if first.model == c.model {
      var j :| 0 <= j < |rows| && rows[j] == first;
      assert Has(after, rows[j].model, rows[j].key);
    } else if Has(after, c.model, c.key) {
      var id := Find(after, c.model, c.key).value;
      assert id !in ps;
      var j :| 0 <= j < |rows| && after[id] == RowOf(rows[j]);
      FirstsAreChunks(chunks, rows[j]);
      assert false;
    }
  }

  // ---- what a replacement keeps ----

  /** A call that succeeded, by its parts. */
  ghost predicate Replaced(db: Store, doc: Doc, chunks: seq<Chunk>, ps: map<Id, Passage>, after: Store) {
    && Unique(ps) && Keeps(db.passages, ps)
    && (forall id :: id in ps && id !in db.passages ==> exists i :: 0 <= i < |chunks| && ps[id] == RowOf(chunks[i]))
    && PlacedExactly(ps, Others(db.placements, doc), chunks, after.placements)
    && after.passages == Sweep(ps, after.placements, Released(db.placements, doc))
  }

  lemma ReplaceByParts(db: Store, doc: Doc, chunks: seq<Chunk>, ids: seq<Id>)
    requires Unique(db.passages) && |chunks| <= |ids| && Fresh(db.passages, ids)
    requires Replace(db, doc, chunks, ids).Some?
    ensures Replaced(db, doc, chunks, Insert(db.passages, Firsts(chunks), ids),
                     Replace(db, doc, chunks, ids).value)
  {
    var rows := Firsts(chunks);
    var ps := Insert(db.passages, rows, ids);
    InsertKeeps(db.passages, rows, ids);
    InsertOnlyAdds(db.passages, rows, ids);
    PlaceIsExact(ps, Others(db.placements, doc), chunks);
    forall id | id in ps && id !in db.passages
      ensures exists i :: 0 <= i < |chunks| && ps[id] == RowOf(chunks[i])
    {
      var j :| 0 <= j < |rows| && ps[id] == RowOf(rows[j]);
      FirstsAreChunks(chunks, rows[j]);
      var i :| 0 <= i < |chunks| && chunks[i] == rows[j];
      assert ps[id] == RowOf(chunks[i]);
    }
  }

  lemma PlacedPassagesExist(db: Store, doc: Doc, chunks: seq<Chunk>, ps: map<Id, Passage>, after: Store)
    requires Inv(db) && Replaced(db, doc, chunks, ps, after)
    ensures NoneDangling(after)
  {
    forall p | p in after.placements
      ensures after.placements[p].passage in after.passages
    {
      var id := after.placements[p].passage;
      assert Used(after.placements, id);
      if p in Others(db.placements, doc) {
        assert db.placements[p].passage in db.passages;
      } else {
        assert Accounts(ps, chunks, p);
        var i :| 0 <= i < |chunks| && chunks[i].id == p && Has(ps, chunks[i].model, chunks[i].key);
        assert PlacedOrNot(ps, after.placements, chunks[i]);
      }
    }
  }

  /** Passages the document let go of are swept; the others kept another document's placement; the new have one. */
  lemma StoredPassagesAreUsed(db: Store, doc: Doc, chunks: seq<Chunk>, ps: map<Id, Passage>, after: Store)
    requires Inv(db) && Replaced(db, doc, chunks, ps, after)
    ensures NoneOrphaned(after)
  {
    forall id | id in after.passages
      ensures Used(after.placements, id)
    {
      if id in Released(db.placements, doc) {
      } else if id in db.passages {
        assert Used(db.placements, id);
        var p :| p in db.placements && db.placements[p].passage == id;
        assert p in Others(db.placements, doc);
        assert after.placements[p].passage == id;
      } else {
        var i :| 0 <= i < |chunks| && ps[id] == RowOf(chunks[i]);
        assert Named(ps[id], chunks[i].model, chunks[i].key);
        assert PlacedOrNot(ps, after.placements, chunks[i]);
        assert after.placements[chunks[i].id].passage == id;
      }
    }
  }

  /** Every call, from every state, keeps names unique, placements anchored and passages held. */
  lemma ReplaceKeepsInv(db: Store, doc: Doc, chunks: seq<Chunk>, ids: seq<Id>)
    requires Inv(db) && |chunks| <= |ids| && Fresh(db.passages, ids)
    ensures var after := Replace(db, doc, chunks, ids); after.Some? ==> Inv(after.value)
  {
    var after := Replace(db, doc, chunks, ids);
    if after.Some? {
      var ps := Insert(db.passages, Firsts(chunks), ids);
      ReplaceByParts(db, doc, chunks, ids);
      PlacedPassagesExist(db, doc, chunks, ps, after.value);
      StoredPassagesAreUsed(db, doc, chunks, ps, after.value);
    }
  }

  /** Another document's placements stay, and so do the text and vector behind each of them. */
  lemma OthersAreUntouched(db: Store, doc: Doc, chunks: seq<Chunk>, ids: seq<Id>, p: Id)
    requires Inv(db) && |chunks| <= |ids| && Fresh(db.passages, ids)
    requires p in db.placements && db.placements[p].doc != doc
    ensures var after := Replace(db, doc, chunks, ids);
            after.Some? ==>
              var placement := db.placements[p];
              && p in after.value.placements && after.value.placements[p] == placement
              && placement.passage in after.value.passages
              && after.value.passages[placement.passage] == db.passages[placement.passage]
  {
    var after := Replace(db, doc, chunks, ids);
    if after.Some? {
      ReplaceByParts(db, doc, chunks, ids);
      assert p in Others(db.placements, doc);
      assert Used(after.value.placements, db.placements[p].passage);
    }
  }

  /** A passage that was there goes exactly when nothing is placed on it any more; until then it never changes. */
  lemma SweptExactly(db: Store, doc: Doc, chunks: seq<Chunk>, ids: seq<Id>, id: Id)
    requires Inv(db) && |chunks| <= |ids| && Fresh(db.passages, ids) && id in db.passages
    ensures var after := Replace(db, doc, chunks, ids);
            after.Some? ==>
              && (id in after.value.passages <==> Used(after.value.placements, id))
              && (id in after.value.passages ==> after.value.passages[id] == db.passages[id])
  {
    var after := Replace(db, doc, chunks, ids);
    if after.Some? {
      ReplaceByParts(db, doc, chunks, ids);
      ReplaceKeepsInv(db, doc, chunks, ids);
    }
  }

  /** The ids a caller gives its chunks are new: distinct, and not those of another document's placements. */
  ghost predicate NewIds(placements: map<Id, Placement>, chunks: seq<Chunk>) {
    && (forall j, k :: 0 <= j < k < |chunks| ==> chunks[j].id != chunks[k].id)
    && (forall j :: 0 <= j < |chunks| ==> chunks[j].id !in placements)
  }

  lemma {:induction false} PlaceSucceeds(ps: map<Id, Passage>, placements: map<Id, Placement>, chunks: seq<Chunk>)
    requires NewIds(placements, chunks)
    ensures Place(ps, placements, chunks).Some?
    decreases |chunks|
  {
    if chunks != [] {
      var n := |chunks| - 1;
      PlaceSucceeds(ps, placements, chunks[..n]);
      PlaceIsExact(ps, placements, chunks[..n]);
      assert chunks[n].id !in placements;
      assert forall i :: 0 <= i < n ==> chunks[..n][i].id != chunks[n].id;
    }
  }

  /** Nothing else is placed: what is there was another document's, or is a chunk of this call's. */
  lemma OnlyTheCallIsPlaced(db: Store, doc: Doc, chunks: seq<Chunk>, ids: seq<Id>, p: Id)
    requires Inv(db) && |chunks| <= |ids| && Fresh(db.passages, ids)
    ensures var after := Replace(db, doc, chunks, ids);
            after.Some? && p in after.value.placements ==>
              || (p in db.placements && db.placements[p].doc != doc && after.value.placements[p] == db.placements[p])
              || (exists i :: 0 <= i < |chunks| && chunks[i].id == p)
  {
    var after := Replace(db, doc, chunks, ids);
    if after.Some? && p in after.value.placements {
      var ps := Insert(db.passages, Firsts(chunks), ids);
      ReplaceByParts(db, doc, chunks, ids);
      if p !in Others(db.placements, doc) {
        assert Accounts(ps, chunks, p);
      }
    }
  }

  /** What a placement says of a chunk: whose it is, where it stands and its exact text. */
  predicate Places(p: Placement, c: Chunk) {
    p.doc == c.doc && p.index == c.index && p.start == c.start && p.end == c.end && p.slice == c.text
  }

  /** A passage that was not stored before holds the text and the vector of the first chunk of its key. */
  lemma NewPassageIsTheFirst(ps: map<Id, Passage>, chunks: seq<Chunk>, ids: seq<Id>, id: Id)
    requires Unique(ps) && |chunks| <= |ids| && Fresh(ps, ids)
    requires id in Insert(ps, Firsts(chunks), ids) && id !in ps
    ensures var passage := Insert(ps, Firsts(chunks), ids)[id];
            && Seen(chunks, passage.key)
            && var first := chunks[FirstOf(chunks, passage.key)];
            passage.model == first.model && passage.text == first.text && passage.vector == first.vector
  {
    var rows := Firsts(chunks);
    InsertOnlyAdds(ps, rows, ids);
    var j :| 0 <= j < |rows| && Insert(ps, rows, ids)[id] == RowOf(rows[j]);
    FirstsAreChunks(chunks, rows[j]);
  }

  /**
   * A chunk ends up placed, with its own document, number, range and text, exactly when its name was stored before or
   * the first chunk of its key in the call is of its model. The passage it is placed on is of its model and key: the
   * row that was stored, unchanged, or else a new one with the text and vector of that first chunk.
   */
  lemma PlacedExactlyWhenStored(db: Store, doc: Doc, chunks: seq<Chunk>, ids: seq<Id>, i: nat)
    requires Inv(db) && |chunks| <= |ids| && Fresh(db.passages, ids) && i < |chunks|
    requires NewIds(Others(db.placements, doc), chunks)
    ensures var after, c := Replace(db, doc, chunks, ids), chunks[i];
            && Seen(chunks, c.key) && after.Some?
            && var first := chunks[FirstOf(chunks, c.key)];
            && (c.id in after.value.placements <==> Has(db.passages, c.model, c.key) || first.model == c.model)
            && (c.id in after.value.placements ==>
                var p := after.value.placements[c.id];
                && Places(p, c)
                && p.passage in after.value.passages
                && var passage := after.value.passages[p.passage];
                && passage.model == c.model && passage.key == c.key
                && if Has(db.passages, c.model, c.key)
                   then p.passage in db.passages && passage == db.passages[p.passage]
                   else passage.text == first.text && passage.vector == first.vector)
  {
    var ps := Insert(db.passages, Firsts(chunks), ids);
    PlaceSucceeds(ps, Others(db.placements, doc), chunks);
    var after, c := Replace(db, doc, chunks, ids), chunks[i];
    StoredExactly(db.passages, chunks, ids, c);
    ReplaceByParts(db, doc, chunks, ids);
    assert PlacedOrNot(ps, after.value.placements, chunks[i]);
    if c.id in after.value.placements {
      assert c.id !in Others(db.placements, doc);
      assert Accounts(ps, chunks, c.id);
      var j :| 0 <= j < |chunks| && chunks[j].id == c.id && Has(ps, chunks[j].model, chunks[j].key);
      assert j == i;
      var id := after.value.placements[c.id].passage;
      assert Used(after.value.placements, id);
      FoundBefore(db.passages, ps, c.model, c.key, id);
      if id !in db.passages {
        NewPassageIsTheFirst(db.passages, chunks, ids, id);
      }
    }
  }

  /** A name that was stored keeps its row. */
  lemma FoundBefore(ps: map<Id, Passage>, after: map<Id, Passage>, model: Model, key: Key, id: Id)
    requires Unique(after) && Keeps(ps, after) && id in after && Named(after[id], model, key)
    ensures id in ps <==> Has(ps, model, key)
  {
    if Has(ps, model, key) {
      var kept := Find(ps, model, key).value;
      assert after[kept] == ps[kept];
      assert Named(after[id], after[kept].model, after[kept].key);
    }
  }

  /** So a call whose chunks share one model places them all. */
  lemma OneModelPlacesAll(db: Store, doc: Doc, chunks: seq<Chunk>, ids: seq<Id>, i: nat)
    requires Inv(db) && |chunks| <= |ids| && Fresh(db.passages, ids) && i < |chunks|
    requires NewIds(Others(db.placements, doc), chunks)
    requires forall j, k :: 0 <= j < |chunks| && 0 <= k < |chunks| ==> chunks[j].model == chunks[k].model
    ensures var after := Replace(db, doc, chunks, ids); after.Some? && chunks[i].id in after.value.placements
  {
    PlacedExactlyWhenStored(db, doc, chunks, ids, i);
  }

  /** Two models in one call can lose a chunk: the second here has a key the first took for another model. */
  lemma MixedModelsLoseAChunk()
    ensures var chunks := [Chunk(1, 7, 0, 5, 0, 0, 4, "text", []), Chunk(2, 7, 1, 5, 1, 4, 8, "text", [])];
            var after := Replace(Store(map[], map[]), 7, chunks, [10, 11]);
            after.Some? && 1 in after.value.placements && 2 !in after.value.placements
  {
    var db := Store(map[], map[]);
    var chunks := [Chunk(1, 7, 0, 5, 0, 0, 4, "text", []), Chunk(2, 7, 1, 5, 1, 4, 8, "text", [])];
    PlacedExactlyWhenStored(db, 7, chunks, [10, 11], 0);
    PlacedExactlyWhenStored(db, 7, chunks, [10, 11], 1);
    assert FirstOf(chunks, 5) == 0;
  }

  // ---- a document processed twice ----

  ghost predicate SameButId(c: Chunk, d: Chunk) {
    && c.model == d.model && c.key == d.key
    && forall passage :: PlacementOf(c, passage) == PlacementOf(d, passage)
  }

  /** The same chunks, under ids of another run. */
  ghost predicate SameButIds(chunks: seq<Chunk>, again: seq<Chunk>) {
    && |again| == |chunks|
    && forall i :: 0 <= i < |chunks| ==> SameButId(chunks[i], again[i])
  }

  /** The names of a call that are stored stay stored through its sweep, under the same ids. */
  lemma FoundStaysFound(db: Store, doc: Doc, chunks: seq<Chunk>, ps: map<Id, Passage>, after: Store, i: nat)
    requires Inv(db) && Replaced(db, doc, chunks, ps, after) && i < |chunks|
    ensures Find(after.passages, chunks[i].model, chunks[i].key) == Find(ps, chunks[i].model, chunks[i].key)
  {
    var c := chunks[i];
    if Has(ps, c.model, c.key) {
      assert PlacedOrNot(ps, after.placements, chunks[i]);
      var id := Find(ps, c.model, c.key).value;
      assert after.placements[c.id].passage == id;
      assert Used(after.placements, id);
      assert Named(after.passages[id], c.model, c.key);
    }
  }

  lemma SameFirsts(chunks: seq<Chunk>, again: seq<Chunk>, key: Key)
    requires SameButIds(chunks, again) && Seen(again, key)
    ensures Seen(chunks, key) && FirstOf(again, key) == FirstOf(chunks, key)
  {
    var i := FirstOf(again, key);
    assert SameButId(chunks[i], again[i]);
    var j := FirstOf(chunks, key);
    assert SameButId(chunks[j], again[j]);
    assert forall k :: 0 <= k < |chunks| ==> SameButId(chunks[k], again[k]);
  }

  /** The second run finds every passage it would insert already there. */
  lemma NothingNewToInsert(db: Store, doc: Doc, chunks: seq<Chunk>, ids: seq<Id>, again: seq<Chunk>, after: Store)
    requires Inv(db) && |chunks| <= |ids| && Fresh(db.passages, ids) && SameButIds(chunks, again)
    requires Replace(db, doc, chunks, ids) == Some(after)
    ensures AllNamed(after.passages, Firsts(again))
  {
    var ps := Insert(db.passages, Firsts(chunks), ids);
    ReplaceByParts(db, doc, chunks, ids);
    forall k | 0 <= k < |Firsts(again)|
      ensures Has(after.passages, Firsts(again)[k].model, Firsts(again)[k].key)
    {
      var row := Firsts(again)[k];
      FirstsAreChunks(again, row);
      SameFirsts(chunks, again, row.key);
      var i := FirstOf(chunks, row.key);
      assert SameButId(chunks[i], again[i]);
      StoredExactly(db.passages, chunks, ids, chunks[i]);
      FoundStaysFound(db, doc, chunks, ps, after, i);
    }
  }

  lemma OthersStay(db: Store, doc: Doc, chunks: seq<Chunk>, ps: map<Id, Passage>, after: Store)
    requires Replaced(db, doc, chunks, ps, after)
    requires forall i :: 0 <= i < |chunks| ==> chunks[i].doc == doc
    ensures Others(after.placements, doc) == Others(db.placements, doc)
  {
    forall p | p in after.placements && p !in Others(db.placements, doc)
      ensures after.placements[p].doc == doc
    {
      assert Accounts(ps, chunks, p);
      var i :| 0 <= i < |chunks| && chunks[i].id == p && Has(ps, chunks[i].model, chunks[i].key);
      assert PlacedOrNot(ps, after.placements, chunks[i]);
    }
  }

  /** What the second run lets go of it takes up again. */
  lemma ReleasedIsTakenAgain(db: Store, doc: Doc, chunks: seq<Chunk>, ps: map<Id, Passage>, first: Store,
                             again: seq<Chunk>, second: map<Id, Placement>, id: Id)
    requires Inv(db) && Replaced(db, doc, chunks, ps, first) && SameButIds(chunks, again)
    requires PlacedExactly(first.passages, Others(db.placements, doc), again, second)
    requires id in Released(first.placements, doc)
    ensures Used(second, id)
  {
    var p :| p in first.placements && first.placements[p].doc == doc && first.placements[p].passage == id;
    assert p !in Others(db.placements, doc);
    assert Accounts(ps, chunks, p);
    var i :| 0 <= i < |chunks| && chunks[i].id == p && Has(ps, chunks[i].model, chunks[i].key);
    assert PlacedOrNot(ps, first.placements, chunks[i]);
    FoundStaysFound(db, doc, chunks, ps, first, i);
    assert SameButId(chunks[i], again[i]);
    assert PlacedOrNot(first.passages, second, again[i]);
    assert second[again[i].id].passage == id;
  }

  /** The second run's statements, seen from the state the first one left. */
  lemma SecondByParts(db: Store, doc: Doc, chunks: seq<Chunk>, ids: seq<Id>, again: seq<Chunk>, moreIds: seq<Id>,
                      first: Store, second: Store)
    requires Inv(db) && |chunks| <= |ids| && Fresh(db.passages, ids)
    requires Replace(db, doc, chunks, ids) == Some(first)
    requires forall i :: 0 <= i < |chunks| ==> chunks[i].doc == doc
    requires SameButIds(chunks, again) && |again| <= |moreIds| && Replace(first, doc, again, moreIds) == Some(second)
    ensures Others(first.placements, doc) == Others(db.placements, doc)
    ensures PlacedExactly(first.passages, Others(db.placements, doc), again, second.placements)
    ensures second.passages == Sweep(first.passages, second.placements, Released(first.placements, doc))
  {
    hide Replaced, PlacedExactly, AllNamed, Sweep, Others, Released, Place, Insert, Firsts, SameButIds, NoneDangling,
         NoneOrphaned, Unique, Fresh;
    var ps := Insert(db.passages, Firsts(chunks), ids);
    ReplaceByParts(db, doc, chunks, ids);
    OthersStay(db, doc, chunks, ps, first);
    NothingNewToInsert(db, doc, chunks, ids, again, first);
    InsertNothing(first.passages, Firsts(again), moreIds);
    PlaceIsExact(first.passages, Others(first.placements, doc), again);
  }

  /** A chunk that is stored has, after the second run, the placement it had after the first. */
  lemma SamePlacement(db: Store, doc: Doc, chunks: seq<Chunk>, ps: map<Id, Passage>, first: Store,
                      again: seq<Chunk>, second: map<Id, Placement>, i: nat)
    requires Inv(db) && Replaced(db, doc, chunks, ps, first) && SameButIds(chunks, again)
    requires PlacedExactly(first.passages, Others(db.placements, doc), again, second)
    requires i < |chunks| && Has(first.passages, chunks[i].model, chunks[i].key)
    ensures chunks[i].id in first.placements && again[i].id in second
    ensures second[again[i].id] == first.placements[chunks[i].id]
  {
    FoundStaysFound(db, doc, chunks, ps, first, i);
    assert PlacedOrNot(ps, first.placements, chunks[i]);
    assert SameButId(chunks[i], again[i]);
    assert PlacedOrNot(first.passages, second, again[i]);
  }

  /**
   * A document processed twice is a document processed once: the passages are the very same rows, other
   * documents' placements too, and each chunk has the placement it had, under its new id.
   */
  lemma TwiceIsOnce(db: Store, doc: Doc, chunks: seq<Chunk>, ids: seq<Id>, again: seq<Chunk>, moreIds: seq<Id>,
                    first: Store, second: Store)
    requires Inv(db) && |chunks| <= |ids| && Fresh(db.passages, ids)
    requires Replace(db, doc, chunks, ids) == Some(first)
    requires forall i :: 0 <= i < |chunks| ==> chunks[i].doc == doc
    requires SameButIds(chunks, again) && |again| <= |moreIds| && Replace(first, doc, again, moreIds) == Some(second)
    ensures second.passages == first.passages
    ensures Others(second.placements, doc) == Others(first.placements, doc)
    ensures forall i :: 0 <= i < |chunks| && Has(first.passages, chunks[i].model, chunks[i].key) ==>
              && chunks[i].id in first.placements && again[i].id in second.placements
              && second.placements[again[i].id] == first.placements[chunks[i].id]
  {
    assert |again| == |chunks|;
    hide Replaced, PlacedExactly, AllNamed, Sweep, Others, Released, Place, Insert, Firsts, SameButIds, NoneDangling,
         NoneOrphaned, Unique, Fresh, Find, Used;
    var ps := Insert(db.passages, Firsts(chunks), ids);
    ReplaceByParts(db, doc, chunks, ids);
    SecondByParts(db, doc, chunks, ids, again, moreIds, first, second);
    SecondOthers(db, doc, chunks, ps, first, again, second);
    forall i | 0 <= i < |chunks| && Has(first.passages, chunks[i].model, chunks[i].key)
      ensures chunks[i].id in first.placements && again[i].id in second.placements
      ensures second.placements[again[i].id] == first.placements[chunks[i].id]
    {
      SamePlacement(db, doc, chunks, ps, first, again, second.placements, i);
    }
    forall id | id in Released(first.placements, doc)
      ensures Used(second.placements, id)
    {
      ReleasedIsTakenAgain(db, doc, chunks, ps, first, again, second.placements, id);
    }
    NothingSwept(first.passages, second.placements, Released(first.placements, doc));
  }

  lemma NothingSwept(ps: map<Id, Passage>, placements: map<Id, Placement>, released: set<Id>)
    requires forall id :: id in released ==> Used(placements, id)
    ensures Sweep(ps, placements, released) == ps
  {
  }

  lemma SecondOthers(db: Store, doc: Doc, chunks: seq<Chunk>, ps: map<Id, Passage>, first: Store,
                     again: seq<Chunk>, second: Store)
    requires forall i :: 0 <= i < |chunks| ==> chunks[i].doc == doc
    requires SameButIds(chunks, again)
    requires PlacedExactly(first.passages, Others(db.placements, doc), again, second.placements)
    ensures Others(second.placements, doc) == Others(db.placements, doc)
  {
    forall p | p in second.placements && p !in Others(db.placements, doc)
      ensures second.placements[p].doc == doc
    {
      assert Accounts(first.passages, again, p);
      var i :| 0 <= i < |again| && again[i].id == p && Has(first.passages, again[i].model, again[i].key);
      assert PlacedOrNot(first.passages, second.placements, again[i]);
      assert SameButId(chunks[i], again[i]);
      assert PlacementOf(chunks[i], 0) == PlacementOf(again[i], 0);
    }
  }

  // ---- the repository ----

  class ChunkRepo {
    var passages: map<Id, Passage>
    var placements: map<Id, Placement>

    ghost function State(): Store
      reads this
    {
      Store(passages, placements)
    }

    method FindRow(model: Model, key: Key) returns (r: Option<Id>)
      requires Unique(passages)
      ensures r == Find(passages, model, key)
    {
      var hits := set id | id in passages && Named(passages[id], model, key);
      assert Has(passages, model, key) ==> Find(passages, model, key).value in hits;
      if hits == {} {
        return None;
      }
      var id :| id in hits;
      return Some(id);
    }

    /** ReplaceChunks: one transaction, which either does all of it or leaves everything as it was. */
    method ReplaceChunks(doc: Doc, chunks: seq<Chunk>, ids: seq<Id>) returns (ok: bool)
      requires Inv(State()) && |chunks| <= |ids| && Fresh(passages, ids)
      modifies this
      ensures Inv(State())
      ensures ok == Replace(old(State()), doc, chunks, ids).Some?
      ensures State() == if ok then Replace(old(State()), doc, chunks, ids).value else old(State())
    {
      ReplaceKeepsInv(State(), doc, chunks, ids);
      var passagesBefore, placementsBefore := passages, placements;
      var released := Released(placements, doc);
      placements := Others(placements, doc);
      ok := true;
      if |chunks| > 0 {
        ok := InsertChunks(chunks, ids);
        if !ok {
          passages, placements := passagesBefore, placementsBefore;
          return;
        }
      }
      if released != {} {
        passages := Sweep(passages, placements, released);
      } else {
        assert Sweep(passages, placements, released) == passages;
      }
    }

    /** insertChunks: each distinct passage once, then a placement per chunk. */
    method InsertChunks(chunks: seq<Chunk>, ids: seq<Id>) returns (ok: bool)
      requires Unique(passages) && |chunks| <= |ids| && Fresh(passages, ids)
      modifies this
      ensures passages == Insert(old(passages), Firsts(chunks), ids)
      ensures var placed := Place(passages, old(placements), chunks);
              ok == placed.Some? && (ok ==> placements == placed.value)
    {
      var rows := DistinctRows(chunks);
      InsertKeeps(passages, rows, ids);
      InsertRows(rows, ids);
      ok := PlaceChunks(chunks);
    }

    method InsertRows(rows: seq<Chunk>, ids: seq<Id>)
      requires Unique(passages) && |rows| <= |ids| && Fresh(passages, ids)
      modifies this`passages
      ensures passages == Insert(old(passages), rows, ids)
    {
      for n := 0 to |rows|
        invariant passages == Insert(old(passages), rows[..n], ids)
      {
        assert rows[..n + 1][..n] == rows[..n];
        InsertKeeps(old(passages), rows[..n], ids);
        var row := FindRow(rows[n].model, rows[n].key);
        if row.None? {
          passages := passages[ids[n] := RowOf(rows[n])];
        }
      }
      assert rows[..|rows|] == rows;
    }

    method PlaceChunks(chunks: seq<Chunk>) returns (ok: bool)
      requires Unique(passages)
      modifies this`placements
      ensures var placed := Place(passages, old(placements), chunks);
              ok == placed.Some? && (ok ==> placements == placed.value)
    {
      ok := true;
      for n := 0 to |chunks|
        invariant Place(passages, old(placements), chunks[..n]) == if ok then Some(placements) else None
      {
        assert chunks[..n + 1][..n] == chunks[..n];
        var c := chunks[n];
        var row := FindRow(c.model, c.key);
        if ok && row.Some? {
          if c.id in placements {
            ok := false;
          } else {
            placements := placements[c.id := PlacementOf(c, row.value)];
          }
        }
      }
      assert chunks[..|chunks|] == chunks;
    }

    static method DistinctRows(chunks: seq<Chunk>) returns (rows: seq<Chunk>)
      ensures rows == Firsts(chunks)
    {
      rows := [];
      var seen: set<Key> := {};
      for n := 0 to |chunks|
        invariant rows == Firsts(chunks[..n])
        invariant seen == set i | 0 <= i < n :: chunks[i].key
      {
        assert chunks[..n + 1][..n] == chunks[..n];
        assert chunks[n].key in seen <==> Seen(chunks[..n], chunks[n].key) by {
          assert forall i :: 0 <= i < n ==> chunks[..n][i] == chunks[i];
        }
        if chunks[n].key !in seen {
          seen := seen + {chunks[n].key};
          rows := rows + [chunks[n]];
        }
      }
      assert chunks[..|chunks|] == chunks;
    }
  }
}
