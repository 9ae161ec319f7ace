/**
 * The browse order of a mailbox, written three times: as the order the service checks pages with, as the SQL ORDER BY
 * the store sorts with, and as the SQL predicate that selects what follows a page boundary.
 */
module Keyset {
  import opened Wrappers

  datatype Order = NewestFirst | OldestFirst

  /** One row's position: its date, which may be absent, then its identifier. */
  datatype Key = Key(sentAt: Option<int>, docID: int) {
    predicate Undated() { sentAt.None? }
  }

  predicate NewestFirstBefore(a: Key, b: Key) {
    if a.Undated() && b.Undated() then a.docID > b.docID
    else if a.Undated() then false
    else if b.Undated() then true
    else if a.sentAt != b.sentAt then a.sentAt.value > b.sentAt.value
    else a.docID > b.docID
  }

  predicate Before(o: Order, a: Key, b: Key) {
    if o == OldestFirst then NewestFirstBefore(b, a) else NewestFirstBefore(a, b)
  }

  /** afterKey: k belongs strictly after the page boundary prev. */
  predicate AfterKey(o: Order, prev: Key, k: Key) { Before(o, prev, k) }

  lemma BeforeIsStrictTotalOrder(o: Order, a: Key, b: Key, c: Key)
    ensures !Before(o, a, a)
    ensures Before(o, a, b) && Before(o, b, c) ==> Before(o, a, c)
    ensures a == b || Before(o, a, b) || Before(o, b, a)
    ensures !(Before(o, a, b) && Before(o, b, a))
  {
  }

  // ---- SQL values: NULL makes a comparison unknown, and WHERE keeps only what is true ----

  datatype Truth = True | False | Unknown

  function Of(b: bool): Truth { if b then True else False }

  function And(a: Truth, b: Truth): Truth {
    if a == False || b == False then False else if a == True && b == True then True else Unknown
  }

  function Or(a: Truth, b: Truth): Truth {
    if a == True || b == True then True else if a == False && b == False then False else Unknown
  }

  function IsNull(x: Option<int>): Truth { Of(x.None?) }
  function IsNotNull(x: Option<int>): Truth { Of(x.Some?) }
  function Less(x: Option<int>, y: Option<int>): Truth { if x.Some? && y.Some? then Of(x.value < y.value) else Unknown }
  function Equal(x: Option<int>, y: Option<int>): Truth { if x.Some? && y.Some? then Of(x.value == y.value) else Unknown }

  /** keysetPredicate, evaluated on the columns of one row; the boundary's date is a bound parameter. */
  function KeysetPredicate(o: Order, k: Key, sentAt: Option<int>, docID: int): Truth {
    match o
    case OldestFirst =>
      if k.Undated() then Or(And(IsNull(sentAt), Of(docID > k.docID)), IsNotNull(sentAt))
      else And(IsNotNull(sentAt), Or(Less(k.sentAt, sentAt), And(Equal(sentAt, k.sentAt), Of(docID > k.docID))))
    case NewestFirst =>
      if k.Undated() then And(IsNull(sentAt), Of(docID < k.docID))
      else Or(Or(IsNull(sentAt), Less(sentAt, k.sentAt)), And(Equal(sentAt, k.sentAt), Of(docID < k.docID)))
  }

  /** The predicate the store selects with is the order the service verifies with, NULL dates included. */
  lemma KeysetIsAfterKey(o: Order, prev: Key, k: Key)
    ensures KeysetPredicate(o, prev, k.sentAt, k.docID) == True <==> AfterKey(o, prev, k)
  {
  }

  datatype Nulls = NullsFirst | NullsLast
  datatype Direction = Asc | Desc

  /** How one ORDER BY term compares two values: strictly before, or not decided by this term. */
  predicate TermBefore(d: Direction, n: Nulls, x: Option<int>, y: Option<int>) {
    match (x, y)
    case (None, None) => false
    case (None, Some(_)) => n == NullsFirst
    case (Some(_), None) => n == NullsLast
    case (Some(a), Some(b)) => if d == Asc then a < b else a > b
  }

  /** orderSQL: sent_at DESC NULLS LAST, doc_id DESC, or sent_at ASC NULLS FIRST, doc_id ASC. */
  predicate OrderBy(o: Order, a: Key, b: Key) {
    var (d, n) := if o == OldestFirst then (Asc, NullsFirst) else (Desc, NullsLast);
    || TermBefore(d, n, a.sentAt, b.sentAt)
    || (!TermBefore(d, n, b.sentAt, a.sentAt) && TermBefore(d, n, Some(a.docID), Some(b.docID)))
  }

  lemma OrderByIsBefore(o: Order, a: Key, b: Key)
    ensures OrderBy(o, a, b) <==> Before(o, a, b)
  {
  }

  // ---- sorted lists ----

  datatype Row = Row(key: Key, ingestedAt: int, columns: string)

  /** Identifiers are unique, as a primary key is. */
  ghost predicate UniqueIDs(rows: set<Row>) {
    forall a, b :: a in rows && b in rows && a.key.docID == b.key.docID ==> a == b
  }

  ghost predicate IsFirst(rows: set<Row>, o: Order, r: Row) {
    r in rows && forall s :: s in rows && s != r ==> Before(o, r.key, s.key)
  }

  lemma {:induction false} FirstExists(rows: set<Row>, o: Order) returns (r: Row)
    requires rows != {} && UniqueIDs(rows)
    ensures IsFirst(rows, o, r)
    decreases |rows|
  {
    r :| r in rows;
    if rows == {r} {
      return;
    }
    assert rows - {r} != {} by {
      var s :| s in rows && s != r;
      assert s in rows - {r};
    }
    var s := FirstExists(rows - {r}, o);
    BeforeIsStrictTotalOrder(o, r.key, s.key, s.key);
    if Before(o, s.key, r.key) {
      return s;
    }
    forall t | t in rows && t != r ensures Before(o, r.key, t.key) {
      BeforeIsStrictTotalOrder(o, r.key, s.key, t.key);
    }
  }

  ghost function Sort(rows: set<Row>, o: Order): (list: seq<Row>)
    requires UniqueIDs(rows)
    decreases |rows|
  {
    if rows == {} then []
    else
      assert exists r :: IsFirst(rows, o, r) by { var r := FirstExists(rows, o); }
      var r :| IsFirst(rows, o, r);
      [r] + Sort(rows - {r}, o)
  }

  predicate Sorted(list: seq<Row>, o: Order) {
    forall i, j :: 0 <= i < j < |list| ==> Before(o, list[i].key, list[j].key)
  }

  lemma SortedInFront(r: Row, list: seq<Row>, o: Order)
    requires Sorted(list, o) && forall s :: s in list ==> Before(o, r.key, s.key)
    ensures Sorted([r] + list, o)
  {
  }

  lemma {:induction false} SortSorts(rows: set<Row>, o: Order)
    requires UniqueIDs(rows)
    ensures Sorted(Sort(rows, o), o)
    ensures forall r :: r in Sort(rows, o) <==> r in rows
    decreases |rows|
  {
    if rows != {} {
      var list := Sort(rows, o);
      var r, rest := list[0], list[1..];
      assert rest == Sort(rows - {r}, o);
      SortSorts(rows - {r}, o);
      SortedInFront(r, rest, o);
      assert list == [r] + rest;
    }
  }

  /** A sorted list is determined by the rows in it. */
  lemma {:induction false} SortedIsUnique(a: seq<Row>, b: seq<Row>, o: Order)
    requires Sorted(a, o) && Sorted(b, o) && forall r :: r in a <==> r in b
    ensures a == b
    decreases |a|
  {
    assert b != [] ==> b[0] in a;
    if a != [] {
      assert a[0] in b;
      HeadsAgree(a, b, o);
      forall r ensures r in a[1..] <==> r in b[1..] {
        InTail(a, o, r);
        InTail(b, o, r);
      }
      SortedIsUnique(a[1..], b[1..], o);
      assert a == [a[0]] + a[1..] && b == [b[0]] + b[1..];
    }
  }

  lemma HeadsAgree(a: seq<Row>, b: seq<Row>, o: Order)
    requires a != [] && b != [] && Sorted(a, o) && Sorted(b, o) && a[0] in b && b[0] in a
    ensures a[0] == b[0]
  {
    if a[0] != b[0] {
      assert Before(o, b[0].key, a[0].key);
      assert Before(o, a[0].key, b[0].key);
      BeforeIsStrictTotalOrder(o, a[0].key, b[0].key, a[0].key);
    }
  }

  lemma InTail(a: seq<Row>, o: Order, r: Row)
    requires a != [] && Sorted(a, o)
    ensures r in a[1..] <==> r in a && r != a[0]
  {
    BeforeIsStrictTotalOrder(o, a[0].key, a[0].key, a[0].key);
    if r in a && r != a[0] {
      var i :| 0 <= i < |a| && a[i] == r;
      assert a[1..][i - 1] == r;
    }
  }

  function Reverse(list: seq<Row>): (r: seq<Row>)
    ensures |r| == |list| && forall i :: 0 <= i < |list| ==> r[i] == list[|list| - 1 - i]
  {
    if list == [] then [] else Reverse(list[1..]) + [list[0]]
  }

  /** Oldest first enumerates exactly the rows of newest first, in the opposite direction. */
  lemma OldestIsNewestReversed(rows: set<Row>)
    requires UniqueIDs(rows)
    ensures Sort(rows, OldestFirst) == Reverse(Sort(rows, NewestFirst))
  {
    var newest := Sort(rows, NewestFirst);
    SortSorts(rows, NewestFirst);
    SortSorts(rows, OldestFirst);
    var reversed := Reverse(newest);
    forall r ensures r in reversed <==> r in newest {
      if r in newest {
        var i :| 0 <= i < |newest| && newest[i] == r;
        assert reversed[|newest| - 1 - i] == r;
      }
    }
    SortedIsUnique(Sort(rows, OldestFirst), reversed, OldestFirst);
  }

  lemma NotBehind(list: seq<Row>, o: Order, c: nat, i: nat)
    requires Sorted(list, o) && c < |list| && i < |list|
    ensures Before(o, list[c].key, list[i].key) <==> c < i
  {
    BeforeIsStrictTotalOrder(o, list[c].key, list[i].key, list[c].key);
  }

  lemma RestIsAfter(list: seq<Row>, o: Order, c: nat, r: Row)
    requires Sorted(list, o) && 0 < c <= |list|
    ensures r in list[c..] <==> r in list && AfterKey(o, list[c - 1].key, r.key)
  {
    if r in list {
      var i :| 0 <= i < |list| && list[i] == r;
      NotBehind(list, o, c - 1, i);
      if c <= i {
        assert list[c..][i - c] == r;
      }
    }
    if r in list[c..] {
      var i :| 0 <= i < |list| - c && list[c..][i] == r;
      NotBehind(list, o, c - 1, c + i);
      assert list[c + i] == r;
    }
  }

  /** What sorts after the c-th row of a sorted list is the rest of that list. */
  lemma AfterBoundaryIsTheRest(rows: set<Row>, o: Order, c: nat)
    requires UniqueIDs(rows) && 0 < c <= |Sort(rows, o)|
    ensures var list := Sort(rows, o);
            var rest := set r | r in rows && AfterKey(o, list[c - 1].key, r.key);
            UniqueIDs(rest) && Sort(rest, o) == list[c..]
  {
    var list := Sort(rows, o);
    SortSorts(rows, o);
    var rest := set r | r in rows && AfterKey(o, list[c - 1].key, r.key);
    SortSorts(rest, o);
    forall r ensures r in Sort(rest, o) <==> r in list[c..] {
      RestIsAfter(list, o, c, r);
    }
    SortedIsUnique(Sort(rest, o), list[c..], o);
  }
}
