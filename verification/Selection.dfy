/** Narrowing the reranked pool to what is returned: a floor, one match per document, no repeated passage. */
module Selection {
  /** A reranked candidate. The key is its text with runs of white space collapsed, empty when it has no text. */
  datatype Scored = Scored(doc: nat, key: string, score: real)

  /** The same document, or the same passage of text. */
  predicate Repeats(a: Scored, b: Scored) { a.doc == b.doc || (a.key != "" && a.key == b.key) }

  /** Some pick repeats c. */
  predicate Taken(ranked: seq<Scored>, picks: seq<nat>, c: Scored)
    requires forall k :: 0 <= k < |picks| ==> picks[k] < |ranked|
  {
    exists k :: 0 <= k < |picks| && Repeats(ranked[picks[k]], c)
  }

  /** The ranks picked, in order. */
  function Picks(ranked: seq<Scored>, floor: real, topK: int): (r: seq<nat>)
    ensures forall k :: 0 <= k < |r| ==> r[k] < |ranked|
    decreases |ranked|
  {
    if ranked == [] then []
    else
      var n := |ranked| - 1;
      var before := Picks(ranked[..n], floor, topK);
      if ranked[n].score < floor || |before| >= topK || Taken(ranked, before, ranked[n]) then before
      else before + [n]
  }

  function BelowFloor(ranked: seq<Scored>, floor: real): (n: nat)
    decreases |ranked|
  {
    if ranked == [] then 0
    else BelowFloor(ranked[..|ranked| - 1], floor) + (if ranked[|ranked| - 1].score < floor then 1 else 0)
  }

  lemma TakenInPrefix(ranked: seq<Scored>, picks: seq<nat>, n: nat, c: Scored)
    requires n <= |ranked| && forall k :: 0 <= k < |picks| ==> picks[k] < n
    ensures Taken(ranked[..n], picks, c) == Taken(ranked, picks, c)
  {
    if Taken(ranked, picks, c) {
      var k :| 0 <= k < |picks| && Repeats(ranked[picks[k]], c);
      assert Repeats(ranked[..n][picks[k]], c);
    }
    if Taken(ranked[..n], picks, c) {
      var k :| 0 <= k < |picks| && Repeats(ranked[..n][picks[k]], c);
      assert Repeats(ranked[picks[k]], c);
    }
  }

  // ---- what is returned ----

  ghost predicate Increasing(picks: seq<nat>) {
    forall i, j :: 0 <= i < j < |picks| ==> picks[i] < picks[j]
  }

  ghost predicate NoRepeats(ranked: seq<Scored>, picks: seq<nat>)
    requires forall k :: 0 <= k < |picks| ==> picks[k] < |ranked|
  {
    forall i, j :: 0 <= i < j < |picks| ==> !Repeats(ranked[picks[i]], ranked[picks[j]])
  }

  lemma NoRepeatsWider(ranked: seq<Scored>, picks: seq<nat>, n: nat)
    requires n <= |ranked| && forall k :: 0 <= k < |picks| ==> picks[k] < n
    requires NoRepeats(ranked[..n], picks)
    ensures NoRepeats(ranked, picks)
  {
    forall i, j | 0 <= i < j < |picks|
      ensures !Repeats(ranked[picks[i]], ranked[picks[j]])
    {
      assert !Repeats(ranked[..n][picks[i]], ranked[..n][picks[j]]);
    }
  }

  lemma NoRepeatsSnoc(ranked: seq<Scored>, picks: seq<nat>, n: nat)
    requires n < |ranked| && forall k :: 0 <= k < |picks| ==> picks[k] < n
    requires NoRepeats(ranked[..n], picks) && !Taken(ranked, picks, ranked[n])
    ensures NoRepeats(ranked, picks + [n])
  {
    var r := picks + [n];
    forall i, j | 0 <= i < j < |r|
      ensures !Repeats(ranked[r[i]], ranked[r[j]])
    {
      if j < |picks| {
        assert !Repeats(ranked[..n][picks[i]], ranked[..n][picks[j]]);
      }
    }
  }

  /** Picks come in rank order, reach the floor, are at most topK, and repeat neither a document nor a passage. */
  lemma {:induction false} PicksAreSound(ranked: seq<Scored>, floor: real, topK: int)
    ensures var r := Picks(ranked, floor, topK);
            && Increasing(r) && NoRepeats(ranked, r) && |r| <= (if topK > 0 then topK else 0)
            && forall k :: 0 <= k < |r| ==> ranked[r[k]].score >= floor
    decreases |ranked|
  {
    if ranked != [] {
      var n := |ranked| - 1;
      hide Repeats, Taken, NoRepeats;
      var before := Picks(ranked[..n], floor, topK);
      PicksAreSound(ranked[..n], floor, topK);
      NoRepeatsWider(ranked, before, n);
      if !Taken(ranked, before, ranked[n]) {
        NoRepeatsSnoc(ranked, before, n);
      }
    }
  }

  /** A candidate passed over is below the floor, repeats a better-ranked pick, or came when topK were picked. */
  ghost predicate Passed(ranked: seq<Scored>, picks: seq<nat>, floor: real, topK: int, i: nat)
    requires i < |ranked| && forall k :: 0 <= k < |picks| ==> picks[k] < |ranked|
  {
    || ranked[i].score < floor
    || |picks| >= topK
    || exists k :: 0 <= k < |picks| && picks[k] < i && Repeats(ranked[picks[k]], ranked[i])
  }

  lemma {:induction false} NothingIsPassedOverFreely(ranked: seq<Scored>, floor: real, topK: int, i: nat)
    requires i < |ranked|
    ensures var r := Picks(ranked, floor, topK); i !in r ==> Passed(ranked, r, floor, topK, i)
    decreases |ranked|
  {
    var n := |ranked| - 1;
    var before, r := Picks(ranked[..n], floor, topK), Picks(ranked, floor, topK);
    if i < n {
      NothingIsPassedOverFreely(ranked[..n], floor, topK, i);
      if i !in r && ranked[i].score >= floor && |before| < topK {
        var k :| 0 <= k < |before| && before[k] < i && Repeats(ranked[..n][before[k]], ranked[..n][i]);
        assert r[k] == before[k];
      }
    }
  }

  /** Asking for more only appends: the first picks are the same whatever topK is. */
  lemma {:induction false} MoreOnlyAppends(ranked: seq<Scored>, floor: real, topK: int, more: int)
    requires topK <= more
    ensures Picks(ranked, floor, topK) <= Picks(ranked, floor, more)
    ensures |Picks(ranked, floor, topK)| < topK ==> Picks(ranked, floor, topK) == Picks(ranked, floor, more)
    decreases |ranked|
  {
    if ranked != [] {
      MoreOnlyAppends(ranked[..|ranked| - 1], floor, topK, more);
    }
  }

  /** A question every candidate of which falls below the floor returns nothing, and says how many fell. */
  lemma {:induction false} OffDomainReturnsNothing(ranked: seq<Scored>, floor: real, topK: int)
    requires topK > 0
    ensures Picks(ranked, floor, topK) == [] <==> BelowFloor(ranked, floor) == |ranked|
    ensures BelowFloor(ranked, floor) <= |ranked|
    decreases |ranked|
  {
    if ranked != [] {
      OffDomainReturnsNothing(ranked[..|ranked| - 1], floor, topK);
    }
  }

  function DocsOf(picked: seq<Scored>): (r: set<nat>) { set k | 0 <= k < |picked| :: picked[k].doc }

  function KeysOf(picked: seq<Scored>): (r: set<string>) {
    set k | 0 <= k < |picked| && picked[k].key != "" :: picked[k].key
  }

  lemma OneMore(picked: seq<Scored>, c: Scored)
    ensures DocsOf(picked + [c]) == DocsOf(picked) + {c.doc}
    ensures KeysOf(picked + [c]) == KeysOf(picked) + (if c.key != "" then {c.key} else {})
  {
    var r := picked + [c];
    assert r[|picked|] == c;
    assert forall k :: 0 <= k < |picked| ==> r[k] == picked[k];
  }

  method SelectPackets(ranked: seq<Scored>, floor: real, topK: int) returns (picked: seq<Scored>, floored: nat)
    ensures var picks := Picks(ranked, floor, topK);
            |picked| == |picks| && forall k :: 0 <= k < |picked| ==> picked[k] == ranked[picks[k]]
    ensures floored == BelowFloor(ranked, floor)
  {
    picked, floored := [], 0;
    var docs: set<nat>, keys: set<string> := {}, {};
    for i := 0 to |ranked|
      invariant var picks := Picks(ranked[..i], floor, topK);
                |picked| == |picks| && forall k :: 0 <= k < |picked| ==> picked[k] == ranked[picks[k]]
      invariant floored == BelowFloor(ranked[..i], floor)
      invariant docs == DocsOf(picked) && keys == KeysOf(picked)
    {
      var c := ranked[i];
      ghost var picks := Picks(ranked[..i], floor, topK);
      assert ranked[..i + 1][..i] == ranked[..i];
      TakenInPrefix(ranked, picks, i + 1, c);
      assert Taken(ranked, picks, c) <==> c.doc in docs || c.key in keys;
      if c.score < floor {
        floored := floored + 1;
      } else if |picked| < topK && c.doc !in docs && !(c.key != "" && c.key in keys) {
        OneMore(picked, c);
        docs := docs + {c.doc};
        if c.key != "" {
          keys := keys + {c.key};
        }
        picked := picked + [c];
      }
    }
    assert ranked[..|ranked|] == ranked;
  }
}
