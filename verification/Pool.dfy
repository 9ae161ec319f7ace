/** Which candidates reach the reranker, and which reranked candidates are returned. */
module Pool {
  import Sets
  import StableSort

  type Id = nat

  datatype Candidate = Candidate(id: Id, doc: Id, rrf: real, denseRank: int, lexRank: int)

  function Ids(cs: seq<Candidate>): (r: set<Id>) { set i | 0 <= i < |cs| :: cs[i].id }

  ghost predicate Distinct(cs: seq<Candidate>) {
    forall i, j :: 0 <= i < j < |cs| ==> cs[i].id != cs[j].id
  }

  function Concat(groups: seq<seq<Candidate>>): (r: seq<Candidate>)
    decreases |groups|
  {
    if groups == [] then [] else Concat(groups[..|groups| - 1]) + groups[|groups| - 1]
  }

  predicate DenseOnly(c: Candidate) { c.denseRank > 0 && c.lexRank == 0 }

  // ---- filling ----

  /** Takes candidates in order, each id once, until the pool is full. */
  function Fill(pool: seq<Candidate>, cs: seq<Candidate>, limit: int): (r: seq<Candidate>)
    decreases |cs|
  {
    if cs == [] then pool
    else
      var n := |cs| - 1;
      var before := Fill(pool, cs[..n], limit);
      if |before| >= limit || cs[n].id in Ids(before) then before else before + [cs[n]]
  }

  function First(g: seq<Candidate>, floor: int): (r: seq<Candidate>) {
    if floor <= 0 then [] else if floor < |g| then g[..floor] else g
  }

  /** The first candidates of each group. */
  function Floors(pool: seq<Candidate>, groups: seq<seq<Candidate>>, floor: int, limit: int): (r: seq<Candidate>)
    decreases |groups|
  {
    if groups == [] then pool
    else
      var n := |groups| - 1;
      Fill(Floors(pool, groups[..n], floor, limit), First(groups[n], floor), limit)
  }

  /** Takes dense-only candidates in order until enough are new or the pool is full. */
  function DenseFill(pool: seq<Candidate>, cs: seq<Candidate>, floor: int, limit: int): (r: seq<Candidate>)
    ensures |r| >= |pool|
    decreases |cs|
  {
    if cs == [] then pool
    else
      var n := |cs| - 1;
      var before := DenseFill(pool, cs[..n], floor, limit);
      if |before| - |pool| >= floor || |before| >= limit || !DenseOnly(cs[n]) || cs[n].id in Ids(before)
      then before else before + [cs[n]]
  }

  // ---- the score order: sort.SliceStable by RRF, best first ----

  const BEST_FIRST: Candidate -> real := (c: Candidate) => -c.rrf

  ghost predicate ByScore(cs: seq<Candidate>) {
    forall i, j :: 0 <= i < j < |cs| ==> cs[i].rrf >= cs[j].rrf
  }

  function SortByScore(cs: seq<Candidate>): (r: seq<Candidate>) { StableSort.Sort(cs, BEST_FIRST) }

  lemma SortByScoreFacts(cs: seq<Candidate>)
    ensures ByScore(SortByScore(cs)) && multiset(SortByScore(cs)) == multiset(cs)
  {
    StableSort.SortSorts(cs, BEST_FIRST);
    StableSort.SortKeeps(cs, BEST_FIRST);
    var r := SortByScore(cs);
    forall i, j | 0 <= i < j < |r|
      ensures r[i].rrf >= r[j].rrf
    {
      assert BEST_FIRST(r[i]) <= BEST_FIRST(r[j]);
    }
  }

  // ---- poolCandidates ----

  datatype Config = Config(floorPerSubQuery: int, floorDenseOnly: int)

  function AfterSubQueries(groups: seq<seq<Candidate>>, config: Config, limit: int): (r: seq<Candidate>) {
    if |groups| > 1 && config.floorPerSubQuery > 0 then Floors([], groups, config.floorPerSubQuery, limit) else []
  }

  function Reserved(groups: seq<seq<Candidate>>, config: Config, limit: int): (r: seq<Candidate>) {
    DenseFill(AfterSubQueries(groups, config, limit), Concat(groups), config.floorDenseOnly, limit)
  }

  function PoolOf(groups: seq<seq<Candidate>>, config: Config, limit: int): (r: seq<Candidate>) {
    Fill(Reserved(groups, config, limit), SortByScore(Concat(groups)), limit)
  }

  /** The pool there would be with no reservation. */
  function ScorePool(groups: seq<seq<Candidate>>, limit: int): (r: seq<Candidate>) {
    Fill([], SortByScore(Concat(groups)), limit)
  }

  function FlooredFlag(groups: seq<seq<Candidate>>, config: Config, limit: int): bool {
    Reserved(groups, config, limit) != [] && |PoolOf(groups, config, limit)| >= limit
  }

  // ---- what filling keeps ----

  predicate Capacity(pool: seq<Candidate>, limit: int) { |pool| <= limit || pool == [] }

  /** A fill extends the pool by candidates of its list, each id once, within the limit, leaving none out before it is full. */
  lemma {:induction false} FillFacts(pool: seq<Candidate>, cs: seq<Candidate>, limit: int)
    requires Distinct(pool) && Capacity(pool, limit)
    ensures var r := Fill(pool, cs, limit);
            && pool <= r && Distinct(r) && Capacity(r, limit)
            && (forall i :: |pool| <= i < |r| ==> r[i] in cs)
            && (|r| < limit ==> Ids(cs) <= Ids(r))
    decreases |cs|
  {
    if cs != [] {
      var n := |cs| - 1;
      FillFacts(pool, cs[..n], limit);
      var before := Fill(pool, cs[..n], limit);
      assert cs[..n] + [cs[n]] == cs;
      SnocIds(cs[..n], cs[n]);
      SnocIds(before, cs[n]);
    }
  }

  lemma SnocIds(cs: seq<Candidate>, c: Candidate)
    ensures Ids(cs + [c]) == Ids(cs) + {c.id}
  {
    assert (cs + [c])[|cs|] == c;
    assert forall i :: 0 <= i < |cs| ==> (cs + [c])[i] == cs[i];
  }

  /** A dense-only reservation stops at its floor, at the limit, or when every dense-only candidate is in. */
  lemma {:induction false} DenseFillFacts(pool: seq<Candidate>, cs: seq<Candidate>, floor: int, limit: int)
    requires Distinct(pool) && Capacity(pool, limit)
    ensures var r := DenseFill(pool, cs, floor, limit);
            && pool <= r && Distinct(r) && Capacity(r, limit)
            && (forall i :: |pool| <= i < |r| ==> r[i] in cs && DenseOnly(r[i]))
            && (|r| == |pool| || |r| - |pool| <= floor)
            && (|r| - |pool| < floor && |r| < limit ==> forall c :: c in cs && DenseOnly(c) ==> c.id in Ids(r))
    decreases |cs|
  {
    if cs != [] {
      var n := |cs| - 1;
      DenseFillFacts(pool, cs[..n], floor, limit);
      var before := DenseFill(pool, cs[..n], floor, limit);
      assert cs[..n] + [cs[n]] == cs;
      SnocIds(before, cs[n]);
    }
  }

  /** A list that fits in what is left of the pool is taken whole. */
  lemma {:induction false} FillTakesAll(pool: seq<Candidate>, cs: seq<Candidate>, limit: int)
    requires |pool| + |cs| <= limit
    ensures var r := Fill(pool, cs, limit);
            |r| <= |pool| + |cs| && Ids(cs) <= Ids(r) && Ids(pool) <= Ids(r)
    decreases |cs|
  {
    if cs != [] {
      var n := |cs| - 1;
      FillTakesAll(pool, cs[..n], limit);
      assert cs[..n] + [cs[n]] == cs;
      SnocIds(cs[..n], cs[n]);
      SnocIds(Fill(pool, cs[..n], limit), cs[n]);
    }
  }

  lemma {:induction false} FloorsFacts(groups: seq<seq<Candidate>>, floor: int, limit: int)
    ensures var r := Floors([], groups, floor, limit);
            Distinct(r) && Capacity(r, limit) && forall i :: 0 <= i < |r| ==> r[i] in Concat(groups)
    decreases |groups|
  {
    if groups != [] {
      var n := |groups| - 1;
      FloorsFacts(groups[..n], floor, limit);
      FillFacts(Floors([], groups[..n], floor, limit), First(groups[n], floor), limit);
    }
  }

  /** When the limit has room for every floor, each group's first candidates are in. */
  lemma {:induction false} FloorsTakeAll(groups: seq<seq<Candidate>>, floor: nat, limit: int, g: nat)
    requires |groups| * floor <= limit && g < |groups|
    ensures var r := Floors([], groups, floor, limit);
            |r| <= |groups| * floor && Ids(First(groups[g], floor)) <= Ids(r)
    decreases |groups|
  {
    hide Fill, Ids;
    var n := |groups| - 1;
    var before := Floors([], groups[..n], floor, limit);
    assert |groups| * floor == n * floor + floor;
    if n > 0 {
      FloorsTakeAll(groups[..n], floor, limit, if g < n then g else 0);
    } else {
      assert before == [];
    }
    FillTakesAll(before, First(groups[n], floor), limit);
  }

  /** What a fill leaves out it left out because it was full, and it took nothing after that. */
  lemma {:induction false} FillStoppedBefore(pool: seq<Candidate>, cs: seq<Candidate>, limit: int, j: nat)
    requires j < |cs| && cs[j].id !in Ids(Fill(pool, cs, limit))
    ensures Fill(pool, cs, limit) == Fill(pool, cs[..j], limit) && |Fill(pool, cs, limit)| >= limit
    decreases |cs|
  {
    var n := |cs| - 1;
    var before := Fill(pool, cs[..n], limit);
    SnocIds(before, cs[n]);
    if j < n {
      FillStoppedBefore(pool, cs[..n], limit, j);
      assert cs[..n][..j] == cs[..j];
    }
  }

  /** In a fill by score nothing left out beats anything taken. */
  lemma BestAreTaken(pool: seq<Candidate>, cs: seq<Candidate>, limit: int, j: nat, f: nat)
    requires Distinct(pool) && Capacity(pool, limit) && ByScore(cs)
    requires j < |cs| && cs[j].id !in Ids(Fill(pool, cs, limit))
    requires |pool| <= f < |Fill(pool, cs, limit)|
    ensures cs[j].rrf <= Fill(pool, cs, limit)[f].rrf
  {
    FillStoppedBefore(pool, cs, limit, j);
    FillFacts(pool, cs[..j], limit);
  }

  /** What a fill takes from a list in score order it adds in score order. */
  lemma {:induction false} FillIsInOrder(pool: seq<Candidate>, cs: seq<Candidate>, limit: int)
    requires Distinct(pool) && Capacity(pool, limit) && ByScore(cs)
    ensures pool <= Fill(pool, cs, limit) && ByScore(Fill(pool, cs, limit)[|pool|..])
    decreases |cs|
  {
    FillFacts(pool, cs, limit);
    if cs == [] {
      assert Fill(pool, cs, limit)[|pool|..] == [];
    } else {
      var n := |cs| - 1;
      var before, r := Fill(pool, cs[..n], limit), Fill(pool, cs, limit);
      FillFacts(pool, cs[..n], limit);
      FrontByScore(cs, n);
      FillIsInOrder(pool, cs[..n], limit);
      var added := before[|pool|..];
      if r != before {
        assert r == before + [cs[n]];
        forall i | 0 <= i < |added| ensures added[i].rrf >= cs[n].rrf {
          assert before[|pool| + i] in cs[..n];
        }
        ByScoreSnoc(added, cs[n]);
        assert r[|pool|..] == added + [cs[n]];
      }
    }
  }

  lemma FrontByScore(cs: seq<Candidate>, n: nat)
    requires n < |cs| && ByScore(cs)
    ensures ByScore(cs[..n]) && forall c :: c in cs[..n] ==> c.rrf >= cs[n].rrf
  {
  }

  lemma ByScoreSnoc(cs: seq<Candidate>, c: Candidate)
    requires ByScore(cs) && forall i :: 0 <= i < |cs| ==> cs[i].rrf >= c.rrf
    ensures ByScore(cs + [c])
  {
  }

  // ---- the pool ----

  lemma ReservedFacts(groups: seq<seq<Candidate>>, config: Config, limit: int)
    ensures var all, sub, r := Concat(groups), AfterSubQueries(groups, config, limit), Reserved(groups, config, limit);
            && sub <= r && Distinct(r) && Capacity(r, limit) && (forall i :: 0 <= i < |r| ==> r[i] in all)
  {
    var sub := AfterSubQueries(groups, config, limit);
    FloorsFacts(groups, config.floorPerSubQuery, limit);
    DenseFillFacts(sub, Concat(groups), config.floorDenseOnly, limit);
  }

  lemma SameMembers(cs: seq<Candidate>)
    ensures forall c :: c in SortByScore(cs) <==> c in cs
    ensures Ids(SortByScore(cs)) == Ids(cs)
  {
    StableSort.SameMembers(cs, BEST_FIRST);
    var sorted := SortByScore(cs);
    forall id | id in Ids(sorted)
      ensures id in Ids(cs)
    {
      var i :| 0 <= i < |sorted| && sorted[i].id == id;
      assert sorted[i] in cs;
    }
    forall id | id in Ids(cs)
      ensures id in Ids(sorted)
    {
      var i :| 0 <= i < |cs| && cs[i].id == id;
      assert cs[i] in sorted;
    }
  }

  /** The pool holds candidates of the groups, each id once, never more than the limit, and all ids when it is not full. */
  lemma PoolIsSound(groups: seq<seq<Candidate>>, config: Config, limit: int)
    ensures var all, pool := Concat(groups), PoolOf(groups, config, limit);
            && Distinct(pool) && |pool| <= (if limit > 0 then limit else 0)
            && Reserved(groups, config, limit) <= pool
            && (forall i :: 0 <= i < |pool| ==> pool[i] in all)
            && (|pool| < limit ==> Ids(all) <= Ids(pool))
  {
    hide SortByScore, Reserved, Concat;
    ReservedFacts(groups, config, limit);
    SameMembers(Concat(groups));
    FillFacts(Reserved(groups, config, limit), SortByScore(Concat(groups)), limit);
  }

  /** Each of several sub-queries gets its first candidates in, whenever the limit has room for all the floors. */
  lemma FloorsAreKept(groups: seq<seq<Candidate>>, config: Config, limit: int, g: nat, i: nat)
    requires |groups| > 1 && g < |groups| && i < |groups[g]| && i < config.floorPerSubQuery
    requires |groups| * config.floorPerSubQuery <= limit
    ensures groups[g][i].id in Ids(PoolOf(groups, config, limit))
  {
    hide SortByScore, Concat, Fill;
    var id := groups[g][i].id;
    FloorsTakeAll(groups, config.floorPerSubQuery, limit, g);
    assert First(groups[g], config.floorPerSubQuery)[i].id == id;
    ReservedFacts(groups, config, limit);
    PoolIsSound(groups, config, limit);
    PrefixIds(AfterSubQueries(groups, config, limit), Reserved(groups, config, limit));
    PrefixIds(Reserved(groups, config, limit), PoolOf(groups, config, limit));
  }

  lemma PrefixIds(a: seq<Candidate>, b: seq<Candidate>)
    requires a <= b
    ensures Ids(a) <= Ids(b)
  {
    forall id | id in Ids(a)
      ensures id in Ids(b)
    {
      var i :| 0 <= i < |a| && a[i].id == id;
      assert b[i].id == id;
    }
  }

  /** Candidates only the dense leg found are reserved too: the floor of them, or the pool full, or all of them. */
  lemma DenseOnlyFloorIsKept(groups: seq<seq<Candidate>>, config: Config, limit: int, c: Candidate)
    requires c in Concat(groups) && c.denseRank > 0 && c.lexRank == 0 && c.id !in Ids(PoolOf(groups, config, limit))
    ensures |Reserved(groups, config, limit)| - |AfterSubQueries(groups, config, limit)| >= config.floorDenseOnly ||
            |PoolOf(groups, config, limit)| >= limit
  {
    hide SortByScore, Concat, Fill;
    FloorsFacts(groups, config.floorPerSubQuery, limit);
    DenseFillFacts(AfterSubQueries(groups, config, limit), Concat(groups), config.floorDenseOnly, limit);
    PoolIsSound(groups, config, limit);
    PrefixIds(Reserved(groups, config, limit), PoolOf(groups, config, limit));
  }

  /** No candidate left out has a better score than one the score fill admitted, and what it admitted is in score order. */
  lemma NothingBetterIsLeftOut(groups: seq<seq<Candidate>>, config: Config, limit: int, c: Candidate, f: nat)
    requires c in Concat(groups) && c.id !in Ids(PoolOf(groups, config, limit))
    requires |Reserved(groups, config, limit)| <= f < |PoolOf(groups, config, limit)|
    ensures c.rrf <= PoolOf(groups, config, limit)[f].rrf
    ensures ByScore(PoolOf(groups, config, limit)[|Reserved(groups, config, limit)|..])
  {
    hide SortByScore, Concat, Reserved;
    var sorted := SortByScore(Concat(groups));
    ReservedFacts(groups, config, limit);
    SameMembers(Concat(groups));
    SortByScoreFacts(Concat(groups));
    var j :| 0 <= j < |sorted| && sorted[j] == c;
    BestAreTaken(Reserved(groups, config, limit), sorted, limit, j, f);
    FillIsInOrder(Reserved(groups, config, limit), sorted, limit);
  }

  // ---- the pool by its parts ----

  ghost predicate InGroups(groups: seq<seq<Candidate>>, c: Candidate) { exists g :: 0 <= g < |groups| && c in groups[g] }

  /** One of the first candidates of some group. */
  ghost predicate LeadsAGroup(groups: seq<seq<Candidate>>, floor: int, c: Candidate) {
    exists g, i :: 0 <= g < |groups| && 0 <= i < |groups[g]| && i < floor && groups[g][i] == c
  }

  lemma {:induction false} ConcatHolds(groups: seq<seq<Candidate>>, c: Candidate)
    ensures c in Concat(groups) <==> InGroups(groups, c)
    decreases |groups|
  {
    if groups != [] {
      var n := |groups| - 1;
      ConcatHolds(groups[..n], c);
      if c in groups[n] {
        assert InGroups(groups, c);
      } else {
        if InGroups(groups, c) {
          var g :| 0 <= g < |groups| && c in groups[g];
          assert c in groups[..n][g];
        }
        if InGroups(groups[..n], c) {
          var g :| 0 <= g < n && c in groups[..n][g];
          assert c in groups[g];
        }
      }
    }
  }

  lemma {:induction false} FloorsLead(groups: seq<seq<Candidate>>, floor: int, limit: int, k: nat)
    requires k < |Floors([], groups, floor, limit)|
    ensures LeadsAGroup(groups, floor, Floors([], groups, floor, limit)[k])
    decreases |groups|
  {
    var n := |groups| - 1;
    var before, first := Floors([], groups[..n], floor, limit), First(groups[n], floor);
    FloorsFacts(groups[..n], floor, limit);
    FillFacts(before, first, limit);
    var c := Floors([], groups, floor, limit)[k];
    if k < |before| {
      FloorsLead(groups[..n], floor, limit, k);
      var g, i :| 0 <= g < n && 0 <= i < |groups[..n][g]| && i < floor && groups[..n][g][i] == c;
      assert groups[g][i] == c;
    } else {
      var i :| 0 <= i < |first| && first[i] == c;
      assert groups[n][i] == c;
    }
  }

  ghost predicate DenseRest(groups: seq<seq<Candidate>>, ids: set<Id>) {
    forall c :: InGroups(groups, c) && c.denseRank > 0 && c.lexRank == 0 ==> c.id in ids
  }

  /**
   * The pool is three lists: the reservation for the sub-queries, first candidates of their groups, which there is when
   * there are several; the reservation for candidates the dense leg alone found, at most its floor of them, and short
   * of that only when the pool is full or no more are left; and then the rest, in score order, none of them beaten by a
   * candidate left out. The flag says that something was reserved and the pool is full.
   */
  lemma PoolByParts(groups: seq<seq<Candidate>>, config: Config, limit: int)
    returns (leading: seq<Candidate>, dense: seq<Candidate>, rest: seq<Candidate>)
    ensures PoolOf(groups, config, limit) == leading + dense + rest
    ensures FlooredFlag(groups, config, limit) <==> leading + dense != [] && |leading + dense + rest| >= limit
    ensures |groups| <= 1 || config.floorPerSubQuery <= 0 ==> leading == []
    ensures forall c :: c in leading ==> LeadsAGroup(groups, config.floorPerSubQuery, c)
    ensures forall c :: c in dense ==> InGroups(groups, c) && c.denseRank > 0 && c.lexRank == 0
    ensures dense == [] || |dense| <= config.floorDenseOnly
    ensures |dense| < config.floorDenseOnly && |leading + dense| < limit ==> DenseRest(groups, Ids(leading + dense))
    ensures forall i, j :: 0 <= i < j < |rest| ==> rest[i].rrf >= rest[j].rrf
    ensures forall c, r :: InGroups(groups, c) && c.id !in Ids(leading + dense + rest) && r in rest ==> c.rrf <= r.rrf
  {
    leading := LeadingPart(groups, config, limit);
    dense := DensePart(groups, config, limit);
    PoolIsSound(groups, config, limit);
    var reserved, pool := Reserved(groups, config, limit), PoolOf(groups, config, limit);
    rest := pool[|reserved|..];
    assert reserved + rest == pool;
    assert FlooredFlag(groups, config, limit) <==> reserved != [] && |pool| >= limit;
    hide Reserved, PoolOf, AfterSubQueries, Concat, LeadsAGroup, Distinct, Ids, InGroups, DenseRest, FlooredFlag;
    RestIsByScore(groups, config, limit, rest);
    forall c | InGroups(groups, c) ensures c in Concat(groups) {
      ConcatHolds(groups, c);
    }
  }

  lemma LeadingPart(groups: seq<seq<Candidate>>, config: Config, limit: int) returns (leading: seq<Candidate>)
    ensures leading == AfterSubQueries(groups, config, limit)
    ensures |groups| <= 1 || config.floorPerSubQuery <= 0 ==> leading == []
    ensures forall c :: c in leading ==> LeadsAGroup(groups, config.floorPerSubQuery, c)
  {
    leading := AfterSubQueries(groups, config, limit);
    forall c | c in leading ensures LeadsAGroup(groups, config.floorPerSubQuery, c) {
      var k :| 0 <= k < |leading| && leading[k] == c;
      FloorsLead(groups, config.floorPerSubQuery, limit, k);
    }
  }

  lemma DensePart(groups: seq<seq<Candidate>>, config: Config, limit: int) returns (dense: seq<Candidate>)
    ensures AfterSubQueries(groups, config, limit) + dense == Reserved(groups, config, limit)
    ensures forall c :: c in dense ==> InGroups(groups, c) && c.denseRank > 0 && c.lexRank == 0
    ensures dense == [] || |dense| <= config.floorDenseOnly
    ensures var reserved := Reserved(groups, config, limit);
            |dense| < config.floorDenseOnly && |reserved| < limit ==> DenseRest(groups, Ids(reserved))
  {
    var leading, reserved, all := AfterSubQueries(groups, config, limit), Reserved(groups, config, limit), Concat(groups);
    FloorsFacts(groups, config.floorPerSubQuery, limit);
    DenseFillFacts(leading, all, config.floorDenseOnly, limit);
    hide DenseFill, Floors, Concat, InGroups, Distinct, Ids, AfterSubQueries, Reserved, DenseRest, DenseOnly;
    dense := TailIsDense(groups, leading, reserved);
    if |dense| < config.floorDenseOnly && |reserved| < limit {
      AllDenseAreIn(groups, Ids(reserved));
    }
  }

  lemma TailIsDense(groups: seq<seq<Candidate>>, front: seq<Candidate>, all: seq<Candidate>) returns (tail: seq<Candidate>)
    requires front <= all && forall i :: |front| <= i < |all| ==> all[i] in Concat(groups) && DenseOnly(all[i])
    ensures front + tail == all
    ensures forall c :: c in tail ==> InGroups(groups, c) && c.denseRank > 0 && c.lexRank == 0
  {
    hide Concat, InGroups;
    tail := all[|front|..];
    forall c | c in tail ensures InGroups(groups, c) && c.denseRank > 0 && c.lexRank == 0 {
      var k :| 0 <= k < |tail| && tail[k] == c;
      assert all[|front| + k] == c;
      ConcatHolds(groups, c);
    }
  }

  lemma AllDenseAreIn(groups: seq<seq<Candidate>>, ids: set<Id>)
    requires forall c :: c in Concat(groups) && DenseOnly(c) ==> c.id in ids
    ensures DenseRest(groups, ids)
  {
    forall c | InGroups(groups, c) && c.denseRank > 0 && c.lexRank == 0 ensures c.id in ids {
      ConcatHolds(groups, c);
    }
  }

  lemma RestIsByScore(groups: seq<seq<Candidate>>, config: Config, limit: int, rest: seq<Candidate>)
    requires Reserved(groups, config, limit) + rest == PoolOf(groups, config, limit)
    ensures forall i, j :: 0 <= i < j < |rest| ==> rest[i].rrf >= rest[j].rrf
    ensures forall c, r :: c in Concat(groups) && c.id !in Ids(PoolOf(groups, config, limit)) && r in rest ==> c.rrf <= r.rrf
  {
    hide Ids, Concat, SortByScore;
    var reserved, sorted := Reserved(groups, config, limit), SortByScore(Concat(groups));
    ReservedFacts(groups, config, limit);
    SortByScoreFacts(Concat(groups));
    FillIsInOrder(reserved, sorted, limit);
    hide Reserved, PoolOf;
    assert PoolOf(groups, config, limit)[|reserved|..] == rest;
    forall c, r | c in Concat(groups) && c.id !in Ids(PoolOf(groups, config, limit)) && r in rest ensures c.rrf <= r.rrf {
      var k :| 0 <= k < |rest| && rest[k] == r;
      NothingBetterIsLeftOut(groups, config, limit, c, |reserved| + k);
    }
  }

  // ---- the flag ----

  lemma IdsCount(cs: seq<Candidate>)
    requires Distinct(cs)
    ensures |Ids(cs)| == |cs|
    decreases |cs|
  {
    if cs != [] {
      var n := |cs| - 1;
      IdsCount(cs[..n]);
      SnocIds(cs[..n], cs[n]);
      assert cs[..n] + [cs[n]] == cs;
    }
  }

  /** A pool that is not reported as floored holds just what score order alone would have chosen. */
  lemma UnflooredIsScoreOrder(groups: seq<seq<Candidate>>, config: Config, limit: int)
    requires !FlooredFlag(groups, config, limit)
    ensures Ids(PoolOf(groups, config, limit)) == Ids(ScorePool(groups, limit))
  {
    hide SortByScore, Concat, Fill, Reserved;
    var all, pool, pure := Concat(groups), PoolOf(groups, config, limit), ScorePool(groups, limit);
    if Reserved(groups, config, limit) != [] {
      PoolIsSound(groups, config, limit);
      SameMembers(all);
      FillFacts([], SortByScore(all), limit);
      MembersIds(pool, all);
      MembersIds(pure, all);
      IdsCount(pool);
      IdsCount(pure);
      Sets.SmallerSet(Ids(pure), Ids(pool));
    }
  }

  lemma MembersIds(cs: seq<Candidate>, all: seq<Candidate>)
    requires forall i :: 0 <= i < |cs| ==> cs[i] in all
    ensures Ids(cs) <= Ids(all)
  {
  }

  /** What a fill adds to its reservations, a fill without them takes too: it can only run out of room later. */
  lemma {:induction false} AddedIsInScore(pool: seq<Candidate>, cs: seq<Candidate>, limit: int, f: nat, i: nat)
    requires Distinct(pool) && Capacity(pool, limit)
    requires |pool| <= f < |Fill(pool, cs, limit)| && i < |cs| && cs[i] == Fill(pool, cs, limit)[f]
    ensures Fill(pool, cs, limit)[f].id in Ids(Fill([], cs, limit))
    decreases i
  {
    if cs[i].id !in Ids(Fill([], cs, limit)) {
      StopsNoLater(pool, cs, limit, i);
      FillFacts(pool, cs[..i], limit);
      assert Fill(pool, cs[..i], limit)[f] in cs[..i];
      var j :| 0 <= j < i && cs[..i][j] == Fill(pool, cs, limit)[f];
      AddedIsInScore(pool, cs, limit, f, j);
    }
  }

  /** Where score order alone had stopped, the reserved fill has stopped too. */
  lemma StopsNoLater(pool: seq<Candidate>, cs: seq<Candidate>, limit: int, i: nat)
    requires Distinct(pool) && Capacity(pool, limit)
    requires i < |cs| && cs[i].id !in Ids(Fill([], cs, limit))
    ensures Fill(pool, cs, limit) == Fill(pool, cs[..i], limit)
  {
    hide Fill;
    var pure, part := Fill([], cs, limit), Fill(pool, cs[..i], limit);
    FillStoppedBefore([], cs, limit, i);
    FillFacts([], cs[..i], limit);
    FillFacts(pool, cs[..i], limit);
    MembersIds(pure, cs[..i]);
    IdsCount(pure);
    IdsCount(part);
    if |part| < limit {
      Sets.SmallerSet(Ids(pure), Ids(part));
    }
    FillWhenFull(pool, cs, limit, i);
  }

  lemma AddedIdsAreInScore(pool: seq<Candidate>, cs: seq<Candidate>, limit: int)
    requires Distinct(pool) && Capacity(pool, limit) && Ids(pool) <= Ids(Fill([], cs, limit))
    ensures Ids(Fill(pool, cs, limit)) <= Ids(Fill([], cs, limit))
  {
    hide Fill;
    var r := Fill(pool, cs, limit);
    FillFacts(pool, cs, limit);
    forall id | id in Ids(r)
      ensures id in Ids(Fill([], cs, limit))
    {
      var f :| 0 <= f < |r| && r[f].id == id;
      if f < |pool| {
        assert pool[f].id in Ids(pool);
      } else {
        var i :| 0 <= i < |cs| && cs[i] == r[f];
        AddedIsInScore(pool, cs, limit, f, i);
      }
    }
  }

  /** A full pool holds what score order alone would have chosen exactly when it would have chosen what was reserved. */
  lemma FullPoolIsScoreOrderExactly(groups: seq<seq<Candidate>>, config: Config, limit: int)
    requires |PoolOf(groups, config, limit)| >= limit
    ensures Ids(PoolOf(groups, config, limit)) == Ids(ScorePool(groups, limit)) <==>
            Ids(Reserved(groups, config, limit)) <= Ids(ScorePool(groups, limit))
  {
    hide SortByScore, Concat, Fill, Reserved;
    var sorted, reserved := SortByScore(Concat(groups)), Reserved(groups, config, limit);
    var pool, pure := PoolOf(groups, config, limit), ScorePool(groups, limit);
    ReservedFacts(groups, config, limit);
    FillFacts(reserved, sorted, limit);
    FillFacts([], sorted, limit);
    PrefixIds(reserved, pool);
    if Ids(reserved) <= Ids(pure) {
      AddedIdsAreInScore(reserved, sorted, limit);
      IdsCount(pool);
      IdsCount(pure);
      Sets.SmallerSet(Ids(pool), Ids(pure));
    }
  }

  /** The flag is a false alarm exactly when something was reserved, the pool is full, and score order would have taken it. */
  lemma FalseAlarmExactly(groups: seq<seq<Candidate>>, config: Config, limit: int)
    ensures FlooredFlag(groups, config, limit) && Ids(PoolOf(groups, config, limit)) == Ids(ScorePool(groups, limit)) <==>
            && Reserved(groups, config, limit) != [] && |PoolOf(groups, config, limit)| >= limit
            && Ids(Reserved(groups, config, limit)) <= Ids(ScorePool(groups, limit))
  {
    hide Reserved, PoolOf, ScorePool;
    if |PoolOf(groups, config, limit)| >= limit {
      FullPoolIsScoreOrderExactly(groups, config, limit);
    }
  }

  lemma ConcatOfTwo(a: Candidate, b: Candidate)
    ensures Concat([[a], [b]]) == [a, b]
  {
    var one := [[a]];
    assert one[..0] == [] && Concat(one) == Concat([]) + [a] == [a];
    assert [[a], [b]][..1] == one;
  }

  lemma IdsOfTwo(a: Candidate, b: Candidate)
    ensures Ids([a, b]) == {a.id, b.id}
  {
    SnocIds([a], b);
    assert [a] + [b] == [a, b] && [a][0] == a;
  }

  /** A fill with room for all of its candidates takes all of their ids. */
  lemma RoomForAll(pool: seq<Candidate>, cs: seq<Candidate>, limit: int)
    requires Distinct(pool) && Capacity(pool, limit) && Ids(pool) <= Ids(cs) && |Ids(cs)| <= limit
    ensures Ids(Fill(pool, cs, limit)) == Ids(cs)
    ensures |Fill(pool, cs, limit)| == |Ids(cs)|
  {
    hide Fill;
    var r := Fill(pool, cs, limit);
    FillFacts(pool, cs, limit);
    IdsCount(r);
    AddedIds(pool, cs, limit);
    Sets.SmallerSet(Ids(r), Ids(cs));
  }

  lemma AddedIds(pool: seq<Candidate>, cs: seq<Candidate>, limit: int)
    requires Distinct(pool) && Capacity(pool, limit)
    ensures Ids(Fill(pool, cs, limit)) <= Ids(pool) + Ids(cs)
  {
    hide Fill;
    var r := Fill(pool, cs, limit);
    FillFacts(pool, cs, limit);
    forall id | id in Ids(r)
      ensures id in Ids(pool) + Ids(cs)
    {
      var f :| 0 <= f < |r| && r[f].id == id;
      if f < |pool| {
        assert pool[f].id in Ids(pool);
      } else {
        assert r[f] in cs;
      }
    }
  }

  /**
   * Such a false alarm: two sub-queries of one candidate each fill a pool of two exactly as score order would, and the
   * reservation is reported all the same.
   */
  lemma FlooredCanBeScoreOrder(a: Candidate, b: Candidate)
    requires a.id != b.id
    ensures var groups, config := [[a], [b]], Config(1, 0);
            FlooredFlag(groups, config, 2) && Ids(PoolOf(groups, config, 2)) == Ids(ScorePool(groups, 2))
  {
    hide Fill, SortByScore, Concat, Reserved;
    var groups, config := [[a], [b]], Config(1, 0);
    var all, reserved := Concat(groups), Reserved(groups, config, 2);
    ConcatOfTwo(a, b);
    IdsOfTwo(a, b);
    ReservedFacts(groups, config, 2);
    MembersIds(reserved, all);
    SameMembers(all);
    RoomForAll(reserved, SortByScore(all), 2);
    RoomForAll([], SortByScore(all), 2);
    FirstIsReserved(a, b, config);
  }

  lemma FirstIsReserved(a: Candidate, b: Candidate, config: Config)
    requires config.floorPerSubQuery == 1
    ensures Reserved([[a], [b]], config, 2) != []
  {
    hide Fill, Floors, Concat, DenseFill;
    var groups := [[a], [b]];
    ReservedFacts(groups, config, 2);
    FloorsTakeAll(groups, 1, 2, 0);
    assert First(groups[0], 1)[0] == a;
    assert a.id in Ids(AfterSubQueries(groups, config, 2));
  }

  // ---- the loops ----

  lemma {:induction false} FillWhenFull(pool: seq<Candidate>, cs: seq<Candidate>, limit: int, j: nat)
    requires j <= |cs| && |Fill(pool, cs[..j], limit)| >= limit
    ensures Fill(pool, cs, limit) == Fill(pool, cs[..j], limit)
    decreases |cs|
  {
    if j < |cs| {
      assert cs[..|cs| - 1][..j] == cs[..j];
      FillWhenFull(pool, cs[..|cs| - 1], limit, j);
    } else {
      assert cs[..j] == cs;
    }
  }

  lemma {:induction false} DenseFillWhenDone(pool: seq<Candidate>, cs: seq<Candidate>, floor: int, limit: int, j: nat)
    requires j <= |cs|
    requires var r := DenseFill(pool, cs[..j], floor, limit); |r| - |pool| >= floor || |r| >= limit
    ensures DenseFill(pool, cs, floor, limit) == DenseFill(pool, cs[..j], floor, limit)
    decreases |cs|
  {
    if j < |cs| {
      assert cs[..|cs| - 1][..j] == cs[..j];
      DenseFillWhenDone(pool, cs[..|cs| - 1], floor, limit, j);
    } else {
      assert cs[..j] == cs;
    }
  }

  /** Takes from cs in order until the pool is full. */
  method TakeInOrder(pool: seq<Candidate>, cs: seq<Candidate>, limit: int) returns (pooled: seq<Candidate>)
    ensures pooled == Fill(pool, cs, limit)
  {
    pooled := pool;
    for i := 0 to |cs|
      invariant pooled == Fill(pool, cs[..i], limit)
    {
      if |pooled| >= limit {
        FillWhenFull(pool, cs, limit, i);
        return;
      }
      assert cs[..i + 1][..i] == cs[..i];
      if cs[i].id !in Ids(pooled) {
        pooled := pooled + [cs[i]];
      }
    }
    assert cs[..|cs|] == cs;
  }

  lemma DenseFillNext(pool: seq<Candidate>, before: seq<Candidate>, g: seq<Candidate>, floor: int, limit: int, i: nat)
    requires i < |g|
    ensures var so := DenseFill(pool, before + g[..i], floor, limit);
            DenseFill(pool, before + g[..i + 1], floor, limit)
            == if |so| - |pool| >= floor || |so| >= limit || !DenseOnly(g[i]) || g[i].id in Ids(so)
               then so else so + [g[i]]
  {
    var cs := before + g[..i + 1];
    assert cs[..|cs| - 1] == before + g[..i] && cs[|cs| - 1] == g[i];
  }

  lemma DenseFillRest(pool: seq<Candidate>, before: seq<Candidate>, g: seq<Candidate>, floor: int, limit: int, i: nat)
    requires i <= |g|
    requires var r := DenseFill(pool, before + g[..i], floor, limit); |r| - |pool| >= floor || |r| >= limit
    ensures DenseFill(pool, before + g, floor, limit) == DenseFill(pool, before + g[..i], floor, limit)
  {
    assert (before + g)[..|before| + i] == before + g[..i];
    DenseFillWhenDone(pool, before + g, floor, limit, |before| + i);
  }

  /** One group's share of the dense-only reservation; `taken` counts what the whole reservation has taken. */
  method TakeDenseOnly(pool: seq<Candidate>, ghost before: seq<Candidate>, g: seq<Candidate>, floor: nat, limit: int,
                       soFar: seq<Candidate>, taken: nat)
    returns (pooled: seq<Candidate>, n: nat)
    requires soFar == DenseFill(pool, before, floor, limit) && taken == |soFar| - |pool|
    ensures pooled == DenseFill(pool, before + g, floor, limit) && n == |pooled| - |pool|
  {
    hide DenseFill;
    pooled, n := soFar, taken;
    assert before + g[..0] == before;
    for i := 0 to |g|
      invariant pooled == DenseFill(pool, before + g[..i], floor, limit)
      invariant n == |pooled| - |pool|
    {
      if n >= floor || |pooled| >= limit {
        DenseFillRest(pool, before, g, floor, limit, i);
        return;
      }
      DenseFillNext(pool, before, g, floor, limit, i);
      if DenseOnly(g[i]) && g[i].id !in Ids(pooled) {
        pooled := pooled + [g[i]];
        n := n + 1;
      }
    }
    assert g[..|g|] == g;
  }

  method ReserveDenseOnly(pool: seq<Candidate>, groups: seq<seq<Candidate>>, floor: nat, limit: int)
    returns (pooled: seq<Candidate>)
    ensures pooled == DenseFill(pool, Concat(groups), floor, limit)
  {
    pooled := pool;
    var n := 0;
    for g := 0 to |groups|
      invariant pooled == DenseFill(pool, Concat(groups[..g]), floor, limit)
      invariant n == |pooled| - |pool|
    {
      assert groups[..g + 1][..g] == groups[..g];
      pooled, n := TakeDenseOnly(pool, Concat(groups[..g]), groups[g], floor, limit, pooled, n);
    }
    assert groups[..|groups|] == groups;
  }

  method ReserveSubQueries(groups: seq<seq<Candidate>>, floor: int, limit: int) returns (pooled: seq<Candidate>)
    ensures pooled == Floors([], groups, floor, limit)
  {
    pooled := [];
    for g := 0 to |groups|
      invariant pooled == Floors([], groups[..g], floor, limit)
    {
      assert groups[..g + 1][..g] == groups[..g];
      pooled := TakeInOrder(pooled, First(groups[g], floor), limit);
    }
    assert groups[..|groups|] == groups;
  }

  lemma NoDenseFloor(pool: seq<Candidate>, cs: seq<Candidate>, floor: int, limit: int)
    requires floor <= 0
    ensures DenseFill(pool, cs, floor, limit) == pool
  {
    assert cs[..0] == [];
    DenseFillWhenDone(pool, cs, floor, limit, 0);
  }

  /** poolCandidates. */
  method PoolCandidates(groups: seq<seq<Candidate>>, config: Config, limit: int)
    returns (pooled: seq<Candidate>, floored: bool)
    ensures pooled == PoolOf(groups, config, limit)
    ensures floored == FlooredFlag(groups, config, limit)
  {
    hide DenseFill, Fill, Floors, SortByScore, Concat;
    pooled := [];
    if |groups| > 1 && config.floorPerSubQuery > 0 {
      pooled := ReserveSubQueries(groups, config.floorPerSubQuery, limit);
    }
    if config.floorDenseOnly > 0 {
      pooled := ReserveDenseOnly(pooled, groups, config.floorDenseOnly, limit);
    } else {
      NoDenseFloor(pooled, Concat(groups), config.floorDenseOnly, limit);
    }
    floored := pooled != [];
    pooled := TakeInOrder(pooled, SortByScore(Concat(groups)), limit);
    if |pooled| < limit {
      floored := false;
    }
  }
}
