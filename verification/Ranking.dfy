/** The arithmetic a retrieval run is judged by: discounted gain, and recall of documents and of their text. */
module Ranking {
  import Sets
  import StableSort

  type Doc = nat

  datatype Related = Related(doc: Doc, text: string)
  datatype Packet = Packet(doc: Doc, text: string, related: seq<Related>)
  datatype Expected = Expected(doc: Doc, grade: int)

  // ---- gain and discount ----

  function Pow2(n: nat): (r: nat)
    ensures r >= 1
  {
    if n == 0 then 1 else 2 * Pow2(n - 1)
  }

  /** 2^grade - 1 for a positive grade; nothing otherwise. */
  function Gain(grade: int): (g: nat) {
    if grade > 0 then Pow2(grade) - 1 else 0
  }

  lemma {:induction false} GainGrows(a: int, b: int)
    requires a <= b
    ensures Gain(a) <= Gain(b)
    ensures a > 0 ==> Gain(a) > 0
    decreases b
  {
    if a > 0 {
      GainGrows(a - 1, b - 1);
    }
  }

  /** Nothing for a grade that is not positive, one for the first, and twice and one more for each after it. */
  lemma GainDoubles(grade: int)
    ensures grade <= 0 ==> Gain(grade) == 0
    ensures grade == 1 ==> Gain(grade) == 1
    ensures grade >= 1 ==> Gain(grade + 1) == 2 * Gain(grade) + 1
  {
    if grade == 1 {
      assert Pow2(1) == 2 * Pow2(0);
    }
  }

  /** The discount of a rank, 1/log2(rank + 2) in the code: all that matters is that it is positive and never grows. */
  ghost predicate IsDiscount(disc: nat -> real) {
    (forall i: nat :: disc(i) > 0.0) && (forall i: nat, j: nat :: i <= j ==> disc(i) >= disc(j))
  }

  lemma DiscountAt(disc: nat -> real, i: nat, j: nat)
    requires IsDiscount(disc) && i <= j
    ensures disc(i) >= disc(j) > 0.0
  {
  }

  function Worth(gain: int, discount: real): real { gain as real * discount }

  function Dcg(grades: seq<int>, disc: nat -> real): (r: real)
    decreases |grades|
  {
    if grades == [] then 0.0
    else
      var n := |grades| - 1;
      Dcg(grades[..n], disc) + Worth(Gain(grades[n]), disc(n))
  }

  method ComputeDcg(grades: seq<int>, disc: nat -> real) returns (sum: real)
    ensures sum == Dcg(grades, disc)
  {
    sum := 0.0;
    for i := 0 to |grades|
      invariant sum == Dcg(grades[..i], disc)
    {
      assert grades[..i + 1][..i] == grades[..i];
      if grades[i] > 0 {
        sum := sum + (Pow2(grades[i]) - 1) as real * disc(i);
      }
    }
    assert grades[..|grades|] == grades;
  }

  // ---- what the packets earn ----

  /** Where the grade of a document is taken from: its last entry, or -1. */
  function EntryOf(expected: seq<Expected>, doc: Doc): (e: int)
    ensures -1 <= e < |expected|
    ensures e >= 0 ==> expected[e].doc == doc
    ensures forall i :: e < i < |expected| ==> expected[i].doc != doc
    decreases |expected|
  {
    if expected == [] then -1
    else if expected[|expected| - 1].doc == doc then |expected| - 1
    else EntryOf(expected[..|expected| - 1], doc)
  }

  predicate Listed(packets: seq<Packet>, doc: Doc) {
    exists i :: 0 <= i < |packets| && packets[i].doc == doc
  }

  /** The grade of each packet: a document earns it on its first packet only. */
  function Relevances(packets: seq<Packet>, expected: seq<Expected>): (r: seq<int>)
    ensures |r| == |packets|
    decreases |packets|
  {
    if packets == [] then []
    else
      var n := |packets| - 1;
      var e := EntryOf(expected, packets[n].doc);
      Relevances(packets[..n], expected)
      + [if e >= 0 && !Listed(packets[..n], packets[n].doc) then expected[e].grade else 0]
  }

  function Grades(expected: seq<Expected>): (r: seq<int>) { seq(|expected|, i requires 0 <= i < |expected| => expected[i].grade) }

  predicate Descending(s: seq<int>) {
    forall i, j :: 0 <= i < j < |s| ==> s[i] >= s[j]
  }

  const BEST_FIRST: int -> real := (grade: int) => -(grade as real)

  function SortDesc(s: seq<int>): (r: seq<int>) { StableSort.Sort(s, BEST_FIRST) }

  function Ndcg(packets: seq<Packet>, expected: seq<Expected>, disc: nat -> real): (r: real) {
    if expected == [] then 1.0
    else
      var ideal := Dcg(SortDesc(Grades(expected)), disc);
      if ideal == 0.0 then 0.0 else Dcg(Relevances(packets, expected), disc) / ideal
  }

  // ---- sums over a threshold ----

  function Over(grade: int, t: nat): (r: nat) { if Gain(grade) > t then Gain(grade) - t else 0 }

  function SumGain(s: seq<int>): (r: nat)
    decreases |s|
  {
    if s == [] then 0 else SumGain(s[..|s| - 1]) + Gain(s[|s| - 1])
  }

  function SumOver(s: seq<int>, t: nat): (r: nat)
    decreases |s|
  {
    if s == [] then 0 else SumOver(s[..|s| - 1], t) + Over(s[|s| - 1], t)
  }

  lemma {:induction false} InsertSums(x: int, s: seq<int>, t: nat)
    ensures SumOver(StableSort.Insert(x, s, BEST_FIRST), t) == SumOver(s, t) + Over(x, t)
    decreases |s|
  {
    if s == [] || BEST_FIRST(s[|s| - 1]) <= BEST_FIRST(x) {
      assert (s + [x])[..|s|] == s;
    } else {
      var r := StableSort.Insert(x, s[..|s| - 1], BEST_FIRST);
      InsertSums(x, s[..|s| - 1], t);
      assert (r + [s[|s| - 1]])[..|r|] == r;
    }
  }

  lemma {:induction false} SortSums(s: seq<int>, t: nat)
    ensures SumOver(SortDesc(s), t) == SumOver(s, t)
    decreases |s|
  {
    if s != [] {
      SortSums(s[..|s| - 1], t);
      InsertSums(s[|s| - 1], SortDesc(s[..|s| - 1]), t);
    }
  }

  lemma SortDescFacts(s: seq<int>, t: nat)
    ensures Descending(SortDesc(s)) && |SortDesc(s)| == |s| && SumOver(SortDesc(s), t) == SumOver(s, t)
  {
    SortSums(s, t);
    StableSort.SortSorts(s, BEST_FIRST);
    var r := SortDesc(s);
    forall i, j | 0 <= i < j < |r|
      ensures r[i] >= r[j]
    {
      assert BEST_FIRST(r[i]) <= BEST_FIRST(r[j]);
    }
  }

  /** Any k grades gain at most k thresholds and what they have above it. */
  lemma {:induction false} GainIsUnder(s: seq<int>, t: nat)
    ensures SumGain(s) <= |s| * t + SumOver(s, t)
    decreases |s|
  {
    if s != [] {
      GainIsUnder(s[..|s| - 1], t);
      assert |s| * t == (|s| - 1) * t + t;
    }
  }

  /** In descending order the first k grades gain exactly that, when the threshold is the gain of the last of them. */
  lemma {:induction false} TopIsExact(s: seq<int>, k: nat, t: nat)
    requires Descending(s) && 0 < k <= |s| && t == Gain(s[k - 1])
    ensures SumGain(s[..k]) == k * t + SumOver(s, t)
    decreases |s|
  {
    var n := |s| - 1;
    if k < |s| {
      GainGrows(s[n], s[k - 1]);
      assert s[..n][..k] == s[..k];
      TopIsExact(s[..n], k, t);
    } else {
      assert s[..k] == s;
      forall i | 0 <= i < |s|
        ensures Gain(s[i]) >= t
      {
        GainGrows(s[n], s[i]);
      }
      AllAbove(s, t);
    }
  }

  lemma {:induction false} AllAbove(s: seq<int>, t: nat)
    requires forall i :: 0 <= i < |s| ==> Gain(s[i]) >= t
    ensures SumGain(s) == |s| * t + SumOver(s, t)
    decreases |s|
  {
    if s != [] {
      AllAbove(s[..|s| - 1], t);
    }
  }

  // ---- packets earn entries, each at most once ----

  function Credited(packets: seq<Packet>, expected: seq<Expected>): (c: set<int>) {
    set i | 0 <= i < |packets| && EntryOf(expected, packets[i].doc) >= 0 :: EntryOf(expected, packets[i].doc)
  }

  /** What the entries of c have above the threshold. */
  function SumIn(expected: seq<Expected>, c: set<int>, t: nat): (r: nat)
    decreases |expected|
  {
    if expected == [] then 0
    else
      var n := |expected| - 1;
      SumIn(expected[..n], c, t) + (if n in c then Over(expected[n].grade, t) else 0)
  }

  lemma {:induction false} SumInAdd(expected: seq<Expected>, c: set<int>, j: nat, t: nat)
    requires j !in c
    ensures SumIn(expected, c + {j}, t)
         == SumIn(expected, c, t) + (if j < |expected| then Over(expected[j].grade, t) else 0)
    decreases |expected|
  {
    if expected != [] {
      SumInAdd(expected[..|expected| - 1], c, j, t);
    }
  }

  lemma {:induction false} SumInAll(expected: seq<Expected>, c: set<int>, t: nat)
    ensures SumIn(expected, c, t) <= SumOver(Grades(expected), t)
    decreases |expected|
  {
    if expected != [] {
      var n := |expected| - 1;
      SumInAll(expected[..n], c, t);
      assert Grades(expected)[..n] == Grades(expected[..n]);
    }
  }

  lemma {:induction false} RelevancesAreEntries(packets: seq<Packet>, expected: seq<Expected>, t: nat)
    ensures SumOver(Relevances(packets, expected), t) == SumIn(expected, Credited(packets, expected), t)
    decreases |packets|
  {
    if packets == [] {
      NoneIn(expected, t);
      assert Credited(packets, expected) == {};
    } else {
      var n := |packets| - 1;
      var before, e := packets[..n], EntryOf(expected, packets[n].doc);
      RelevancesAreEntries(before, expected, t);
      CreditedSnoc(before, packets[n], expected);
      assert before + [packets[n]] == packets;
      var r := Relevances(packets, expected);
      assert r[..n] == Relevances(before, expected);
      if e >= 0 && !Listed(before, packets[n].doc) {
        SumInAdd(expected, Credited(before, expected), e, t);
      }
    }
  }

  lemma {:induction false} NoneIn(expected: seq<Expected>, t: nat)
    ensures SumIn(expected, {}, t) == 0
    decreases |expected|
  {
    if expected != [] {
      NoneIn(expected[..|expected| - 1], t);
    }
  }

  lemma CreditedSnoc(before: seq<Packet>, p: Packet, expected: seq<Expected>)
    ensures var e, c := EntryOf(expected, p.doc), Credited(before, expected);
            Credited(before + [p], expected) ==
              (if e >= 0 && !Listed(before, p.doc) then c + {e} else c) &&
            (e >= 0 && !Listed(before, p.doc) ==> e !in c)
  {
    var e, c, packets := EntryOf(expected, p.doc), Credited(before, expected), before + [p];
    assert forall i :: 0 <= i < |before| ==> packets[i] == before[i];
    assert packets[|before|] == p;
    if e >= 0 && Listed(before, p.doc) {
      var i :| 0 <= i < |before| && before[i].doc == p.doc;
      assert e in c;
    }
    forall x | x in Credited(packets, expected)
      ensures x in c || x == e
    {
      var i :| 0 <= i < |packets| && EntryOf(expected, packets[i].doc) == x && x >= 0;
      if i < |before| {
        assert EntryOf(expected, before[i].doc) == x;
      }
    }
    forall x | x in c
      ensures x in Credited(packets, expected)
    {
      var i :| 0 <= i < |before| && EntryOf(expected, before[i].doc) == x && x >= 0;
      assert EntryOf(expected, packets[i].doc) == x;
    }
    if e >= 0 {
      assert EntryOf(expected, packets[|before|].doc) == e;
    }
  }

  lemma {:induction false} RelevancesPrefix(packets: seq<Packet>, expected: seq<Expected>, k: nat)
    requires k <= |packets|
    ensures Relevances(packets, expected)[..k] == Relevances(packets[..k], expected)
    decreases |packets|
  {
    if k < |packets| {
      RelevancesPrefix(packets[..|packets| - 1], expected, k);
      assert packets[..|packets| - 1][..k] == packets[..k];
    } else {
      assert packets[..k] == packets;
    }
  }

  /** What the first k packets gain is at most what the k best entries gain. */
  lemma PrefixIsDominated(packets: seq<Packet>, expected: seq<Expected>, k: nat)
    requires k <= |packets|
    ensures var ideal := SortDesc(Grades(expected));
            SumGain(Relevances(packets, expected)[..k]) <= SumGain(ideal[..if k < |ideal| then k else |ideal|])
  {
    var ideal, top := SortDesc(Grades(expected)), Relevances(packets[..k], expected);
    RelevancesPrefix(packets, expected, k);
    if k == 0 {
      assert top == [];
    } else {
      var t := if k < |ideal| then Gain(ideal[k - 1]) else 0;
      SortDescFacts(Grades(expected), t);
      GainIsUnder(top, t);
      RelevancesAreEntries(packets[..k], expected, t);
      SumInAll(expected, Credited(packets[..k], expected), t);
      if k < |ideal| {
        TopIsExact(ideal, k, t);
      } else {
        AllAbove(ideal, 0);
        assert ideal[..|ideal|] == ideal;
      }
    }
  }

  // ---- dominated prefixes discount to less ----

  function Capped(k: nat, n: nat): nat { if k < n then k else n }

  function GainAt(s: seq<int>, i: nat): nat { if i < |s| then Gain(s[i]) else 0 }

  /** What the first k grades gain, and what they gain discounted; past the end there is no more. */
  ghost function GainTo(s: seq<int>, k: nat): nat { SumGain(s[..Capped(k, |s|)]) }

  ghost function DcgTo(s: seq<int>, k: nat, disc: nat -> real): real { Dcg(s[..Capped(k, |s|)], disc) }

  lemma PrefixStep(s: seq<int>, n: nat, disc: nat -> real)
    ensures GainTo(s, n + 1) == GainTo(s, n) + GainAt(s, n)
    ensures DcgTo(s, n + 1, disc) == DcgTo(s, n, disc) + Worth(GainAt(s, n), disc(n))
  {
    if n < |s| {
      assert s[..n + 1][..n] == s[..n];
    }
  }

  ghost predicate Dominates(b: seq<int>, a: seq<int>) {
    forall k: nat :: GainTo(a, k) <= GainTo(b, k)
  }

  /** Summation by parts: what the lead of b over a is worth at the current rank is a lower bound on the difference. */
  lemma {:induction false} LeadIsKept(a: seq<int>, b: seq<int>, n: nat, disc: nat -> real)
    requires IsDiscount(disc) && Dominates(b, a)
    ensures DcgTo(b, n, disc) - DcgTo(a, n, disc) >= Worth(GainTo(b, n) - GainTo(a, n), disc(n))
    decreases n
  {
    if n == 0 {
      assert a[..0] == [] && b[..0] == [];
    } else {
      hide GainTo, DcgTo, GainAt, IsDiscount, Worth;
      var m := n - 1;
      LeadIsKept(a, b, m, disc);
      PrefixStep(a, m, disc);
      PrefixStep(b, m, disc);
      DiscountAt(disc, m, n);
      LeadStep(GainTo(b, m) - GainTo(a, m), GainTo(b, n) - GainTo(a, n), GainAt(a, m), GainAt(b, m), disc(m), disc(n),
               DcgTo(b, m, disc) - DcgTo(a, m, disc), DcgTo(b, n, disc) - DcgTo(a, n, disc));
    }
  }

  lemma LeadStep(lead: int, next: int, x: nat, y: nat, high: real, low: real, sum: real, nextSum: real)
    requires next == lead + y - x && next >= 0 && high >= low > 0.0
    requires sum >= Worth(lead, high) && nextSum == sum + Worth(y, high) - Worth(x, high)
    ensures nextSum >= Worth(next, low)
  {
    var l, k, u, v := lead as real, next as real, x as real, y as real;
    assert k == l + v - u;
    assert l * high + (v * high - u * high) == k * high;
    NonNegativeProduct(next, high - low);
    assert k * high - k * low == k * (high - low);
  }

  lemma NonNegativeProduct(n: nat, d: real)
    requires d >= 0.0
    ensures n as real * d >= 0.0
  {
  }

  lemma DominatedDiscountsToLess(a: seq<int>, b: seq<int>, disc: nat -> real)
    requires IsDiscount(disc) && Dominates(b, a)
    ensures Dcg(a, disc) <= Dcg(b, disc)
  {
    hide IsDiscount, Dcg, GainTo;
    var n := |a| + |b|;
    LeadIsKept(a, b, n, disc);
    DiscountAt(disc, n, n);
    assert a[..|a|] == a && b[..|b|] == b;
    NonNegativeProduct(GainTo(b, n) - GainTo(a, n), disc(n));
  }

  // ---- nDCG ----

  lemma {:induction false} DcgIsNonNegative(s: seq<int>, disc: nat -> real)
    requires IsDiscount(disc)
    ensures Dcg(s, disc) >= 0.0
    ensures Dcg(s, disc) == 0.0 <==> forall i :: 0 <= i < |s| ==> s[i] <= 0
    decreases |s|
  {
    if s != [] {
      var n := |s| - 1;
      DcgIsNonNegative(s[..n], disc);
      if s[n] > 0 {
        GainGrows(s[n], s[n]);
        assert Gain(s[n]) as real * disc(n) > 0.0;
      } else {
        assert forall i :: 0 <= i < n ==> s[..n][i] == s[i];
      }
    }
  }

  /** No ranking gains more than the ideal one, however often it repeats a document and whatever the grades. */
  lemma IdealIsBest(packets: seq<Packet>, expected: seq<Expected>, disc: nat -> real)
    requires IsDiscount(disc)
    ensures Dcg(Relevances(packets, expected), disc) <= Dcg(SortDesc(Grades(expected)), disc)
  {
    var a, b := Relevances(packets, expected), SortDesc(Grades(expected));
    forall k: nat
      ensures GainTo(a, k) <= GainTo(b, k)
    {
      PrefixIsDominated(packets, expected, Capped(k, |a|));
      GainToGrows(b, Capped(k, |a|), k);
    }
    DominatedDiscountsToLess(a, b, disc);
  }

  lemma {:induction false} GainToGrows(s: seq<int>, j: nat, k: nat)
    requires j <= k
    ensures GainTo(s, j) <= GainTo(s, k)
    decreases k
  {
    if j < k {
      GainToGrows(s, j, k - 1);
      PrefixStep(s, k - 1, _ => 1.0);
    }
  }

  /** nDCG lies in [0, 1] for every packet list and every graded expectation. */
  lemma NdcgIsNormalized(packets: seq<Packet>, expected: seq<Expected>, disc: nat -> real)
    requires IsDiscount(disc)
    ensures 0.0 <= Ndcg(packets, expected, disc) <= 1.0
  {
    hide IsDiscount, Dcg, Relevances, SortDesc, Grades;
    var a, b := Relevances(packets, expected), SortDesc(Grades(expected));
    IdealIsBest(packets, expected, disc);
    DcgIsNonNegative(a, disc);
    DcgIsNonNegative(b, disc);
    if Dcg(b, disc) > 0.0 {
      RatioIsNormalized(Dcg(a, disc), Dcg(b, disc));
    }
  }

  lemma RatioIsNormalized(a: real, b: real)
    requires 0.0 <= a <= b && b > 0.0
    ensures 0.0 <= a / b <= 1.0
  {
  }

  // ---- the ideal is reached ----

  lemma {:induction false} RelevanceAt(packets: seq<Packet>, expected: seq<Expected>, i: nat)
    requires i < |packets|
    ensures var e := EntryOf(expected, packets[i].doc);
            Relevances(packets, expected)[i]
            == if e >= 0 && !Listed(packets[..i], packets[i].doc) then expected[e].grade else 0
    decreases |packets|
  {
    if i < |packets| - 1 {
      RelevanceAt(packets[..|packets| - 1], expected, i);
      assert packets[..|packets| - 1][..i] == packets[..i];
    }
  }

  lemma {:induction false} SortedStays(s: seq<int>)
    requires Descending(s)
    ensures SortDesc(s) == s
    decreases |s|
  {
    if s != [] {
      var n := |s| - 1;
      SortedStays(s[..n]);
      assert n > 0 ==> BEST_FIRST(s[n - 1]) <= BEST_FIRST(s[n]);
      assert s[..n] + [s[n]] == s;
    }
  }

  lemma {:induction false} NothingAfter(a: seq<int>, b: seq<int>, disc: nat -> real)
    requires |a| <= |b| && b[..|a|] == a
    requires forall i :: |a| <= i < |b| ==> b[i] <= 0
    ensures Dcg(b, disc) == Dcg(a, disc)
    decreases |b|
  {
    if |a| < |b| {
      var n := |b| - 1;
      assert b[..n][..|a|] == a;
      NothingAfter(a, b[..n], disc);
    } else {
      assert a == b;
    }
  }

  /** Distinct documents, best first. */
  ghost predicate BestFirst(expected: seq<Expected>) {
    && Descending(Grades(expected))
    && forall i, j :: 0 <= i < j < |expected| ==> expected[i].doc != expected[j].doc
  }

  lemma {:induction false} IdealOrderEarnsAll(packets: seq<Packet>, expected: seq<Expected>, i: nat)
    requires BestFirst(expected) && |expected| <= |packets| && i < |packets|
    requires forall j :: 0 <= j < |expected| ==> packets[j].doc == expected[j].doc
    ensures Relevances(packets, expected)[i] == if i < |expected| then expected[i].grade else 0
  {
    RelevanceAt(packets, expected, i);
    var e := EntryOf(expected, packets[i].doc);
    if i < |expected| {
      assert e == i;
      forall j | 0 <= j < i
        ensures packets[..i][j].doc != packets[i].doc
      {
        assert expected[j].doc != expected[i].doc;
      }
    } else if e >= 0 {
      assert packets[..i][e].doc == packets[i].doc;
    }
  }

  /** The expected documents in order of their grades score 1, whatever follows them, unless no grade is positive. */
  lemma {:induction false} IdealOrderScoresOne(packets: seq<Packet>, expected: seq<Expected>, disc: nat -> real)
    requires IsDiscount(disc) && expected != [] && BestFirst(expected) && |expected| <= |packets|
    requires forall j :: 0 <= j < |expected| ==> packets[j].doc == expected[j].doc
    ensures Ndcg(packets, expected, disc) == if expected[0].grade > 0 then 1.0 else 0.0
  {
    var r, g := Relevances(packets, expected), Grades(expected);
    forall i | 0 <= i < |r|
      ensures r[i] == if i < |g| then g[i] else 0
    {
      IdealOrderEarnsAll(packets, expected, i);
    }
    assert r[..|g|] == g;
    NothingAfter(g, r, disc);
    SortedStays(g);
    DcgIsNonNegative(g, disc);
    assert g[0] == expected[0].grade;
    if g[0] <= 0 {
      assert forall i :: 0 <= i < |g| ==> g[i] <= 0;
    } else {
      WholeRatio(Dcg(g, disc));
    }
  }

  lemma WholeRatio(a: real)
    requires a != 0.0
    ensures a / a == 1.0
  {
  }

  /** NDCG. The ideal order is a sort of the grades. */
  method NDCG(packets: seq<Packet>, expected: seq<Expected>, disc: nat -> real) returns (r: real)
    requires IsDiscount(disc)
    ensures r == Ndcg(packets, expected, disc) && 0.0 <= r <= 1.0
  {
    NdcgIsNormalized(packets, expected, disc);
    if expected == [] {
      return 1.0;
    }
    var relevances := RelevanceVector(packets, expected);
    var gained := ComputeDcg(relevances, disc);
    var ideal := ComputeDcg(SortDesc(Grades(expected)), disc);
    r := if ideal == 0.0 then 0.0 else gained / ideal;
  }

  method RelevanceVector(packets: seq<Packet>, expected: seq<Expected>) returns (relevances: seq<int>)
    ensures relevances == Relevances(packets, expected)
  {
    var grades := GradeMap(expected);
    relevances := [];
    var credited: set<Doc> := {};
    for i := 0 to |packets|
      invariant relevances == Relevances(packets[..i], expected)
      invariant forall doc :: doc in credited <==> doc in grades && Listed(packets[..i], doc)
    {
      var doc := packets[i].doc;
      assert packets[..i + 1][..i] == packets[..i];
      ListedSnoc(packets, i);
      if doc in grades && doc !in credited {
        credited := credited + {doc};
        relevances := relevances + [grades[doc]];
      } else {
        relevances := relevances + [0];
      }
    }
    assert packets[..|packets|] == packets;
  }

  lemma ListedSnoc(packets: seq<Packet>, i: nat)
    requires i < |packets|
    ensures forall doc :: Listed(packets[..i + 1], doc) <==> Listed(packets[..i], doc) || doc == packets[i].doc
  {
    assert packets[..i + 1][i] == packets[i];
    forall doc | Listed(packets[..i], doc)
      ensures Listed(packets[..i + 1], doc)
    {
      var j :| 0 <= j < i && packets[..i][j].doc == doc;
      assert packets[..i + 1][j].doc == doc;
    }
  }

  method GradeMap(expected: seq<Expected>) returns (grades: map<Doc, int>)
    ensures forall doc :: doc in grades <==> EntryOf(expected, doc) >= 0
    ensures forall doc :: doc in grades ==> grades[doc] == expected[EntryOf(expected, doc)].grade
  {
    grades := map[];
    for i := 0 to |expected|
      invariant forall doc :: doc in grades <==> EntryOf(expected[..i], doc) >= 0
      invariant forall doc :: doc in grades ==> grades[doc] == expected[EntryOf(expected[..i], doc)].grade
    {
      assert expected[..i + 1][..i] == expected[..i];
      grades := grades[expected[i].doc := expected[i].grade];
    }
    assert expected[..|expected|] == expected;
  }

  /** The value of one list: the document graded 1 first, a repeat, a stranger, and then the one graded 3. */
  lemma GradedListScores(disc: nat -> real)
    requires IsDiscount(disc)
    ensures var packets := [Packet(2, "", []), Packet(2, "", []), Packet(9, "", []), Packet(1, "", [])];
            Ndcg(packets, [Expected(1, 3), Expected(2, 1)], disc) ==
            (disc(0) + 7.0 * disc(3)) / (7.0 * disc(0) + disc(1))
  {
    var packets := [Packet(2, "", []), Packet(2, "", []), Packet(9, "", []), Packet(1, "", [])];
    var expected := [Expected(1, 3), Expected(2, 1)];
    assert disc(0) > 0.0 && disc(1) > 0.0;
    GradedListEarns();
    DcgOfTwo(3, 1, disc);
    DcgOfFour(1, 0, 0, 3, disc);
    hide Dcg, Relevances, SortDesc, Grades;
    GainDoubles(1);
    GainDoubles(2);
  }

  lemma DcgOfTwo(a: int, b: int, disc: nat -> real)
    ensures Dcg([a, b], disc) == Worth(Gain(a), disc(0)) + Worth(Gain(b), disc(1))
  {
    assert [a, b][..1] == [a] && [a][..0] == [];
    assert Dcg([a], disc) == Dcg([], disc) + Worth(Gain(a), disc(0));
  }

  lemma DcgOfFour(a: int, b: int, c: int, d: int, disc: nat -> real)
    ensures Dcg([a, b, c, d], disc) ==
            Worth(Gain(a), disc(0)) + Worth(Gain(b), disc(1)) + Worth(Gain(c), disc(2)) + Worth(Gain(d), disc(3))
  {
    DcgOfTwo(a, b, disc);
    assert [a, b, c][..2] == [a, b] && [a, b, c, d][..3] == [a, b, c];
    assert Dcg([a, b, c], disc) == Dcg([a, b], disc) + Worth(Gain(c), disc(2));
  }

  lemma GradedListEarns()
    ensures var packets := [Packet(2, "", []), Packet(2, "", []), Packet(9, "", []), Packet(1, "", [])];
            var expected := [Expected(1, 3), Expected(2, 1)];
            Relevances(packets, expected) == [1, 0, 0, 3] && SortDesc(Grades(expected)) == [3, 1]
  {
    var packets := [Packet(2, "", []), Packet(2, "", []), Packet(9, "", []), Packet(1, "", [])];
    var expected := [Expected(1, 3), Expected(2, 1)];
    assert EntryOf(expected, 1) == 0 && EntryOf(expected, 2) == 1 && EntryOf(expected, 9) == -1;
    assert packets[..3] == [Packet(2, "", []), Packet(2, "", []), Packet(9, "", [])];
    assert packets[..3][..2] == [Packet(2, "", []), Packet(2, "", [])];
    assert packets[..3][..2][..1] == [Packet(2, "", [])];
    assert packets[..3][..2][..1][..0] == [];
    assert packets[..3][..2][0].doc == 2;
    assert Relevances(packets[..3][..2][..1], expected) == [1];
    assert Listed(packets[..3][..2][..1], 2) by {
      assert packets[..3][..2][..1][0].doc == 2;
    }
    assert Grades(expected) == [3, 1] && [3, 1][..1] == [3] && [3][..0] == [];
    assert StableSort.Sort([3], BEST_FIRST) == [3];
  }

  // ---- recall ----

  function Depth(packets: seq<Packet>, k: int): (d: nat) { if k <= 0 || k > |packets| then |packets| else k }

  function Docs(expected: seq<Expected>): (r: set<Doc>) { set i | 0 <= i < |expected| :: expected[i].doc }

  function Ranked(packets: seq<Packet>, k: int): (r: set<Doc>) {
    set i | 0 <= i < Depth(packets, k) :: packets[i].doc
  }

  /** deliveredPrimary: the documents that returned their own text. */
  function Primary(packets: seq<Packet>, k: int): (r: set<Doc>) {
    set i | 0 <= i < Depth(packets, k) && packets[i].text != "" :: packets[i].doc
  }

  /** deliveredRelated: the documents that returned their text as a neighbour only. */
  function Supplementary(packets: seq<Packet>, k: int): (r: set<Doc>) {
    (set i, j | 0 <= i < Depth(packets, k) && 0 <= j < |packets[i].related| && packets[i].related[j].text != ""
      :: packets[i].related[j].doc) - Primary(packets, k)
  }

  function Fraction(have: set<Doc>, want: set<Doc>): (r: real) {
    if want == {} then 1.0 else |have * want| as real / |want| as real
  }

  function DocumentRecall(packets: seq<Packet>, expected: seq<Expected>, k: int): (r: real) {
    if expected == [] then 1.0 else |Ranked(packets, k) * Docs(expected)| as real / |expected| as real
  }

  function DeliveredRecall(packets: seq<Packet>, expected: seq<Expected>, k: int): (r: real) {
    if expected == [] then 1.0 else Fraction(Primary(packets, k), Docs(expected))
  }

  function SupplementaryRecall(packets: seq<Packet>, expected: seq<Expected>, k: int): (r: real) {
    if expected == [] then 1.0 else Fraction(Supplementary(packets, k), Docs(expected))
  }

  function UnionRecall(packets: seq<Packet>, expected: seq<Expected>, k: int): (r: real) {
    if expected == [] then 1.0 else Fraction(Primary(packets, k) + Supplementary(packets, k), Docs(expected))
  }

  ghost predicate DistinctDocs(expected: seq<Expected>) {
    forall i, j :: 0 <= i < j < |expected| ==> expected[i].doc != expected[j].doc
  }

  /** No document counts twice: the documents named are at most as many as the entries, and as many when distinct alone. */
  lemma {:induction false} DocsAreCounted(expected: seq<Expected>)
    ensures |Docs(expected)| <= |expected|
    ensures |Docs(expected)| == |expected| <==> DistinctDocs(expected)
    decreases |expected|
  {
    if expected != [] {
      var n := |expected| - 1;
      var before := expected[..n];
      DocsAreCounted(before);
      assert forall i :: 0 <= i < n ==> before[i] == expected[i];
      assert Docs(expected) == Docs(before) + {expected[n].doc};
    }
  }

  lemma FractionIsNormalized(have: set<Doc>, want: set<Doc>)
    ensures 0.0 <= Fraction(have, want) <= 1.0
  {
    if want != {} {
      Sets.SmallerSet(have * want, want);
      RatioIsNormalized(|have * want| as real, |want| as real);
    }
  }

  // ---- what the recalls count ----

  /** The packet is one of the first k, or any packet when k is not positive. */
  predicate Within(packets: seq<Packet>, k: int, i: int) { 0 <= i < |packets| && (k <= 0 || i < k) }

  ghost predicate Reached(packets: seq<Packet>, k: int, doc: Doc) {
    exists i :: Within(packets, k, i) && packets[i].doc == doc
  }

  ghost predicate ReachedByText(packets: seq<Packet>, k: int, doc: Doc) {
    exists i :: Within(packets, k, i) && packets[i].text != "" && packets[i].doc == doc
  }

  ghost predicate ReachedNear(packets: seq<Packet>, k: int, doc: Doc) {
    exists i, j :: Within(packets, k, i) && 0 <= j < |packets[i].related| &&
                   packets[i].related[j].text != "" && packets[i].related[j].doc == doc
  }

  lemma RankedAre(packets: seq<Packet>, k: int, doc: Doc)
    ensures doc in Ranked(packets, k) <==> Reached(packets, k, doc)
  {
  }

  lemma PrimaryAre(packets: seq<Packet>, k: int, doc: Doc)
    ensures doc in Primary(packets, k) <==> ReachedByText(packets, k, doc)
  {
  }

  lemma SupplementaryAre(packets: seq<Packet>, k: int, doc: Doc)
    ensures doc in Supplementary(packets, k) <==> ReachedNear(packets, k, doc) && !ReachedByText(packets, k, doc)
  {
    PrimaryAre(packets, k, doc);
    hide Primary, ReachedByText;
    if ReachedNear(packets, k, doc) {
      var i, j :| Within(packets, k, i) && 0 <= j < |packets[i].related| &&
                  packets[i].related[j].text != "" && packets[i].related[j].doc == doc;
      assert 0 <= i < Depth(packets, k);
    }
  }

  /** The documents expected are those of the entries. */
  lemma DocsAre(expected: seq<Expected>)
    ensures Docs(expected) == set e | e in expected :: e.doc
  {
  }

  /** Document recall: the expected documents among the first k packets, over the entries. */
  lemma DocumentRecallCounts(packets: seq<Packet>, expected: seq<Expected>, k: int)
    requires expected != []
    ensures var found := set d | d in Docs(expected) && Reached(packets, k, d);
            |Docs(expected)| > 0 && DocumentRecall(packets, expected, k) == |found| as real / |expected| as real
  {
    hide Ranked, Primary, Supplementary, Reached, ReachedByText, ReachedNear;
    var want := Docs(expected);
    assert expected[0].doc in want;
    var found := set d | d in want && Reached(packets, k, d);
    forall d ensures d in Ranked(packets, k) * want <==> d in found {
      RankedAre(packets, k, d);
    }
    assert Ranked(packets, k) * want == found;
  }

  /** Delivered recall: those that came with a text of their own, over the documents. */
  lemma DeliveredRecallCounts(packets: seq<Packet>, expected: seq<Expected>, k: int)
    requires expected != []
    ensures var found := set d | d in Docs(expected) && ReachedByText(packets, k, d);
            |Docs(expected)| > 0 && DeliveredRecall(packets, expected, k) == |found| as real / |Docs(expected)| as real
  {
    hide Ranked, Primary, Supplementary, Reached, ReachedByText, ReachedNear;
    var want := Docs(expected);
    assert expected[0].doc in want;
    var found := set d | d in want && ReachedByText(packets, k, d);
    forall d ensures d in Primary(packets, k) * want <==> d in found {
      PrimaryAre(packets, k, d);
    }
    assert Primary(packets, k) * want == found;
  }

  /** Supplementary recall: those whose text came with a neighbour only. */
  lemma SupplementaryRecallCounts(packets: seq<Packet>, expected: seq<Expected>, k: int)
    requires expected != []
    ensures var found := set d | d in Docs(expected) && ReachedNear(packets, k, d) && !ReachedByText(packets, k, d);
            |Docs(expected)| > 0 && SupplementaryRecall(packets, expected, k) == |found| as real / |Docs(expected)| as real
  {
    hide Ranked, Primary, Supplementary, Reached, ReachedByText, ReachedNear;
    var want := Docs(expected);
    assert expected[0].doc in want;
    var found := set d | d in want && ReachedNear(packets, k, d) && !ReachedByText(packets, k, d);
    forall d ensures d in Supplementary(packets, k) * want <==> d in found {
      SupplementaryAre(packets, k, d);
    }
    assert Supplementary(packets, k) * want == found;
  }

  /** Union recall: those whose text came either way. */
  lemma UnionRecallCounts(packets: seq<Packet>, expected: seq<Expected>, k: int)
    requires expected != []
    ensures var found := set d | d in Docs(expected) && (ReachedByText(packets, k, d) || ReachedNear(packets, k, d));
            |Docs(expected)| > 0 && UnionRecall(packets, expected, k) == |found| as real / |Docs(expected)| as real
  {
    hide Ranked, Primary, Supplementary, Reached, ReachedByText, ReachedNear;
    var want := Docs(expected);
    assert expected[0].doc in want;
    var found := set d | d in want && (ReachedByText(packets, k, d) || ReachedNear(packets, k, d));
    forall d ensures d in (Primary(packets, k) + Supplementary(packets, k)) * want <==> d in found {
      PrimaryAre(packets, k, d);
      SupplementaryAre(packets, k, d);
    }
    assert (Primary(packets, k) + Supplementary(packets, k)) * want == found;
  }

  /** Where nothing is expected every measure is one. */
  lemma NothingExpectedIsFound(packets: seq<Packet>, k: int, disc: nat -> real)
    ensures Ndcg(packets, [], disc) == 1.0 && DocumentRecall(packets, [], k) == 1.0
    ensures DeliveredRecall(packets, [], k) == SupplementaryRecall(packets, [], k) == UnionRecall(packets, [], k) == 1.0
  {
  }

  /** Packets past the k-th do not count. */
  lemma PastKDoesNotCount(packets: seq<Packet>, more: seq<Packet>, expected: seq<Expected>, k: int)
    requires 0 < k <= |packets|
    ensures DocumentRecall(packets + more, expected, k) == DocumentRecall(packets, expected, k)
    ensures DeliveredRecall(packets + more, expected, k) == DeliveredRecall(packets, expected, k)
    ensures SupplementaryRecall(packets + more, expected, k) == SupplementaryRecall(packets, expected, k)
    ensures UnionRecall(packets + more, expected, k) == UnionRecall(packets, expected, k)
  {
    assert forall i :: 0 <= i < k ==> (packets + more)[i] == packets[i];
    assert Ranked(packets + more, k) == Ranked(packets, k);
    assert Primary(packets + more, k) == Primary(packets, k);
    assert Supplementary(packets + more, k) == Supplementary(packets, k);
  }

  /** Every recall lies in [0, 1], whatever is repeated on either side. */
  lemma RecallsAreNormalized(packets: seq<Packet>, expected: seq<Expected>, k: int)
    ensures 0.0 <= DocumentRecall(packets, expected, k) <= 1.0
    ensures 0.0 <= DeliveredRecall(packets, expected, k) <= UnionRecall(packets, expected, k) <= 1.0
    ensures 0.0 <= SupplementaryRecall(packets, expected, k) <= 1.0
  {
    hide Ranked, Primary, Supplementary;
    var want := Docs(expected);
    var own, union := Primary(packets, k), Primary(packets, k) + Supplementary(packets, k);
    DocsAreCounted(expected);
    Sets.SmallerSet(Ranked(packets, k) * want, want);
    FractionIsNormalized(own, want);
    FractionIsNormalized(union, want);
    FractionIsNormalized(Supplementary(packets, k), want);
    if expected != [] {
      assert expected[0].doc in want;
      RatioIsNormalized(|Ranked(packets, k) * want| as real, |expected| as real);
      Sets.SmallerSet(own * want, union * want);
      RatiosCompare(|own * want|, |union * want|, |want|);
    }
  }

  lemma RatiosCompare(a: nat, b: nat, n: nat)
    requires a <= b && n > 0
    ensures a as real / n as real <= b as real / n as real
  {
  }

  lemma RoutesAreDisjoint(packets: seq<Packet>, k: int)
    ensures Primary(packets, k) !! Supplementary(packets, k)
  {
  }

  /** The two routes are disjoint and together are the union: no identity is counted twice. */
  lemma UnionIsTheSum(packets: seq<Packet>, expected: seq<Expected>, k: int)
    requires expected != []
    ensures UnionRecall(packets, expected, k)
         == DeliveredRecall(packets, expected, k) + SupplementaryRecall(packets, expected, k)
  {
    hide Primary, Supplementary;
    var want, own, other := Docs(expected), Primary(packets, k), Supplementary(packets, k);
    assert expected[0].doc in want;
    RoutesAreDisjoint(packets, k);
    var first, second := own * want, other * want;
    assert (own + other) * want == first + second;
    assert first !! second;
    SumOfRatios(|first|, |second|, |want|);
  }

  lemma SumOfRatios(a: nat, b: nat, n: nat)
    requires n > 0
    ensures (a + b) as real / n as real == a as real / n as real + b as real / n as real
  {
  }

  /** A delivered document was ranked; so with distinct entries delivery never exceeds document recall. */
  lemma DeliveredIsRanked(packets: seq<Packet>, expected: seq<Expected>, k: int)
    ensures Primary(packets, k) <= Ranked(packets, k)
    ensures DistinctDocs(expected) ==> DeliveredRecall(packets, expected, k) <= DocumentRecall(packets, expected, k)
  {
    var want := Docs(expected);
    DocsAreCounted(expected);
    if expected != [] {
      assert expected[0].doc in want;
      Sets.SmallerSet(Primary(packets, k) * want, Ranked(packets, k) * want);
      RatiosCompare(|Primary(packets, k) * want|, |Ranked(packets, k) * want|, |want|);
    }
  }

  /** A packet with text for each entry: everything expected is ranked and delivered. */
  function Everything(expected: seq<Expected>): (packets: seq<Packet>) {
    seq(|expected|, i requires 0 <= i < |expected| => Packet(expected[i].doc, "text", []))
  }

  lemma EverythingIsDelivered(expected: seq<Expected>)
    requires expected != []
    ensures DeliveredRecall(Everything(expected), expected, 0) == 1.0
    ensures DocumentRecall(Everything(expected), expected, 0) == |Docs(expected)| as real / |expected| as real
  {
    var packets, want := Everything(expected), Docs(expected);
    assert forall i :: 0 <= i < |packets| ==> packets[i].doc == expected[i].doc && packets[i].text == "text";
    assert Primary(packets, 0) == want && Ranked(packets, 0) == want;
    assert want * want == want;
    assert expected[0].doc in want;
    WholeRatio(|want| as real);
  }

  /**
   * Delivery stays within document recall, whatever is returned, exactly when no document is expected twice: the one
   * divides by the documents, the other by the entries.
   */
  lemma DeliveryStaysWithinRecallExactly(expected: seq<Expected>)
    requires expected != []
    ensures (forall packets, k :: DeliveredRecall(packets, expected, k) <= DocumentRecall(packets, expected, k))
            <==> DistinctDocs(expected)
  {
    if DistinctDocs(expected) {
      forall packets, k
        ensures DeliveredRecall(packets, expected, k) <= DocumentRecall(packets, expected, k)
      {
        DeliveredIsRanked(packets, expected, k);
      }
    } else {
      DocsAreCounted(expected);
      EverythingIsDelivered(expected);
      ProperRatio(|Docs(expected)|, |expected|);
    }
  }

  lemma ProperRatio(a: nat, n: nat)
    requires a < n
    ensures a as real / n as real < 1.0
  {
  }

  /** One document listed twice and returned once is delivered in full and recalled by half. */
  lemma RepeatedEntriesSplitTheRecalls()
    ensures var packets, expected := [Packet(1, "text", [])], [Expected(1, 1), Expected(1, 1)];
            DeliveredRecall(packets, expected, 0) == 1.0 && DocumentRecall(packets, expected, 0) == 0.5
  {
    var packets, expected := [Packet(1, "text", [])], [Expected(1, 1), Expected(1, 1)];
    assert packets[0].doc == 1 && expected[0].doc == 1;
    assert Docs(expected) == {1} && Primary(packets, 0) == {1} && Ranked(packets, 0) == {1};
    assert {1} * {1} == {1};
  }

  // ---- ranks ----

  predicate Hit(packets: seq<Packet>, want: set<Doc>, i: nat, withText: bool)
    requires i < |packets|
  {
    packets[i].doc in want && (withText ==> packets[i].text != "")
  }

  /** The 1-based rank of the first hit, or 0. */
  ghost predicate IsFirstRank(packets: seq<Packet>, want: set<Doc>, withText: bool, rank: nat) {
    && rank <= |packets|
    && (rank > 0 ==> Hit(packets, want, rank - 1, withText))
    && (forall i :: 0 <= i < (if rank == 0 then |packets| else rank - 1) ==> !Hit(packets, want, i, withText))
  }

  method FirstDeliveredRank(packets: seq<Packet>, expected: seq<Expected>) returns (rank: nat)
    ensures IsFirstRank(packets, Docs(expected), true, rank)
  {
    if expected == [] {
      return 0;
    }
    for i := 0 to |packets|
      invariant forall j :: 0 <= j < i ==> !Hit(packets, Docs(expected), j, true)
    {
      if packets[i].text == "" {
        continue;
      }
      if packets[i].doc in Docs(expected) {
        return i + 1;
      }
    }
    return 0;
  }

  method FirstExpectedDocumentRank(packets: seq<Packet>, expected: seq<Expected>) returns (rank: nat)
    ensures IsFirstRank(packets, Docs(expected), false, rank)
  {
    if expected == [] {
      return 0;
    }
    for i := 0 to |packets|
      invariant forall j :: 0 <= j < i ==> !Hit(packets, Docs(expected), j, false)
    {
      if packets[i].doc in Docs(expected) {
        return i + 1;
      }
    }
    return 0;
  }

  /** Delivery within k is exactly a first delivered rank within k; and delivery never comes before ranking. */
  lemma RankAgreesWithRecall(packets: seq<Packet>, expected: seq<Expected>, k: int, ranked: nat, delivered: nat)
    requires expected != []
    requires IsFirstRank(packets, Docs(expected), false, ranked) && IsFirstRank(packets, Docs(expected), true, delivered)
    ensures DeliveredRecall(packets, expected, k) > 0.0 <==> delivered > 0 && (k <= 0 || delivered <= k)
    ensures DocumentRecall(packets, expected, k) > 0.0 <==> ranked > 0 && (k <= 0 || ranked <= k)
    ensures delivered > 0 ==> 0 < ranked <= delivered
  {
    var want := Docs(expected);
    assert expected[0].doc in want;
    var own, all := Primary(packets, k) * want, Ranked(packets, k) * want;
    PositiveRatio(|own|, |want|);
    PositiveRatio(|all|, |expected|);
    if 0 < delivered <= Depth(packets, k) {
      assert packets[delivered - 1].doc in own;
    }
    if own != {} {
      var doc :| doc in own;
      var i :| 0 <= i < Depth(packets, k) && packets[i].text != "" && packets[i].doc == doc;
      assert Hit(packets, want, i, true);
    }
    if 0 < ranked <= Depth(packets, k) {
      assert packets[ranked - 1].doc in all;
    }
    if all != {} {
      var doc :| doc in all;
      var i :| 0 <= i < Depth(packets, k) && packets[i].doc == doc;
      assert Hit(packets, want, i, false);
    }
    if delivered > 0 {
      assert Hit(packets, want, delivered - 1, false);
    }
  }

  lemma PositiveRatio(a: nat, n: nat)
    requires n > 0
    ensures a as real / n as real > 0.0 <==> a > 0
  {
  }
}
