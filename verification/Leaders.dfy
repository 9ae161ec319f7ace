/** Squeezing a cell of text into its columns by shortening the leader dots in it. */
module Leaders {
  /** The shortest a run is left; runs no longer than this are punctuation. */
  const KEEP := 3

  predicate IsLeader(c: char) { c == '.' || c == '\U{B7}' || c == '_' || c == '\U{2027}' }

  /** A run of one leader character, or any other single character. */
  datatype Token = Other(c: char) | Leader(c: char, n: nat)

  /** Where the run of one character that starts at i ends. */
  function RunEnd(text: string, i: nat): (j: nat)
    requires i < |text|
    ensures i < j <= |text| && (forall k :: i <= k < j ==> text[k] == text[i])
    ensures j < |text| ==> text[j] != text[i]
    decreases |text| - i
  {
    if i + 1 < |text| && text[i + 1] == text[i] then RunEnd(text, i + 1) else i + 1
  }

  /** Where the token that starts at i ends. */
  function Next(text: string, i: nat): (j: nat)
    requires i < |text|
    ensures i < j <= |text|
  {
    if IsLeader(text[i]) then RunEnd(text, i) else i + 1
  }

  function TokenAt(text: string, i: nat): (t: Token)
    requires i < |text|
    ensures t.c == text[i]
  {
    if IsLeader(text[i]) then Leader(text[i], Next(text, i) - i) else Other(text[i])
  }

  function Tokens(text: string, i: nat): (ts: seq<Token>)
    requires i <= |text|
    decreases |text| - i
  {
    if i == |text| then [] else [TokenAt(text, i)] + Tokens(text, Next(text, i))
  }

  function Repeat(c: char, n: nat): (r: string) { seq(n, _ => c) }

  function Spell(t: Token): string { if t.Other? then [t.c] else Repeat(t.c, t.n) }

  function Expand(ts: seq<Token>): (text: string)
    decreases |ts|
  {
    if ts == [] then "" else Spell(ts[0]) + Expand(ts[1..])
  }

  // ---- shortening ----

  predicate Gives(t: Token) { t.Leader? && t.n > KEEP }

  function Spare(t: Token): nat { if Gives(t) then t.n - KEEP else 0 }

  function Slack(ts: seq<Token>): (n: nat)
    decreases |ts|
  {
    if ts == [] then 0 else Spare(ts[0]) + Slack(ts[1..])
  }

  /** The number of runs that give. */
  function Givers(ts: seq<Token>): (n: nat)
    decreases |ts|
  {
    if ts == [] then 0 else (if Gives(ts[0]) then 1 else 0) + Givers(ts[1..])
  }

  function CeilDiv(a: nat, b: nat): nat
    requires b > 0
  {
    (a + b - 1) / b
  }

  /** A run's length once it has given its share of the excess. */
  function Shortened(n: nat, excess: nat, slack: nat): (r: nat)
    requires slack > 0 && n > KEEP
  {
    var cut := CeilDiv(excess * (n - KEEP), slack);
    if n - cut < KEEP then KEEP else n - cut
  }

  function Squeeze(t: Token, excess: nat, slack: nat): Token
    requires slack > 0
  {
    if Gives(t) then Leader(t.c, Shortened(t.n, excess, slack)) else t
  }

  function SqueezeAll(ts: seq<Token>, excess: nat, slack: nat): (r: seq<Token>)
    requires slack > 0
    ensures |r| == |ts| && forall i :: 0 <= i < |ts| ==> r[i] == Squeeze(ts[i], excess, slack)
    decreases |ts|
  {
    if ts == [] then [] else [Squeeze(ts[0], excess, slack)] + SqueezeAll(ts[1..], excess, slack)
  }

  /** fitToWidth. */
  function Fit(text: string, width: int): (r: string) {
    var ts := Tokens(text, 0);
    if width <= 0 || |text| <= width || Slack(ts) == 0 then text
    else Expand(SqueezeAll(ts, |text| - width, Slack(ts)))
  }

  // ---- tokens are the text ----

  lemma SpellToken(text: string, i: nat)
    requires i < |text|
    ensures text[i..Next(text, i)] == Spell(TokenAt(text, i))
  {
    hide RunEnd, IsLeader;
  }

  lemma {:induction false} ExpandTokens(text: string, i: nat)
    requires i <= |text|
    ensures Expand(Tokens(text, i)) == text[i..]
    decreases |text| - i
  {
    if i < |text| {
      hide Next, TokenAt, Spell;
      var j := Next(text, i);
      ExpandTokens(text, j);
      SpellToken(text, i);
      assert text[i..] == text[i..j] + text[j..];
    }
  }

  /** Runs are whole: none is empty, and no two of one character meet. */
  ghost predicate WholeRuns(ts: seq<Token>) {
    && (forall i :: 0 <= i < |ts| ==> if ts[i].Leader? then IsLeader(ts[i].c) && ts[i].n > 0 else !IsLeader(ts[i].c))
    && (forall i, j :: 0 <= i && j == i + 1 && j < |ts| ==> ts[i].c != ts[j].c || ts[i].Other?)
  }

  lemma {:induction false} TokensAreWhole(text: string, i: nat)
    requires i <= |text|
    ensures WholeRuns(Tokens(text, i))
    ensures i < |text| ==> Tokens(text, i) != [] && Tokens(text, i)[0].c == text[i]
    decreases |text| - i
  {
    if i < |text| {
      TokensAreWhole(text, Next(text, i));
    }
  }

  lemma RunOf(before: string, c: char, n: nat, rest: string)
    requires n > 0 && (rest != [] ==> rest[0] != c)
    ensures RunEnd(before + Repeat(c, n) + rest, |before|) == |before| + n
  {
    var text := before + Repeat(c, n) + rest;
    assert forall k :: |before| <= k < |before| + n ==> text[k] == c;
    assert rest != [] ==> text[|before| + n] == rest[0];
  }

  lemma ReadsFirst(before: string, t: Token, rest: string)
    requires if t.Leader? then IsLeader(t.c) && t.n > 0 && (rest != [] ==> rest[0] != t.c) else !IsLeader(t.c)
    ensures |Spell(t)| > 0 && Spell(t)[0] == t.c
    ensures var text := before + Spell(t) + rest;
            Tokens(text, |before|) == [t] + Tokens(text, |before + Spell(t)|)
  {
    hide RunEnd;
    var text := before + Spell(t) + rest;
    assert text[|before|] == t.c;
    if t.Leader? {
      RunOf(before, t.c, t.n, rest);
    }
  }

  lemma WholeTail(ts: seq<Token>)
    requires WholeRuns(ts) && ts != []
    ensures WholeRuns(ts[1..])
    ensures if ts[0].Leader? then IsLeader(ts[0].c) && ts[0].n > 0 && (|ts| > 1 ==> ts[1].c != ts[0].c)
            else !IsLeader(ts[0].c)
  {
  }

  /** Whole runs written out are read back as they were. */
  lemma {:induction false} TokensOfExpand(before: string, ts: seq<Token>)
    requires WholeRuns(ts)
    ensures Tokens(before + Expand(ts), |before|) == ts
    ensures ts != [] ==> Expand(ts) != "" && Expand(ts)[0] == ts[0].c
    decreases |ts|
  {
    if ts != [] {
      var t, rest := ts[0], Expand(ts[1..]);
      WholeTail(ts);
      hide WholeRuns, IsLeader, Spell, Tokens;
      TokensOfExpand(before + Spell(t), ts[1..]);
      ReadsFirst(before, t, rest);
      Associative(before, Spell(t), rest);
      assert [t] + ts[1..] == ts;
    } else {
      assert before + "" == before;
    }
  }

  /**
   * The tokens spell the text: each run of one of the four leader characters as long as it is, and every other character
   * by itself.
   */
  lemma TokensSpellRuns(text: string)
    ensures Expand(Tokens(text, 0)) == text
    ensures forall t :: t in Tokens(text, 0) ==>
              (t.Leader? <==> t.c == '.' || t.c == '_' || t.c == '\U{B7}' || t.c == '\U{2027}') && (t.Leader? ==> t.n > 0)
    ensures forall i :: 0 < i < |Tokens(text, 0)| && Tokens(text, 0)[i].Leader? ==>
              Tokens(text, 0)[i - 1].c != Tokens(text, 0)[i].c
  {
    ExpandTokens(text, 0);
    TokensAreWhole(text, 0);
    hide Tokens, Expand;
    assert text[0..] == text;
    var ts := Tokens(text, 0);
    forall i | 0 < i < |ts| && ts[i].Leader? ensures ts[i - 1].c != ts[i].c {
      var j := i - 1;
      assert ts[j].c != ts[i].c || ts[j].Other?;
    }
  }

  // ---- only leaders give ----

  lemma SqueezeKeepsRuns(ts: seq<Token>, excess: nat, slack: nat)
    requires WholeRuns(ts) && slack > 0
    ensures WholeRuns(SqueezeAll(ts, excess, slack))
  {
    var r := SqueezeAll(ts, excess, slack);
    forall i | 0 <= i < |r|
      ensures if r[i].Leader? then IsLeader(r[i].c) && r[i].n > 0 else !IsLeader(r[i].c)
    {
      assert r[i] == Squeeze(ts[i], excess, slack);
    }
    forall i, j | 0 <= i && j == i + 1 && j < |r|
      ensures r[i].c != r[j].c || r[i].Other?
    {
      assert r[i] == Squeeze(ts[i], excess, slack) && r[j] == Squeeze(ts[j], excess, slack);
      assert ts[i].c != ts[j].c || ts[i].Other?;
    }
  }

  /** The same text but for the lengths of runs of more than three leaders, which stay at least three and never grow. */
  ghost predicate OnlyLeadersGive(before: seq<Token>, after: seq<Token>) {
    && |after| == |before|
    && forall i :: 0 <= i < |before| ==>
         if before[i].Leader? && before[i].n > 3
         then after[i].Leader? && after[i].c == before[i].c && 3 <= after[i].n <= before[i].n
         else after[i] == before[i]
  }

  /** Every character that is not in a long run of leaders survives, in its place. */
  lemma FitOnlyTakesLeaders(text: string, width: int)
    ensures OnlyLeadersGive(Tokens(text, 0), Tokens(Fit(text, width), 0))
  {
    var ts := Tokens(text, 0);
    if !(width <= 0 || |text| <= width || Slack(ts) == 0) {
      FitTokens(text, width);
    }
  }

  // ---- how much is given ----

  function Cut(t: Token, excess: nat, slack: nat): nat
    requires slack > 0
  {
    if Gives(t) then t.n - Shortened(t.n, excess, slack) else 0
  }

  function Cuts(ts: seq<Token>, excess: nat, slack: nat): (n: nat)
    requires slack > 0
    decreases |ts|
  {
    if ts == [] then 0 else Cut(ts[0], excess, slack) + Cuts(ts[1..], excess, slack)
  }

  /** What is cut is what the text loses. */
  lemma {:induction false} CutsAreTheLoss(ts: seq<Token>, excess: nat, slack: nat)
    requires slack > 0
    ensures |Expand(SqueezeAll(ts, excess, slack))| + Cuts(ts, excess, slack) == |Expand(ts)|
    decreases |ts|
  {
    if ts != [] {
      CutsAreTheLoss(ts[1..], excess, slack);
      assert SqueezeAll(ts, excess, slack)[1..] == SqueezeAll(ts[1..], excess, slack);
    }
  }

  lemma CeilDivBounds(a: nat, b: nat)
    requires b > 0
    ensures a <= b * CeilDiv(a, b) < a + b
  {
  }

  lemma NonNegative(a: nat, b: nat)
    ensures a * b >= 0
  {
  }

  /** Products keep the order of their factors, by a whole factor when it is strict. */
  lemma ProductOrder(s: nat, a: int, b: int)
    ensures a <= b ==> s * a <= s * b
    ensures a < b ==> s * a + s <= s * b
  {
    Distribute(s, a, b - a);
    Distribute(s, b - a - 1, 1);
    if a <= b {
      NonNegative(s, b - a);
    }
    if a < b {
      NonNegative(s, b - a - 1);
    }
  }

  lemma Distribute(s: int, a: int, b: int)
    ensures s * (a + b) == s * a + s * b
  {
  }

  lemma CeilDivAtMost(a: nat, b: nat, q: nat)
    requires b > 0 && a <= b * q
    ensures CeilDiv(a, b) <= q
  {
    CeilDivBounds(a, b);
    ProductOrder(b, q, CeilDiv(a, b));
  }

  lemma CeilDivAtLeast(a: nat, b: nat, q: nat)
    requires b > 0 && a >= b * q
    ensures CeilDiv(a, b) >= q
  {
    CeilDivBounds(a, b);
    ProductOrder(b, CeilDiv(a, b), q);
  }

  /** While the slack covers the excess, a run gives its share rounded up, and always has it to give. */
  lemma ShareIsGiven(t: Token, excess: nat, slack: nat)
    requires slack > 0 && excess <= slack
    ensures excess * Spare(t) <= slack * Cut(t, excess, slack)
    ensures slack * Cut(t, excess, slack) <= excess * Spare(t) + (if Gives(t) then slack - 1 else 0)
  {
    if Gives(t) {
      ProductOrder(Spare(t), excess, slack);
      CeilDivBounds(excess * Spare(t), slack);
      CeilDivAtMost(excess * Spare(t), slack, Spare(t));
    }
  }

  /** More excess than slack takes every run down to three. */
  lemma {:induction false} AllIsGiven(ts: seq<Token>, excess: nat, slack: nat)
    requires slack > 0 && excess >= slack
    ensures Cuts(ts, excess, slack) == Slack(ts)
    decreases |ts|
  {
    if ts != [] {
      AllIsGiven(ts[1..], excess, slack);
      ProductOrder(Spare(ts[0]), slack, excess);
      CeilDivAtLeast(excess * Spare(ts[0]), slack, Spare(ts[0]));
    }
  }

  /** When the leaders cannot give what the width asks, every run of more than three is left with three. */
  lemma FitTakesAllItMay(text: string, width: int)
    requires width > 0 && |text| - width >= Slack(Tokens(text, 0)) > 0
    ensures var before, after := Tokens(text, 0), Tokens(Fit(text, width), 0);
            |after| == |before| &&
            forall i :: 0 <= i < |before| && before[i].Leader? && before[i].n > 3 ==>
              after[i] == Leader(before[i].c, 3)
  {
    var ts := Tokens(text, 0);
    FitTokens(text, width);
    forall i | 0 <= i < |ts| && ts[i].Leader? && ts[i].n > 3
      ensures Squeeze(ts[i], |text| - width, Slack(ts)) == Leader(ts[i].c, 3)
    {
      AllSpareIsGiven(ts[i], |text| - width, Slack(ts));
    }
  }

  lemma FitTokens(text: string, width: int)
    requires width > 0 && |text| > width && Slack(Tokens(text, 0)) > 0
    ensures var ts := Tokens(text, 0); Tokens(Fit(text, width), 0) == SqueezeAll(ts, |text| - width, Slack(ts))
  {
    var ts := Tokens(text, 0);
    TokensAreWhole(text, 0);
    SqueezeKeepsRuns(ts, |text| - width, Slack(ts));
    var r := SqueezeAll(ts, |text| - width, Slack(ts));
    TokensOfExpand([], r);
    assert [] + Expand(r) == Expand(r);
  }

  lemma AllSpareIsGiven(t: Token, excess: nat, slack: nat)
    requires slack > 0 && excess >= slack && t.Leader? && t.n > 3
    ensures Squeeze(t, excess, slack) == Leader(t.c, 3)
  {
    ProductOrder(t.n - 3, slack, excess);
    CeilDivAtLeast(excess * (t.n - 3), slack, t.n - 3);
  }

  /** What the leaders can give is what runs of more than three have beyond three, and so many runs give. */
  lemma {:induction false} SlackSnoc(ts: seq<Token>, t: Token)
    ensures Slack(ts + [t]) == Slack(ts) + (if t.Leader? && t.n > 3 then t.n - 3 else 0)
    ensures Givers(ts + [t]) == Givers(ts) + (if t.Leader? && t.n > 3 then 1 else 0)
    ensures Slack([]) == Givers([]) == 0
    decreases |ts|
  {
    if ts == [] {
      assert [t][1..] == [];
    } else {
      assert (ts + [t])[1..] == ts[1..] + [t];
      SlackSnoc(ts[1..], t);
    }
  }

  lemma {:induction false} SharesAdd(ts: seq<Token>, excess: nat, slack: nat)
    requires slack > 0 && excess <= slack
    ensures excess * Slack(ts) <= slack * Cuts(ts, excess, slack) <= excess * Slack(ts) + (slack - 1) * Givers(ts)
    decreases |ts|
  {
    if ts != [] {
      SharesAdd(ts[1..], excess, slack);
      ShareIsGiven(ts[0], excess, slack);
      hide Cut, Spare, Gives;
      Distribute(excess, Spare(ts[0]), Slack(ts[1..]));
      Distribute(slack, Cut(ts[0], excess, slack), Cuts(ts[1..], excess, slack));
      Distribute(slack - 1, if Gives(ts[0]) then 1 else 0, Givers(ts[1..]));
    }
  }

  lemma CutsCoverTheExcess(cuts: nat, excess: nat, slack: nat, givers: nat)
    requires slack > 0 && excess * slack <= slack * cuts <= excess * slack + (slack - 1) * givers
    ensures excess <= cuts <= excess + givers
  {
    ProductOrder(slack, cuts, excess);
    ProductOrder(slack, excess + givers, cuts);
    Distribute(slack, excess, givers);
    Distribute(givers, slack, -1);
  }

  /**
   * The result is as long as the width asks or, when the leaders cannot give that much, as short as they allow;
   * rounding up costs at most one more character for each run that gives.
   */
  lemma FitIsShortEnough(text: string, width: int)
    requires width > 0 && |text| > width
    ensures var slack, n := Slack(Tokens(text, 0)), |Fit(text, width)|;
            if |text| - width >= slack then n == |text| - slack
            else width - Givers(Tokens(text, 0)) <= n <= width
  {
    var ts := Tokens(text, 0);
    var slack, excess := Slack(ts), |text| - width;
    ExpandTokens(text, 0);
    assert text[0..] == text;
    if slack > 0 {
      CutsAreTheLoss(ts, excess, slack);
      if excess >= slack {
        AllIsGiven(ts, excess, slack);
      } else {
        SharesAdd(ts, excess, slack);
        CutsCoverTheExcess(Cuts(ts, excess, slack), excess, slack, Givers(ts));
      }
    }
  }

  /** A text that fits, and one with nothing to give, is left alone. */
  lemma FitLeavesAlone(text: string, width: int)
    requires width <= 0 || |text| <= width || NoneGives(Tokens(text, 0))
    ensures Fit(text, width) == text
  {
    if width > 0 && |text| > width {
      NoSlack(Tokens(text, 0));
    }
  }

  predicate NoneGives(ts: seq<Token>) { forall i :: 0 <= i < |ts| ==> !Gives(ts[i]) }

  lemma {:induction false} NoSlack(ts: seq<Token>)
    requires NoneGives(ts)
    ensures Slack(ts) == 0
    decreases |ts|
  {
    if ts != [] {
      NoSlack(ts[1..]);
    }
  }

  // ---- the loops ----

  /** A run of more than three leaders, by its place in the text. */
  datatype Run = Run(start: nat, length: nat)

  function Runs(text: string, i: nat): (rs: seq<Run>)
    requires i <= |text|
    decreases |text| - i
  {
    if i == |text| then []
    else
      var j := Next(text, i);
      if Gives(TokenAt(text, i)) then [Run(i, j - i)] + Runs(text, j) else Runs(text, j)
  }

  ghost predicate Ordered(text: string, prev: nat, rs: seq<Run>)
    decreases |rs|
  {
    prev <= |text| &&
    (rs == [] || (prev <= rs[0].start && rs[0].length > KEEP && rs[0].start + rs[0].length <= |text| &&
                  Ordered(text, rs[0].start + rs[0].length, rs[1..])))
  }

  /** The text from prev on, each run shortened. */
  ghost function Built(text: string, prev: nat, rs: seq<Run>, excess: nat, slack: nat): string
    requires slack > 0 && Ordered(text, prev, rs)
    decreases |rs|
  {
    if rs == [] then text[prev..]
    else
      text[prev..rs[0].start] + Repeat(text[rs[0].start], Shortened(rs[0].length, excess, slack))
      + Built(text, rs[0].start + rs[0].length, rs[1..], excess, slack)
  }

  lemma GivesWhole(text: string, i: nat)
    requires i < |text|
    ensures Gives(TokenAt(text, i)) ==> TokenAt(text, i) == Leader(text[i], Next(text, i) - i)
  {
  }

  lemma {:induction false} RunsAreOrdered(text: string, prev: nat, i: nat)
    requires prev <= i <= |text|
    ensures Ordered(text, prev, Runs(text, i))
    decreases |text| - i
  {
    if i < |text| {
      hide Next, TokenAt;
      var j := Next(text, i);
      if Gives(TokenAt(text, i)) {
        GivesWhole(text, i);
        RunsAreOrdered(text, j, j);
        assert Runs(text, i)[1..] == Runs(text, j);
      } else {
        RunsAreOrdered(text, prev, j);
      }
    }
  }

  lemma BuiltCons(text: string, prev: nat, run: Run, rs: seq<Run>, excess: nat, slack: nat)
    requires slack > 0 && Ordered(text, prev, [run] + rs)
    ensures prev <= run.start && run.length > KEEP && run.start + run.length <= |text|
    ensures Ordered(text, run.start + run.length, rs)
    ensures Built(text, prev, [run] + rs, excess, slack)
         == text[prev..run.start] + Repeat(text[run.start], Shortened(run.length, excess, slack))
            + Built(text, run.start + run.length, rs, excess, slack)
  {
    hide Repeat, Shortened;
    assert ([run] + rs)[1..] == rs;
  }

  lemma BuiltLast(text: string, prev: nat, excess: nat, slack: nat)
    requires slack > 0 && prev <= |text|
    ensures Built(text, prev, [], excess, slack) == text[prev..]
  {
  }

  lemma BuiltGives(text: string, prev: nat, run: Run, rs: seq<Run>, excess: nat, slack: nat, rest: string)
    requires slack > 0 && Ordered(text, prev, [run] + rs)
    requires run.length > KEEP && prev <= run.start && run.start + run.length <= |text|
    requires Ordered(text, run.start + run.length, rs)
    requires Built(text, run.start + run.length, rs, excess, slack)
          == text[run.start + run.length..run.start + run.length] + rest
    ensures Built(text, prev, [run] + rs, excess, slack)
         == text[prev..run.start] + (Repeat(text[run.start], Shortened(run.length, excess, slack)) + rest)
  {
    hide Shortened, Repeat, Built, Ordered;
    BuiltCons(text, prev, run, rs, excess, slack);
    Rejoin(text[prev..run.start], Repeat(text[run.start], Shortened(run.length, excess, slack)),
           text[run.start + run.length..run.start + run.length], rest);
  }

  /** The loop over runs spells the squeezed tokens. */
  lemma {:induction false} BuiltIsExpand(text: string, prev: nat, i: nat, excess: nat, slack: nat)
    requires prev <= i <= |text| && slack > 0 && Ordered(text, prev, Runs(text, i))
    ensures Built(text, prev, Runs(text, i), excess, slack)
         == text[prev..i] + Expand(SqueezeAll(Tokens(text, i), excess, slack))
    decreases |text| - i
  {
    if i == |text| {
      BuiltLast(text, prev, excess, slack);
    } else {
      hide Next, TokenAt, Tokens, Shortened, Gives, Expand, SqueezeAll, Repeat, Built, Ordered;
      SqueezedFrom(text, i, excess, slack);
      var j := Next(text, i);
      if Gives(TokenAt(text, i)) {
        RunEnds(text, prev, i, excess, slack);
        BuiltIsExpand(text, j, j, excess, slack);
        RunInFront(text, prev, i, excess, slack);
      } else {
        BuiltIsExpand(text, prev, j, excess, slack);
        SliceJoin(text, prev, i, j, Expand(SqueezeAll(Tokens(text, j), excess, slack)));
      }
    }
  }

  lemma RunEnds(text: string, prev: nat, i: nat, excess: nat, slack: nat)
    requires i < |text| && slack > 0 && Gives(TokenAt(text, i)) && Ordered(text, prev, Runs(text, i))
    ensures Ordered(text, Next(text, i), Runs(text, Next(text, i)))
  {
    hide Next, TokenAt, Gives, Built, Ordered;
    var j := Next(text, i);
    BuiltCons(text, prev, Run(i, j - i), Runs(text, j), excess, slack);
  }

  lemma RunInFront(text: string, prev: nat, i: nat, excess: nat, slack: nat)
    requires prev <= i < |text| && slack > 0 && Gives(TokenAt(text, i)) && Ordered(text, prev, Runs(text, i))
    requires var j := Next(text, i);
             Built(text, j, Runs(text, j), excess, slack) ==
             text[j..j] + Expand(SqueezeAll(Tokens(text, j), excess, slack))
    requires Ordered(text, Next(text, i), Runs(text, Next(text, i)))
    ensures Built(text, prev, Runs(text, i), excess, slack) ==
            text[prev..i] + Expand(SqueezeAll(Tokens(text, i), excess, slack))
  {
    hide Next, TokenAt, Tokens, Shortened, Gives, Expand, SqueezeAll, Repeat, Built, Ordered;
    SqueezedFrom(text, i, excess, slack);
    var j := Next(text, i);
    var run, rs, rest := Run(i, j - i), Runs(text, j), Expand(SqueezeAll(Tokens(text, j), excess, slack));
    assert Runs(text, i) == [run] + rs;
    hide *;
    BuiltCons(text, prev, run, rs, excess, slack);
    assert run.start + run.length == j;
    BuiltGives(text, prev, run, rs, excess, slack, rest);
  }

  lemma SqueezedFrom(text: string, i: nat, excess: nat, slack: nat)
    requires i < |text| && slack > 0
    ensures var j := Next(text, i);
            && (Gives(TokenAt(text, i)) ==> j - i > KEEP)
            && Expand(SqueezeAll(Tokens(text, i), excess, slack))
               == (if Gives(TokenAt(text, i)) then Repeat(text[i], Shortened(j - i, excess, slack)) else text[i..j])
                  + Expand(SqueezeAll(Tokens(text, j), excess, slack))
  {
    GivesWhole(text, i);
    SpellToken(text, i);
    hide Next, TokenAt, Shortened, Repeat;
    ExpandSqueezed(Tokens(text, i), excess, slack);
  }

  lemma Rejoin(a: string, b: string, nothing: string, c: string)
    requires nothing == []
    ensures a + b + (nothing + c) == a + (b + c)
  {
    assert nothing + c == c;
    Associative(a, b, c);
  }

  lemma SliceJoin(text: string, prev: nat, i: nat, j: nat, rest: string)
    requires prev <= i <= j <= |text|
    ensures text[prev..j] + rest == text[prev..i] + (text[i..j] + rest)
  {
    assert text[prev..j] == text[prev..i] + text[i..j];
    Associative(text[prev..i], text[i..j], rest);
  }

  lemma Associative(a: string, b: string, c: string)
    ensures a + b + c == a + (b + c)
  {
  }

  lemma ExpandSqueezed(ts: seq<Token>, excess: nat, slack: nat)
    requires slack > 0 && ts != []
    ensures Expand(SqueezeAll(ts, excess, slack))
         == (if Gives(ts[0]) then Repeat(ts[0].c, Shortened(ts[0].n, excess, slack)) else Spell(ts[0]))
            + Expand(SqueezeAll(ts[1..], excess, slack))
  {
    assert SqueezeAll(ts, excess, slack)[1..] == SqueezeAll(ts[1..], excess, slack);
  }

  lemma {:induction false} SlackOfRuns(text: string, i: nat)
    requires i <= |text|
    ensures TotalSpare(Runs(text, i)) == Slack(Tokens(text, i))
    ensures Runs(text, i) == [] <==> Slack(Tokens(text, i)) == 0
    decreases |text| - i
  {
    if i < |text| {
      hide Next, TokenAt;
      GivesWhole(text, i);
      SlackOfRuns(text, Next(text, i));
    }
  }

  function TotalSpare(rs: seq<Run>): int
    decreases |rs|
  {
    if rs == [] then 0 else rs[0].length - KEEP + TotalSpare(rs[1..])
  }

  method FindRuns(text: string) returns (runs: seq<Run>)
    ensures runs == Runs(text, 0)
  {
    runs := [];
    var i := 0;
    while i < |text|
      invariant 0 <= i <= |text|
      invariant runs + Runs(text, i) == Runs(text, 0)
      decreases |text| - i
    {
      if !IsLeader(text[i]) {
        i := i + 1;
        continue;
      }
      var j := i;
      while j < |text| && text[j] == text[i]
        invariant i <= j <= RunEnd(text, i)
        decreases |text| - j
      {
        j := j + 1;
      }
      if j - i > KEEP {
        runs := runs + [Run(i, j - i)];
      }
      i := j;
    }
  }

  method FitToWidth(text: string, width: int) returns (r: string)
    ensures r == Fit(text, width)
  {
    hide Runs, Tokens, Built, Shortened;
    var excess := |text| - width;
    if width <= 0 || excess <= 0 {
      return text;
    }
    var runs := FindRuns(text);
    SlackOfRuns(text, 0);
    if |runs| == 0 {
      return text;
    }
    var slack := 0;
    assert runs[0..] == runs;
    for k := 0 to |runs|
      invariant slack + TotalSpare(runs[k..]) == TotalSpare(runs)
    {
      assert runs[k..][1..] == runs[k + 1..];
      slack := slack + runs[k].length - KEEP;
    }
    if slack <= 0 {
      return text;
    }
    RunsAreOrdered(text, 0, 0);
    BuiltIsExpand(text, 0, 0, excess, slack);
    assert text[0..0] + Expand(SqueezeAll(Tokens(text, 0), excess, slack))
        == Expand(SqueezeAll(Tokens(text, 0), excess, slack));
    r := Build(text, runs, excess, slack);
  }

  method Build(text: string, runs: seq<Run>, excess: nat, slack: nat) returns (r: string)
    requires slack > 0 && Ordered(text, 0, runs)
    ensures r == Built(text, 0, runs, excess, slack)
  {
    hide Built, Ordered, Shortened, Repeat;
    r := [];
    var prev: nat := 0;
    assert runs[0..] == runs;
    ghost var all := Built(text, 0, runs, excess, slack);
    assert [] + all == all;
    for k := 0 to |runs|
      invariant prev <= |text| && Ordered(text, prev, runs[k..])
      invariant r + Built(text, prev, runs[k..], excess, slack) == all
    {
      var run := runs[k];
      assert runs[k..] == [run] + runs[k + 1..];
      BuiltCons(text, prev, run, runs[k + 1..], excess, slack);
      var kept, shorter := text[prev..run.start], Repeat(text[run.start], Shortened(run.length, excess, slack));
      Associative(r, kept + shorter, Built(text, run.start + run.length, runs[k + 1..], excess, slack));
      r := r + (kept + shorter);
      prev := run.start + run.length;
    }
    assert runs[|runs|..] == [];
    BuiltLast(text, prev, excess, slack);
    r := r + text[prev..];
  }
}
