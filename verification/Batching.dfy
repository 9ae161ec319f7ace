/** Grouping a document's chunks into embedding requests under two limits at once. */
module Batching {
  import opened Seqs

  const MAX_BATCH_CHUNKS := 64
  const MAX_BATCH_TOKENS: real := 16000.0
  const DENSEST_CHARS_PER_TOKEN: real := 1.3
  const CHARS_PER_TOKEN: real := 4.0
  const FLOOR_CHARS_PER_TOKEN: real := 0.5

  function Total(sizes: seq<nat>): (n: nat)
    decreases |sizes|
  {
    if sizes == [] then 0 else Total(sizes[..|sizes| - 1]) + sizes[|sizes| - 1]
  }

  function Tokens(sizes: seq<nat>, ratio: real): (t: real)
    requires ratio > 0.0
  {
    Total(sizes) as real / ratio
  }

  predicate Fits(sizes: seq<nat>, ratio: real)
    requires ratio > 0.0
  {
    |sizes| <= MAX_BATCH_CHUNKS && Tokens(sizes, ratio) <= MAX_BATCH_TOKENS
  }

  predicate RatioOk(ratio: real) { FLOOR_CHARS_PER_TOKEN <= ratio <= CHARS_PER_TOKEN }

  /** The batch [i, j) is the longest that fits, or the single chunk that must go out alone. */
  predicate Greedy(sizes: seq<nat>, i: nat, j: nat, ratio: real)
    requires i <= j <= |sizes| && ratio > 0.0
  {
    && (i < |sizes| ==> i < j)
    && (j == i + 1 || Fits(sizes[i..j], ratio))
    && (j < |sizes| ==> !Fits(sizes[i..j + 1], ratio))
  }

  lemma TotalSnoc(sizes: seq<nat>, i: nat, j: nat)
    requires i <= j < |sizes|
    ensures Total(sizes[i..j + 1]) == Total(sizes[i..j]) + sizes[j]
  {
    assert sizes[i..j + 1][..j - i] == sizes[i..j];
  }

  lemma TokensSnoc(sizes: seq<nat>, i: nat, j: nat, ratio: real)
    requires i <= j < |sizes| && ratio > 0.0
    ensures Tokens(sizes[i..j + 1], ratio) == Tokens(sizes[i..j], ratio) + sizes[j] as real / ratio
  {
    TotalSnoc(sizes, i, j);
    var a, b := Total(sizes[i..j]) as real, sizes[j] as real;
    assert (a + b) / ratio == a / ratio + b / ratio;
  }

  lemma {:induction false} TotalGrows(sizes: seq<nat>, i: nat, j: nat, k: nat)
    requires i <= j <= k <= |sizes|
    ensures Total(sizes[i..j]) <= Total(sizes[i..k])
    decreases k - j
  {
    if j < k {
      TotalGrows(sizes, i, j, k - 1);
      TotalSnoc(sizes, i, k - 1);
    }
  }

  /** What fits keeps fitting when shortened, so a greedy end is the one and only longest. */
  lemma ShorterFits(sizes: seq<nat>, i: nat, j: nat, k: nat, ratio: real)
    requires i <= j <= k <= |sizes| && ratio > 0.0 && Fits(sizes[i..k], ratio)
    ensures Fits(sizes[i..j], ratio)
  {
    TotalGrows(sizes, i, j, k);
    DivisionKeepsOrder(Total(sizes[i..j]) as real, Total(sizes[i..k]) as real, ratio);
  }

  lemma DivisionKeepsOrder(a: real, b: real, d: real)
    requires a <= b && d > 0.0
    ensures a / d <= b / d
  {
  }

  lemma GreedyIsUnique(sizes: seq<nat>, i: nat, j: nat, k: nat, ratio: real)
    requires i <= j <= k <= |sizes| && ratio > 0.0
    requires Greedy(sizes, i, j, ratio) && Greedy(sizes, i, k, ratio)
    ensures j == k
  {
    if j < k {
      assert Fits(sizes[i..k], ratio);
      ShorterFits(sizes, i, j + 1, k, ratio);
    }
  }

  /** No batch of more than one chunk holds more characters than the fixed estimate of four a token would allow. */
  lemma BatchIsBounded(sizes: seq<nat>, i: nat, j: nat, ratio: real)
    requires i <= j <= |sizes| && RatioOk(ratio) && Greedy(sizes, i, j, ratio) && j > i + 1
    ensures j - i <= 64 && Total(sizes[i..j]) <= 64000
  {
    var t := Total(sizes[i..j]) as real;
    assert t == t / ratio * ratio;
    assert t / ratio * ratio <= MAX_BATCH_TOKENS * ratio;
  }

  class Batcher {
    const sizes: seq<nat>
    var next: nat
    var charsPerToken: real

    ghost predicate Valid()
      reads this
    {
      next <= |sizes| && RatioOk(charsPerToken)
    }

    constructor (sizes: seq<nat>)
      ensures Valid() && this.sizes == sizes && next == 0
      ensures charsPerToken == 1.3
    {
      this.sizes := sizes;
      next := 0;
      charsPerToken := DENSEST_CHARS_PER_TOKEN;
    }

    /** The next batch, empty once every chunk has been handed out. */
    method Next() returns (batch: seq<nat>)
      requires Valid()
      modifies this`next
      ensures Valid() && old(next) <= next
      ensures batch == sizes[old(next)..next]
      ensures Greedy(sizes, old(next), next, charsPerToken)
      ensures old(next) < |sizes| ==> batch != []
      ensures |batch| <= 1 || (|batch| <= 64 && Total(batch) as real / charsPerToken <= 16000.0)
      ensures next < |sizes| ==>
                |batch| >= 64 || Total(batch + [sizes[next]]) as real / charsPerToken > 16000.0
    {
      var start := next;
      var tokens := 0.0;
      while next < |sizes|
        invariant start <= next <= |sizes|
        invariant tokens == Tokens(sizes[start..next], charsPerToken)
        invariant next <= start + 1 || Fits(sizes[start..next], charsPerToken)
        decreases |sizes| - next
      {
        var t := sizes[next] as real / charsPerToken;
        TokensSnoc(sizes, start, next, charsPerToken);
        if next > start && (next - start >= MAX_BATCH_CHUNKS || tokens + t > MAX_BATCH_TOKENS) {
          break;
        }
        tokens := tokens + t;
        next := next + 1;
      }
      batch := sizes[start..next];
      assert next < |sizes| ==> batch + [sizes[next]] == sizes[start..next + 1];
    }

    /** What the endpoint counted for a batch sizes the batches after it; a count of zero changes nothing. */
    method Observe(batch: seq<nat>, tokens: int)
      requires Valid()
      modifies this`charsPerToken
      ensures Valid()
      ensures tokens <= 0 ==> charsPerToken == old(charsPerToken)
      ensures tokens > 0 ==>
                var seen := Total(batch) as real / tokens as real;
                && (0.5 <= seen <= 4.0 ==> charsPerToken == seen)
                && (seen < 0.5 ==> charsPerToken == 0.5)
                && (seen > 4.0 ==> charsPerToken == 4.0)
    {
      if tokens <= 0 {
        return;
      }
      var chars := 0;
      for i := 0 to |batch|
        invariant chars == Total(batch[..i])
      {
        assert batch[..i + 1][..i] == batch[..i];
        chars := chars + batch[i];
      }
      assert batch[..|batch|] == batch;
      var seen := chars as real / tokens as real;
      var raised := if seen < FLOOR_CHARS_PER_TOKEN then FLOOR_CHARS_PER_TOKEN else seen;
      charsPerToken := if raised > CHARS_PER_TOKEN then CHARS_PER_TOKEN else raised;
    }
  }

  /** A run of Next from chunk `from` on, each call under whatever ratio the endpoint's answers had led to. */
  ghost predicate Run(sizes: seq<nat>, from: nat, batches: seq<seq<nat>>, ratios: seq<real>)
    requires from <= |sizes| && |batches| == |ratios|
    decreases |batches|
  {
    batches == [] ||
    var to := from + |batches[0]|;
    && to <= |sizes|
    && batches[0] == sizes[from..to]
    && RatioOk(ratios[0]) && Greedy(sizes, from, to, ratios[0])
    && Run(sizes, to, batches[1..], ratios[1..])
  }

  /**
   * Whatever the endpoint reports, the batches handed out are the chunks in order, each exactly once: a run
   * that has met the empty batch has handed out all of them, and before that every batch holds at least one.
   */
  lemma {:induction false} BatchesPartition(sizes: seq<nat>, from: nat, batches: seq<seq<nat>>, ratios: seq<real>)
    requires from <= |sizes| && |batches| == |ratios| && Run(sizes, from, batches, ratios)
    ensures var n := |Flatten(batches)|;
            && from + n <= |sizes| && Flatten(batches) == sizes[from..from + n]
            && (from + n < |sizes| ==> n >= |batches|)
            && ([] in batches ==> from + n == |sizes|)
    decreases |batches|
  {
    if batches != [] {
      var to := from + |batches[0]|;
      BatchesPartition(sizes, to, batches[1..], ratios[1..]);
      assert sizes[from..to] + sizes[to..to + |Flatten(batches[1..])|] == sizes[from..to + |Flatten(batches[1..])|];
    }
  }
}
