/**
 * Keeping a running handler's lease alive. The lease is held in database time; the heartbeat works from an estimate in
 * local time that a slow answer can only make earlier.
 */
module Heartbeat {
  import opened Wrappers

  const SECOND := 1_000_000_000
  const RENEW_EVERY := 30 * SECOND
  const RENEW_MARGIN := 30 * SECOND
  const RETRY_MIN := SECOND
  const RETRY_MAX := 5 * SECOND
  const CONTROL_TIMEOUT := 5 * SECOND
  const LEASE := 300 * SECOND
  const HANDLER_BUDGET := 3600 * SECOND

  function Min(a: int, b: int): int { if a < b then a else b }

  /** A claim as its worker received it: local start, and lease and clock in database time. */
  datatype Claim = Claim(started: int, leaseUntil: int, serverNow: int)

  datatype Answer = Renewed(until: int, serverNow: int) | Lost | Failed
  /**
   * One renewal: when it was sent, when its answer or error came back, and what it said. `stampedAt` is the database's
   * own reading of its clock when it wrote the new lease, which the answer does not carry.
   */
  datatype Round = Round(now: int, answer: Answer, answeredAt: int, stampedAt: int)

  datatype Verdict = Running | LeaseLost(at: int) | Uncertain(at: int)

  // ---- the world the heartbeat runs in ----

  /** The database clock's unknown offset from the local one, and when it stamped the claim. */
  datatype Server = Server(offset: int, claimedAt: int)

  /** The lease the database holds, on the local clock. */
  function TrueEnd(server: Server, lease: int): int { lease - server.offset }

  function BudgetEnd(claim: Claim): int { claim.started + HANDLER_BUDGET }

  function LimitOf(claim: Claim, expiry: int): int { Min(expiry - RENEW_MARGIN, BudgetEnd(claim)) }

  /** The database stamped the claim, and read its clock for it, after the worker noted its own start. */
  predicate Claimed(claim: Claim, server: Server) {
    && claim.started + server.offset <= server.claimedAt <= claim.serverNow
    && claim.leaseUntil == server.claimedAt + LEASE
  }

  /** How the lease held moves during a round: a renewal may apply even when its answer never arrives. */
  predicate Serves(claim: Claim, server: Server, expiry: int, lease: int, r: Round, lease': int) {
    && r.now <= r.answeredAt <= r.now + Min(CONTROL_TIMEOUT, LimitOf(claim, expiry) - r.now)
    && match r.answer
       case Renewed(until, serverNow) =>
         && r.now + server.offset <= r.stampedAt <= serverNow
         && until == Min(r.stampedAt + LEASE, server.claimedAt + HANDLER_BUDGET)
         && lease' >= until
       case Failed => lease' >= lease
       case Lost => true
  }

  /** The next round starts on the following tick after a success, and after a jittered delay after an error. */
  predicate Follows(r: Round, next: int) {
    match r.answer
    case Renewed(_, _) => r.answeredAt <= next <= r.answeredAt + RENEW_EVERY
    case Failed => r.answeredAt + RETRY_MIN <= next <= r.answeredAt + RETRY_MAX
    case Lost => true
  }

  /** The expiry estimate after the first k rounds. */
  function Estimate(claim: Claim, rounds: seq<Round>, k: nat): int
    requires k <= |rounds|
  {
    if k == 0 then claim.started + (claim.leaseUntil - claim.serverNow)
    else
      var r := rounds[k - 1];
      match r.answer
      case Renewed(until, serverNow) => r.now + (until - serverNow)
      case _ => Estimate(claim, rounds, k - 1)
  }

  /** A round is only sent while the estimate leaves more than the margin. */
  predicate Sent(claim: Claim, rounds: seq<Round>, k: nat)
    requires k < |rounds|
  {
    rounds[k].now < LimitOf(claim, Estimate(claim, rounds, k))
  }

  /**
   * A schedule: leases[k] is the lease the database holds before round k, and rounds are spaced as the loop spaces
   * them. Rounds past the one that stops the heartbeat do not take place.
   */
  ghost predicate Schedule(claim: Claim, server: Server, rounds: seq<Round>, leases: seq<int>) {
    && |leases| == |rounds| + 1
    && leases[0] == claim.leaseUntil
    && (forall k :: 0 <= k < |rounds| && Sent(claim, rounds, k) ==>
          Serves(claim, server, Estimate(claim, rounds, k), leases[k], rounds[k], leases[k + 1]))
    && (forall k :: 0 <= k < |rounds| - 1 && Sent(claim, rounds, k) ==> Follows(rounds[k], rounds[k + 1].now))
  }

  /** A renewal is sent while more than half a minute is left of the estimate and any of the handler's own hour is. */
  lemma SentExactly(claim: Claim, rounds: seq<Round>, k: nat)
    requires k < |rounds|
    ensures Sent(claim, rounds, k) <==>
            rounds[k].now + 30 * SECOND < Estimate(claim, rounds, k) && rounds[k].now < claim.started + 3600 * SECOND
  {
  }

  /** The estimate is what the last renewal left, counted from when it was sent, or else the claim, from its start. */
  lemma {:induction false} EstimateExactly(claim: Claim, rounds: seq<Round>, k: nat, last: nat)
    requires last <= k <= |rounds| && forall i :: last <= i < k ==> !rounds[i].answer.Renewed?
    requires last > 0 ==> rounds[last - 1].answer.Renewed?
    ensures Estimate(claim, rounds, k) ==
            if last == 0 then claim.started + (claim.leaseUntil - claim.serverNow)
            else rounds[last - 1].now + (rounds[last - 1].answer.until - rounds[last - 1].answer.serverNow)
    decreases k
  {
    if k > last {
      EstimateExactly(claim, rounds, k - 1, last);
    }
  }

  /** The heartbeat ends at the first round that is not sent or is answered with a loss, and not before. */
  lemma {:induction false} WatchEndsAtTheFirst(claim: Claim, rounds: seq<Round>, k: nat) returns (n: nat)
    requires k <= |rounds|
    ensures k <= n <= |rounds| && forall i :: k <= i < n ==> Sent(claim, rounds, i) && !rounds[i].answer.Lost?
    ensures n == |rounds| ==> Watch(claim, rounds, k) == Running
    ensures n < |rounds| ==>
              && (!Sent(claim, rounds, n) || rounds[n].answer.Lost?)
              && Watch(claim, rounds, k) ==
                 if Sent(claim, rounds, n) then LeaseLost(rounds[n].answeredAt) else Uncertain(rounds[n].now)
    decreases |rounds| - k
  {
    if k < |rounds| && Sent(claim, rounds, k) && !rounds[k].answer.Lost? {
      n := WatchEndsAtTheFirst(claim, rounds, k + 1);
    } else {
      n := k;
    }
  }

  // ---- the estimate is conservative ----

  /** Whatever the clock offset and however late the answers, the estimate never passes the lease the database holds. */
  lemma {:induction false} EstimateIsConservative(claim: Claim, server: Server, rounds: seq<Round>, leases: seq<int>, k: nat)
    requires Claimed(claim, server) && Schedule(claim, server, rounds, leases) && k <= |rounds|
    requires forall i :: 0 <= i < k ==> Sent(claim, rounds, i) && !rounds[i].answer.Lost?
    ensures Estimate(claim, rounds, k) <= TrueEnd(server, leases[k])
  {
    if k > 0 {
      EstimateIsConservative(claim, server, rounds, leases, k - 1);
      assert Sent(claim, rounds, k - 1);
      RoundIsConservative(claim, server, rounds, k, leases[k - 1], leases[k]);
    }
  }

  lemma RoundIsConservative(claim: Claim, server: Server, rounds: seq<Round>, k: nat, before: int, after: int)
    requires 0 < k <= |rounds| && !rounds[k - 1].answer.Lost?
    requires Estimate(claim, rounds, k - 1) <= TrueEnd(server, before)
    requires Serves(claim, server, Estimate(claim, rounds, k - 1), before, rounds[k - 1], after)
    ensures Estimate(claim, rounds, k) <= TrueEnd(server, after)
  {
  }

  /** The latest moment the round after the first k can start. */
  function NextBy(firstTick: int, rounds: seq<Round>, k: nat): int
    requires k <= |rounds|
  {
    if k == 0 then firstTick
    else rounds[k - 1].answeredAt + (if rounds[k - 1].answer.Renewed? then RENEW_EVERY else RETRY_MAX)
  }

  /**
   * With at least a minute of lease left when it starts, and its first tick within 35 seconds of the claim request, the
   * heartbeat always looks again before the lease the database holds runs out, unless the handler's own deadline comes
   * before that: at worst 25 seconds before.
   */
  lemma LooksAgainInTime(claim: Claim, server: Server, firstTick: int, rounds: seq<Round>, leases: seq<int>, k: nat)
    requires Claimed(claim, server) && Schedule(claim, server, rounds, leases) && k <= |rounds|
    requires claim.leaseUntil - claim.serverNow >= 60 * SECOND && firstTick <= claim.started + 35 * SECOND
    requires forall i :: 0 <= i < k ==> Sent(claim, rounds, i) && !rounds[i].answer.Lost?
    ensures NextBy(firstTick, rounds, k) <= TrueEnd(server, leases[k]) - 25 * SECOND ||
            BudgetEnd(claim) <= TrueEnd(server, leases[k])
  {
    EstimateIsConservative(claim, server, rounds, leases, k);
    if k > 0 {
      assert Sent(claim, rounds, k - 1);
      assert Serves(claim, server, Estimate(claim, rounds, k - 1), leases[k - 1], rounds[k - 1], leases[k]);
    }
  }

  // ---- the loop ----

  /** What the heartbeat has done after looking at rounds k onward with this estimate. */
  function Watch(claim: Claim, rounds: seq<Round>, k: nat): Verdict
    requires k <= |rounds|
    decreases |rounds| - k
  {
    if k == |rounds| then Running
    else if !Sent(claim, rounds, k) then Uncertain(rounds[k].now)
    else if rounds[k].answer.Lost? then LeaseLost(rounds[k].answeredAt)
    else Watch(claim, rounds, k + 1)
  }

  /** startHeartbeat, over the rounds that take place until it is stopped. */
  method Beat(claim: Claim, rounds: seq<Round>) returns (v: Verdict, expiry: int, looked: nat)
    ensures v == Watch(claim, rounds, 0)
    ensures looked <= |rounds| && expiry == Estimate(claim, rounds, looked)
    ensures v.Running? ==> looked == |rounds|
    ensures !v.Running? ==> looked < |rounds| && v == Watch(claim, rounds, looked)
    ensures forall i :: 0 <= i < looked ==> Sent(claim, rounds, i) && !rounds[i].answer.Lost?
  {
    expiry := claim.started + (claim.leaseUntil - claim.serverNow);
    var budgetEnd := claim.started + HANDLER_BUDGET;
    looked := 0;
    while looked < |rounds|
      invariant 0 <= looked <= |rounds|
      invariant expiry == Estimate(claim, rounds, looked)
      invariant Watch(claim, rounds, looked) == Watch(claim, rounds, 0)
      invariant forall i :: 0 <= i < looked ==> Sent(claim, rounds, i) && !rounds[i].answer.Lost?
    {
      var r := rounds[looked];
      var limit := expiry - RENEW_MARGIN;
      if budgetEnd < limit {
        limit := budgetEnd;
      }
      if !(r.now < limit) {
        return Uncertain(r.now), expiry, looked;
      }
      match r.answer {
        case Renewed(until, serverNow) => expiry := r.now + (until - serverNow);
        case Lost => return LeaseLost(r.answeredAt), expiry, looked;
        case Failed =>
      }
      looked := looked + 1;
    }
    v := Running;
  }

  /**
   * The handler is stopped in time: whenever the heartbeat gives up for want of a confirmed renewal, it does so at
   * least 25 seconds before the lease the database holds runs out, or the handler's own deadline falls before that.
   */
  lemma CancelledInTime(claim: Claim, server: Server, firstTick: int, rounds: seq<Round>, leases: seq<int>, k: nat)
    requires Claimed(claim, server) && Schedule(claim, server, rounds, leases) && k < |rounds|
    requires claim.leaseUntil - claim.serverNow >= 60 * SECOND && firstTick <= claim.started + 35 * SECOND
    requires rounds[0].now <= firstTick
    requires forall i :: 0 <= i < k ==> Sent(claim, rounds, i) && !rounds[i].answer.Lost?
    requires Watch(claim, rounds, k).Uncertain? && !Sent(claim, rounds, k)
    ensures Watch(claim, rounds, k).at <= TrueEnd(server, leases[k]) - 25 * SECOND ||
            BudgetEnd(claim) <= TrueEnd(server, leases[k])
  {
    LooksAgainInTime(claim, server, firstTick, rounds, leases, k);
    if k > 0 {
      assert Sent(claim, rounds, k - 1);
      assert Follows(rounds[k - 1], rounds[k].now);
    }
  }

  /** A confirmed loss is acted on while the estimate still stood, never later than the limit it was checked against. */
  lemma LossIsActedOnAtOnce(claim: Claim, server: Server, rounds: seq<Round>, leases: seq<int>, k: nat)
    requires Schedule(claim, server, rounds, leases) && k < |rounds| && Sent(claim, rounds, k) && rounds[k].answer.Lost?
    ensures Watch(claim, rounds, k) == LeaseLost(rounds[k].answeredAt)
    ensures rounds[k].answeredAt <= LimitOf(claim, Estimate(claim, rounds, k))
  {
    assert Serves(claim, server, Estimate(claim, rounds, k), leases[k], rounds[k], leases[k + 1]);
  }
}
