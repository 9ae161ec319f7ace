/**
 * One job over its whole life: claims, lease expiries, and the fenced transitions any number of workers, live or stale,
 * try to apply to it.
 */
module JobLedger {
  import opened Wrappers
  import opened Settling

  datatype Row = Row(state: JobState, generation: nat, attempts: nat, leaseLive: bool, lastFailure: Reason)

  /** What becomes of a claim: handed back before a lane took it, or handled, with the outcome its worker settles. */
  datatype Fate = Unstarted | Handled(outcome: Outcome, cause: CancelCause, world: World)

  datatype Held = Held(claim: Claim, fate: Fate)

  /** An applied transition, with the generation it was presented for and why it was sent. */
  datatype Entry = Done(generation: nat) | Settled(generation: nat, transition: Transition, why: Why)

  /** claims[i] is the i-th claim; log holds what was applied, in order; lapsed, whose lease ran out while it held. */
  datatype Ledger = Ledger(row: Row, claims: seq<Held>, log: seq<Entry>, lapsed: set<nat>)

  datatype Event =
    | Claimed(fate: Fate)
    | LeaseExpired
    | Completes(claim: nat)                                     // the handler's transaction commits with the job
    | Presents(claim: nat, k: nat, reply: Reply, landed: bool)  // the worker sends the k-th transition of its verdict
    | SourcesResumed

  const FRESH := Ledger(Row(Ready, 0, 0, false, ""), [], [], {})

  // ---- what the worker of a claim sends ----

  /** giveBack for a claim no lane took, settle or the exhausted-budget path for any other. */
  function SentBy(h: Held): Sent {
    match h.fate
    case Unstarted => [Release(0)]
    case Handled(o, cause, w) => SentFor(Verdict(h.claim, o, cause, w), w)
  }

  /** The verdict's own reason; a second transition follows a failure refused for the advisory lock. */
  function WhySent(h: Held, k: nat): Why
    requires k < |SentBy(h)|
  {
    match h.fate
    case Unstarted => NeverStarted
    case Handled(o, cause, w) => if k == 0 then Verdict(h.claim, o, cause, w).why else LockBusy
  }

  predicate SentAs(h: Held, t: Transition, why: Why) {
    exists k :: 0 <= k < |SentBy(h)| && SentBy(h)[k] == t && WhySent(h, k) == why
  }

  /** Whatever a worker sends is a transition its claim permits, for the reason its verdict was reached. */
  lemma WorkersStayWithinTheLedger(h: Held, k: nat)
    requires k < |SentBy(h)|
    ensures Permitted(h.claim, SentBy(h)[k], WhySent(h, k))
  {
    if h.fate.Handled? {
      VerdictIsPermitted(h.claim, h.fate.outcome, h.fate.cause, h.fate.world);
    }
  }

  // ---- the row ----

  /** The predicate every verdict carries: this exact claim, still running, lease unexpired. */
  predicate Owned(r: Row, c: Claim) { r.generation == c.generation && r.state == Running && r.leaseLive }

  predicate Claimable(r: Row) { r.state == Ready || (r.state == Running && !r.leaseLive) }

  /** The claim statement: a new generation and lease, charging an attempt while any is left. */
  function ClaimOf(r: Row): Claim {
    Claim(r.generation + 1, if r.attempts < MAX_ATTEMPTS then r.attempts + 1 else MAX_ATTEMPTS, r.attempts < MAX_ATTEMPTS,
          r.lastFailure)
  }

  function Refund(c: Claim): nat { if c.charged then 1 else 0 }

  function Less(a: nat, b: nat): nat { if a < b then 0 else a - b }

  function Moved(r: Row, c: Claim, t: Transition): Row {
    match t
    case Retry(_, reason) => r.(state := Ready, leaseLive := false, lastFailure := reason)
    case Release(_) => r.(state := Ready, leaseLive := false, attempts := Less(r.attempts, Refund(c)))
    case Wait(_) => r.(state := WaitingSource, leaseLive := false, attempts := Less(r.attempts, Refund(c)))
    case Fail(reason) => r.(state := FailedState, leaseLive := false, lastFailure := reason)
  }

  /** A handler's transaction commits the job only for an outcome that says so, or that cannot tell. */
  predicate MayComplete(h: Held) {
    h.claim.charged && h.fate.Handled? &&
    (h.fate.outcome.Success? || h.fate.outcome.failure.declined || h.fate.outcome.failure.commitUncertain)
  }

  /**
   * The queue's answers are what its statements give: applied to the owner alone, refused when the fence or the lock
   * says so, and after an error nobody knows. A handled claim's worker met the answer its world gives.
   */
  predicate Possible(l: Ledger, e: Event) {
    match e
    case Claimed(_) => Claimable(l.row)
    case LeaseExpired => l.row.state == Running
    case Completes(i) => i < |l.claims| && MayComplete(l.claims[i])
    case Presents(i, k, reply, landed) =>
      && i < |l.claims|
      && var h := l.claims[i];
      && k < |SentBy(h)|
      && (h.fate.Handled? ==> reply == h.fate.world.reply(SentBy(h)[k]))
      && (landed ==> Owned(l.row, h.claim) && (reply.Applied? || reply.Error?))
      && (reply.Applied? ==> landed)
      && (reply.Fenced? ==> !Owned(l.row, h.claim))
    case SourcesResumed => l.row.state == WaitingSource
  }

  function Next(l: Ledger, e: Event): Ledger
    requires Possible(l, e)
  {
    match e
    case Claimed(fate) =>
      var c := ClaimOf(l.row);
      l.(row := Row(Running, c.generation, c.attempts, true, l.row.lastFailure), claims := l.claims + [Held(c, fate)])
    case LeaseExpired => l.(row := l.row.(leaseLive := false), lapsed := l.lapsed + {l.row.generation})
    case Completes(i) =>
      var c := l.claims[i].claim;
      if Owned(l.row, c)
      then l.(row := l.row.(state := Completed, leaseLive := false, lastFailure := ""), log := l.log + [Done(c.generation)])
      else l
    case Presents(i, k, _, landed) =>
      var h := l.claims[i];
      if landed
      then l.(row := Moved(l.row, h.claim, SentBy(h)[k]),
              log := l.log + [Settled(h.claim.generation, SentBy(h)[k], WhySent(h, k))])
      else l
    case SourcesResumed => l.(row := l.row.(state := Ready, generation := l.row.generation + 1))
  }

  /** The events take the job from one ledger to another. */
  ghost predicate Run(from: Ledger, events: seq<Event>, to: Ledger)
    decreases |events|
  {
    if events == [] then from == to else Possible(from, events[0]) && Run(Next(from, events[0]), events[1..], to)
  }

  // ---- what the ledger says about attempts ----

  predicate Refunds(e: Entry) { e.Settled? && (e.transition.Release? || e.transition.Wait?) }

  predicate Refunded(log: seq<Entry>, g: nat) {
    exists k :: 0 <= k < |log| && log[k].generation == g && Refunds(log[k])
  }

  /** The claim's attempt was charged and never given back. */
  predicate Kept(c: Claim, log: seq<Entry>) { c.charged && !Refunded(log, c.generation) }

  /** How many charged attempts were never given back. */
  function Spent(claims: seq<Held>, log: seq<Entry>): nat {
    if claims == [] then 0
    else Spent(claims[..|claims| - 1], log) + (if Kept(claims[|claims| - 1].claim, log) then 1 else 0)
  }

  function LastClaim(l: Ledger): Claim
    requires l.claims != []
  {
    l.claims[|l.claims| - 1].claim
  }

  /** Generations rise from claim to claim; a running job's is the last claim's. */
  ghost predicate ClaimsOk(l: Ledger) {
    && (forall i, j :: 0 <= i < j < |l.claims| ==> l.claims[i].claim.generation < l.claims[j].claim.generation)
    && (forall i :: 0 <= i < |l.claims| ==> l.claims[i].claim.generation <= l.row.generation)
    && (forall i :: 0 <= i < |l.claims| && !l.claims[i].claim.charged ==> l.claims[i].claim.attempts == MAX_ATTEMPTS)
    && (l.row.leaseLive ==> l.row.state == Running)
    && (l.row.state == Running && !l.row.leaseLive ==> l.row.generation in l.lapsed)
    && (l.row.state == Running ==>
          l.claims != [] && LastClaim(l).generation == l.row.generation && LastClaim(l).attempts == l.row.attempts)
  }

  /** The entry belongs to a claim that permitted it. */
  predicate Recorded(claims: seq<Held>, e: Entry) {
    exists i :: 0 <= i < |claims| && claims[i].claim.generation == e.generation &&
                (if e.Done? then claims[i].claim.charged else SentAs(claims[i], e.transition, e.why))
  }

  /** At most one transition per generation, none yet for a running job's, each permitted; a completed job stays so. */
  ghost predicate LogOk(l: Ledger) {
    && (forall i, j :: 0 <= i < j < |l.log| ==> l.log[i].generation < l.log[j].generation)
    && (forall k :: 0 <= k < |l.log| ==> l.log[k].generation <= l.row.generation)
    && (forall k :: 0 <= k < |l.log| && l.row.state == Running ==> l.log[k].generation < l.row.generation)
    && (forall k :: 0 <= k < |l.log| ==> Recorded(l.claims, l.log[k]))
    && (forall k :: 0 <= k < |l.log| && l.log[k].Done? ==> l.row.state == Completed)
  }

  /** Attempts count exactly the charges never given back, and a failed job has a terminal cause or none left. */
  ghost predicate AttemptsOk(l: Ledger) {
    && l.row.attempts == Spent(l.claims, l.log) <= MAX_ATTEMPTS
    && (l.row.state == FailedState ==>
          l.log != [] &&
          var last := l.log[|l.log| - 1];
          last.Settled? && last.transition.Fail? && last.generation == l.row.generation &&
          (last.why.Terminal? || l.row.attempts == MAX_ATTEMPTS))
  }

  predicate Settles(e: Entry, c: Claim) { e.generation == c.generation }

  predicate Verdicted(log: seq<Entry>, c: Claim) { exists k :: 0 <= k < |log| && Settles(log[k], c) }

  /** A claim that is over ended in an applied transition or in the end of its lease. */
  ghost predicate Accounted(l: Ledger) {
    forall i :: 0 <= i < |l.claims| ==>
      || Verdicted(l.log, l.claims[i].claim) || l.claims[i].claim.generation in l.lapsed
      || (l.row.state == Running && l.row.generation == l.claims[i].claim.generation)
  }

  ghost predicate Inv(l: Ledger) { ClaimsOk(l) && LogOk(l) && AttemptsOk(l) && Accounted(l) }

  lemma RefundNeedsItsEntry(log: seq<Entry>, e: Entry, g: nat)
    ensures Refunded(log + [e], g) <==> Refunded(log, g) || (e.generation == g && Refunds(e))
  {
    if Refunded(log, g) {
      var k :| 0 <= k < |log| && log[k].generation == g && Refunds(log[k]);
      assert (log + [e])[k] == log[k];
    }
    if e.generation == g && Refunds(e) {
      assert (log + [e])[|log|] == e;
    }
    if Refunded(log + [e], g) {
      var k :| 0 <= k < |log + [e]| && (log + [e])[k].generation == g && Refunds((log + [e])[k]);
      assert k < |log| ==> log[k] == (log + [e])[k];
    }
  }

  /** An entry for a later generation leaves earlier claims' accounts alone. */
  lemma {:induction false} SpentBelow(claims: seq<Held>, log: seq<Entry>, e: Entry)
    requires forall i :: 0 <= i < |claims| ==> claims[i].claim.generation < e.generation
    ensures Spent(claims, log + [e]) == Spent(claims, log)
  {
    if claims != [] {
      SpentBelow(claims[..|claims| - 1], log, e);
      RefundNeedsItsEntry(log, e, claims[|claims| - 1].claim.generation);
    }
  }

  /** Settling the current claim takes its attempt off the account exactly when the transition refunds it. */
  lemma SpentOnSettling(l: Ledger, e: Entry)
    requires ClaimsOk(l) && LogOk(l) && l.row.state == Running && e.generation == l.row.generation
    ensures l.claims != []
    ensures Spent(l.claims, l.log + [e]) == Spent(l.claims, l.log) - (if Refunds(e) then Refund(LastClaim(l)) else 0)
  {
    SpentBelow(l.claims[..|l.claims| - 1], l.log, e);
    RefundNeedsItsEntry(l.log, e, l.row.generation);
    assert !Refunded(l.log, l.row.generation);
  }

  lemma ClaimKeepsLog(l: Ledger, fate: Fate)
    requires ClaimsOk(l) && LogOk(l) && Possible(l, Claimed(fate))
    ensures LogOk(Next(l, Claimed(fate)))
  {
    hide Recorded, SentBy, ClaimsOk;
    var l' := Next(l, Claimed(fate));
    forall k | 0 <= k < |l.log| ensures Recorded(l'.claims, l.log[k]) {
      RecordedGrows(l.claims, Held(ClaimOf(l.row), fate), l.log[k]);
    }
  }

  lemma ClaimKeepsAccounts(l: Ledger, fate: Fate)
    requires Inv(l) && Possible(l, Claimed(fate))
    ensures AttemptsOk(Next(l, Claimed(fate))) && Accounted(Next(l, Claimed(fate)))
  {
    hide Recorded, Verdicted, Refunds;
    var l' := Next(l, Claimed(fate));
    assert l'.claims[..|l'.claims| - 1] == l.claims;
    assert !Refunded(l.log, LastClaim(l').generation);
  }

  lemma ClaimKeepsInv(l: Ledger, fate: Fate)
    requires Inv(l) && Possible(l, Claimed(fate))
    ensures Inv(Next(l, Claimed(fate)))
  {
    hide Spent, Recorded, LogOk, AttemptsOk, Accounted;
    ClaimKeepsLog(l, fate);
    ClaimKeepsAccounts(l, fate);
  }

  lemma RecordedGrows(claims: seq<Held>, h: Held, e: Entry)
    requires Recorded(claims, e)
    ensures Recorded(claims + [h], e)
  {
    var i :| 0 <= i < |claims| && claims[i].claim.generation == e.generation &&
             (if e.Done? then claims[i].claim.charged else SentAs(claims[i], e.transition, e.why));
    assert (claims + [h])[i] == claims[i];
  }

  /** The only claim that owns a running job is its last one. */
  lemma OwnerIsLast(l: Ledger, i: nat)
    requires ClaimsOk(l) && i < |l.claims| && Owned(l.row, l.claims[i].claim)
    ensures i == |l.claims| - 1
  {
  }

  /** The entry settles the claim that owns the job, and r is the row it leaves. */
  ghost predicate Settlement(l: Ledger, entry: Entry, i: nat, r: Row) {
    && i < |l.claims| && Owned(l.row, l.claims[i].claim)
    && var c := l.claims[i].claim;
    && entry.generation == c.generation
    && if entry.Done? then c.charged && r == l.row.(state := Completed, leaseLive := false, lastFailure := "")
       else SentAs(l.claims[i], entry.transition, entry.why) && r == Moved(l.row, c, entry.transition)
  }

  lemma SettleKeepsLog(l: Ledger, entry: Entry, i: nat, r: Row)
    requires Inv(l) && Settlement(l, entry, i, r)
    ensures LogOk(l.(row := r, log := l.log + [entry]))
  {
    hide SentAs, Spent, Accounted;
    assert Recorded(l.claims, entry);
  }

  lemma SettleKeepsAttempts(l: Ledger, entry: Entry, i: nat, r: Row)
    requires Inv(l) && Settlement(l, entry, i, r)
    ensures AttemptsOk(l.(row := r, log := l.log + [entry]))
  {
    var c := l.claims[i].claim;
    OwnerIsLast(l, i);
    SpentOnSettling(l, entry);
    if entry.Settled? {
      SentIsPermitted(l.claims[i], entry.transition, entry.why);
    }
    assert Kept(c, l.log) <==> c.charged by {
      assert !Refunded(l.log, c.generation);
    }
    hide SentAs, Recorded, Refunded, Accounted;
  }

  lemma SettleKeepsInv(l: Ledger, entry: Entry, i: nat, r: Row)
    requires Inv(l) && Settlement(l, entry, i, r)
    ensures Inv(l.(row := r, log := l.log + [entry]))
  {
    hide ClaimsOk, LogOk, AttemptsOk, Accounted, SentAs;
    assert entry.generation == l.row.generation;
    LogGrows(l, entry);
    SettleKeepsClaims(l, entry, i, r);
    SettleKeepsLog(l, entry, i, r);
    SettleKeepsAttempts(l, entry, i, r);
  }

  lemma SettleKeepsClaims(l: Ledger, entry: Entry, i: nat, r: Row)
    requires ClaimsOk(l) && Settlement(l, entry, i, r)
    ensures ClaimsOk(l.(row := r, log := l.log + [entry]))
  {
    hide SentAs;
  }

  lemma SentIsPermitted(h: Held, t: Transition, why: Why)
    requires SentAs(h, t, why)
    ensures Permitted(h.claim, t, why)
  {
    var k :| 0 <= k < |SentBy(h)| && SentBy(h)[k] == t && WhySent(h, k) == why;
    WorkersStayWithinTheLedger(h, k);
  }

  lemma LogGrows(l: Ledger, entry: Entry)
    requires Accounted(l) && entry.generation == l.row.generation
    ensures forall r: Row :: Accounted(l.(row := r, log := l.log + [entry]))
  {
    forall i | 0 <= i < |l.claims|
      ensures Verdicted(l.log + [entry], l.claims[i].claim) || l.claims[i].claim.generation in l.lapsed
    {
      var c := l.claims[i].claim;
      if Verdicted(l.log, c) {
        var k :| 0 <= k < |l.log| && Settles(l.log[k], c);
        assert Settles((l.log + [entry])[k], c);
      } else if c.generation !in l.lapsed {
        assert Settles((l.log + [entry])[|l.log|], c);
      }
    }
  }

  lemma StepKeepsInv(l: Ledger, e: Event)
    requires Inv(l) && Possible(l, e)
    ensures Inv(Next(l, e))
  {
    match e
    case Claimed(fate) =>
      ClaimKeepsInv(l, fate);
    case Completes(i) =>
      if Owned(l.row, l.claims[i].claim) {
        SettleKeepsInv(l, Done(l.claims[i].claim.generation), i, Next(l, e).row);
      }
    case Presents(i, k, _, landed) =>
      if landed {
        var h := l.claims[i];
        assert SentAs(h, SentBy(h)[k], WhySent(h, k));
        SettleKeepsInv(l, Settled(h.claim.generation, SentBy(h)[k], WhySent(h, k)), i, Next(l, e).row);
      }
    case _ =>
  }

  lemma {:induction false} RunKeepsInv(from: Ledger, events: seq<Event>, to: Ledger)
    requires Inv(from) && Run(from, events, to)
    ensures Inv(to)
    decreases |events|
  {
    if events != [] {
      StepKeepsInv(from, events[0]);
      RunKeepsInv(Next(from, events[0]), events[1..], to);
    }
  }

  // ---- the guarantees ----

  /** Whatever stale or live workers try, at most one transition is ever applied for one claim. */
  lemma AtMostOneVerdictPerClaim(events: seq<Event>, l: Ledger, i: nat, j: nat)
    requires Run(FRESH, events, l) && i < |l.log| && j < |l.log| && l.log[i].generation == l.log[j].generation
    ensures i == j
  {
    RunKeepsInv(FRESH, events, l);
  }

  /** The failure is evidence about the work: nothing the runtime does around a handler brought it about. */
  predicate AboutTheWork(fate: Fate) {
    && fate.Handled? && fate.outcome.Failed?
    && var f := fate.outcome.failure;
    && !fate.world.shuttingDown && !f.deadlock && !f.busy && !f.sourceUnavailable && !f.sourceChanged && !f.leaseLost
    && fate.cause != LostLease && fate.cause != LeaseUncertain
  }

  predicate TerminalError(fate: Fate) {
    fate.Handled? && fate.outcome.Failed? && (fate.outcome.failure.terminal.Some? || fate.outcome.failure.dataException)
  }

  /**
   * An attempt that counts: the claim was charged, and either its lease ran out without any verdict, or its handler
   * failed in a way that is evidence about the work and a retry or the failing verdict was applied for it.
   */
  predicate SpentHonestly(h: Held, l: Ledger) {
    && h.claim.charged
    && (Verdicted(l.log, h.claim) || h.claim.generation in l.lapsed)
    && forall k :: 0 <= k < |l.log| && Settles(l.log[k], h.claim) ==>
         l.log[k].Settled? && (l.log[k].transition.Retry? || l.log[k].transition.Fail?) && AboutTheWork(h.fate)
  }

  function KeptClaims(claims: seq<Held>, log: seq<Entry>): (kept: seq<Held>)
    ensures |kept| == Spent(claims, log)
    ensures forall h :: h in kept ==> h in claims && Kept(h.claim, log)
  {
    if claims == [] then []
    else KeptClaims(claims[..|claims| - 1], log) +
         (if Kept(claims[|claims| - 1].claim, log) then [claims[|claims| - 1]] else [])
  }

  ghost predicate Rising(claims: seq<Held>) {
    forall i, j :: 0 <= i < j < |claims| ==> claims[i].claim.generation < claims[j].claim.generation
  }

  /** No generation is counted twice. */
  lemma {:induction false} KeptClaimsRise(claims: seq<Held>, log: seq<Entry>)
    requires Rising(claims)
    ensures Rising(KeptClaims(claims, log))
  {
    if claims != [] {
      KeptClaimsRise(claims[..|claims| - 1], log);
      var front := KeptClaims(claims[..|claims| - 1], log);
      var last := claims[|claims| - 1];
      forall i | 0 <= i < |front| ensures front[i].claim.generation < last.claim.generation {
        assert front[i] in claims[..|claims| - 1];
      }
    }
  }

  /** A retry or a failure of a charged claim is sent only for an outcome that is evidence about the work. */
  lemma KeptAttemptsAreAboutTheWork(h: Held, k: nat)
    requires k < |SentBy(h)| && h.claim.charged && (SentBy(h)[k].Retry? || SentBy(h)[k].Fail?)
    ensures AboutTheWork(h.fate)
    ensures WhySent(h, k).Terminal? ==> TerminalError(h.fate)
    ensures WhySent(h, k).Terminal? || WhySent(h, k).Transient?
  {
  }

  lemma EntryWasSent(l: Ledger, k: nat, i: nat) returns (n: nat)
    requires Inv(l) && k < |l.log| && i < |l.claims| && l.log[k].Settled? && Settles(l.log[k], l.claims[i].claim)
    ensures n < |SentBy(l.claims[i])|
    ensures SentBy(l.claims[i])[n] == l.log[k].transition && WhySent(l.claims[i], n) == l.log[k].why
  {
    var e := l.log[k];
    assert Recorded(l.claims, e);
    var j :| 0 <= j < |l.claims| && l.claims[j].claim.generation == e.generation &&
             SentAs(l.claims[j], e.transition, e.why);
    assert i == j;
    n :| 0 <= n < |SentBy(l.claims[i])| && SentBy(l.claims[i])[n] == e.transition && WhySent(l.claims[i], n) == e.why;
  }

  lemma KeptIsHonest(l: Ledger, h: Held)
    requires Inv(l) && l.row.state == FailedState && h in l.claims && Kept(h.claim, l.log)
    ensures SpentHonestly(h, l)
  {
    var i :| 0 <= i < |l.claims| && l.claims[i] == h;
    forall k | 0 <= k < |l.log| && Settles(l.log[k], h.claim)
      ensures l.log[k].Settled? && (l.log[k].transition.Retry? || l.log[k].transition.Fail?) && AboutTheWork(h.fate)
    {
      assert l.log[k].Settled? && !Refunds(l.log[k]);
      var n := EntryWasSent(l, k, i);
      KeptAttemptsAreAboutTheWork(h, n);
    }
  }

  /**
   * In every run, a job is FAILED only by the verdict of a claim whose own handler failed with a terminal error or one
   * the store rejects for its content, or after three different charged claims whose own handlers each failed in a way
   * that is evidence about the work, or whose lease ran out without any verdict. A shutdown, a deadlock, a held lock, a
   * missing or changed source and a lost lease are never behind a verdict that counts.
   */
  lemma FailureIsEarned(events: seq<Event>, l: Ledger) returns (failing: Held, spent: seq<Held>)
    requires Run(FRESH, events, l) && l.row.state == FailedState
    ensures failing in l.claims && l.log != []
    ensures var last := l.log[|l.log| - 1];
            last.Settled? && last.transition.Fail? && Settles(last, failing.claim) && last.transition in SentBy(failing)
    ensures (failing.claim.charged && AboutTheWork(failing.fate) && TerminalError(failing.fate)) ||
            |spent| == MAX_ATTEMPTS
    ensures Rising(spent)
    ensures forall h :: h in spent ==> h in l.claims && SpentHonestly(h, l)
  {
    RunKeepsInv(FRESH, events, l);
    var k := |l.log| - 1;
    assert Recorded(l.claims, l.log[k]);
    var i :| 0 <= i < |l.claims| && l.claims[i].claim.generation == l.log[k].generation;
    failing := l.claims[i];
    var n := EntryWasSent(l, k, i);
    WorkersStayWithinTheLedger(failing, n);
    if l.log[k].why.Terminal? {
      KeptAttemptsAreAboutTheWork(failing, n);
    }
    spent := KeptClaims(l.claims, l.log);
    KeptClaimsRise(l.claims, l.log);
    forall h | h in spent ensures SpentHonestly(h, l) {
      KeptIsHonest(l, h);
    }
  }

  /** A verdict or a completion from a worker that no longer owns the job changes nothing, and is never answered as applied. */
  lemma StaleVerdictsDoNothing(events: seq<Event>, l: Ledger, e: Event)
    requires Run(FRESH, events, l) && Possible(l, e) && (e.Presents? || e.Completes?) && e.claim + 1 < |l.claims|
    ensures Next(l, e) == l && (e.Presents? ==> !e.reply.Applied?)
  {
    RunKeepsInv(FRESH, events, l);
    if Owned(l.row, l.claims[e.claim].claim) {
      OwnerIsLast(l, e.claim);
    }
  }

  /** Once its lease has run out, nobody's verdict or completion touches the job until it is claimed again. */
  lemma LapsedVerdictsDoNothing(events: seq<Event>, l: Ledger, e: Event)
    requires Run(FRESH, events, l) && Possible(l, e) && (e.Presents? || e.Completes?) && !l.row.leaseLive
    ensures Next(l, e) == l && (e.Presents? ==> !e.reply.Applied?)
  {
  }

  /** A job is claimed only while nobody holds it and it is neither done, failed nor waiting. */
  lemma OnlyFreeJobsAreClaimed(events: seq<Event>, l: Ledger, fate: Fate)
    requires Run(FRESH, events, l) && Possible(l, Claimed(fate))
    ensures !l.row.leaseLive && l.row.state != Completed && l.row.state != FailedState && l.row.state != WaitingSource
  {
    RunKeepsInv(FRESH, events, l);
  }

  /** A job whose lease has run out can be claimed again, and resumed work can be claimed. */
  lemma LapsedJobsAreClaimed(l: Ledger, fate: Fate)
    ensures l.row.state == Running ==> Possible(Next(l, LeaseExpired), Claimed(fate))
    ensures l.row.state == WaitingSource ==> Possible(Next(l, SourcesResumed), Claimed(fate))
  {
  }

  /** A job that is done or failed stays exactly as it is, whatever its workers still try. */
  lemma FinishedIsFinal(events: seq<Event>, l: Ledger, e: Event)
    requires Run(FRESH, events, l) && Possible(l, e) && (l.row.state == Completed || l.row.state == FailedState)
    ensures Next(l, e) == l
  {
    RunKeepsInv(FRESH, events, l);
  }

  /** The handler that still owns the job completes it: its transaction commits and clears the last failure. */
  lemma OwnerCompletes(l: Ledger)
    requires Inv(l) && l.row.state == Running && l.row.leaseLive && Possible(l, Completes(|l.claims| - 1))
    ensures var row := Next(l, Completes(|l.claims| - 1)).row;
            row.state == Completed && row.lastFailure == "" && !row.leaseLive && row.attempts == l.row.attempts
  {
  }

  /** The claims made, each settled as its fate says, can fail a job: a first attempt with a terminal error does. */
  lemma ATerminalErrorFailsAtOnce(fate: Fate)
    requires AboutTheWork(fate) && TerminalError(fate)
    requires var f := fate.outcome.failure; !f.declined && !f.commitUncertain && f.docID == ""
    requires fate.world.reply(Fail(ReasonOf(Judged(fate.outcome.failure)))).Applied?
    ensures var c := Claim(1, 1, true, "");
            var claimed := Next(FRESH, Claimed(fate));
            && SentBy(Held(c, fate)) == [Fail(ReasonOf(Judged(fate.outcome.failure)))]
            && Possible(claimed, Presents(0, 0, Applied, true))
            && Next(claimed, Presents(0, 0, Applied, true)).row.state == FailedState
  {
  }

  /** A charged claim that is given back or waits for its source leaves the attempts and the last failure as they were. */
  lemma ReturnedAttemptIsRefunded(l: Ledger, fate: Fate, k: nat, reply: Reply)
    requires Inv(l) && Possible(l, Claimed(fate)) && l.row.attempts < 3
    requires var claimed := Next(l, Claimed(fate));
             var presents := Presents(|l.claims|, k, reply, true);
             Possible(claimed, presents) &&
             var t := SentBy(claimed.claims[|l.claims|])[k]; t.Release? || t.Wait?
    ensures var claimed := Next(l, Claimed(fate));
            var row := Next(claimed, Presents(|l.claims|, k, reply, true)).row;
            && row.attempts == l.row.attempts && row.lastFailure == l.row.lastFailure && !row.leaseLive
            && row.state == if SentBy(claimed.claims[|l.claims|])[k].Wait? then WaitingSource else Ready
    ensures fate.Unstarted? ==> SentBy(Next(l, Claimed(fate)).claims[|l.claims|]) == [Release(0)]
  {
  }

  // ---- what work that goes on failing comes to ----

  /** The fate of a claim whose handler fails for the work's sake, not for good, and whose verdict the queue applies. */
  ghost predicate FailsAgain(fate: Fate, generation: nat) {
    && AboutTheWork(fate) && !TerminalError(fate)
    && var (f, w) := (fate.outcome.failure, fate.world);
    && !f.declined && (f.commitUncertain ==> w.resolved == Found(Running, generation))
    && !(f.docID != "" && w.documentExists == Some(false))
    && Fair(w.jitter) && forall t :: w.reply(t) == Applied
  }

  /** Each claim is made and its one transition applied. */
  function Rounds(first: nat, fates: seq<Fate>): seq<Event>
    decreases |fates|
  {
    if fates == [] then [] else [Claimed(fates[0]), Presents(first, 0, Applied, true)] + Rounds(first + 1, fates[1..])
  }

  function ReasonFor(fate: Fate): Reason {
    if fate.Handled? && fate.outcome.Failed? && fate.outcome.failure.transient.Some?
    then fate.outcome.failure.transient.value else "UNCLASSIFIED"
  }

  /** The one transition of such a claim. */
  lemma FailureIsSent(c: Claim, fate: Fate)
    requires c.charged && FailsAgain(fate, c.generation)
    ensures var sent := SentBy(Held(c, fate));
            && sent != []
            && (if c.attempts < 3 then sent[0].Retry? && sent[0].reason == ReasonFor(fate)
                else sent[0] == Fail(ReasonFor(fate)))
            && fate.world.reply(sent[0]) == Applied
  {
    WorkIsRetriedThenFailed(c, fate.outcome.failure, fate.cause, fate.world);
  }

  /** One such claim spends an attempt, records why, and leaves the job ready, or failed when the attempt was the third. */
  lemma OneRound(l: Ledger, fate: Fate) returns (t: Ledger)
    requires Inv(l) && l.row.state == Ready && l.row.attempts < 3 && FailsAgain(fate, l.row.generation + 1)
    ensures var claimed, sent := Claimed(fate), Presents(|l.claims|, 0, Applied, true);
            Possible(l, claimed) && Possible(Next(l, claimed), sent) && t == Next(Next(l, claimed), sent)
    ensures Inv(t) && |t.claims| == |l.claims| + 1 && t.row.generation == l.row.generation + 1
    ensures t.row.attempts == l.row.attempts + 1 && t.row.lastFailure == ReasonFor(fate)
    ensures t.row.state == if t.row.attempts < 3 then Ready else FailedState
  {
    hide Inv, FailsAgain, SentBy, WhySent, ReasonFor;
    var claimed := Next(l, Claimed(fate));
    FailureIsSent(LastClaim(claimed), fate);
    StepKeepsInv(l, Claimed(fate));
    var sent := Presents(|l.claims|, 0, Applied, true);
    StepKeepsInv(claimed, sent);
    t := Next(claimed, sent);
  }

  /**
   * Work that goes on failing is not retried for ever: from any ledger that holds together, the claims that spend the
   * attempts left, one after another, leave the job FAILED for the last one's reason; three of them on a fresh job.
   */
  lemma {:induction false} FailingWorkFailsTheJob(l: Ledger, fates: seq<Fate>) returns (t: Ledger)
    requires Inv(l) && l.row.state == Ready && l.row.attempts + |fates| == 3 && fates != []
    requires forall k :: 0 <= k < |fates| ==> FailsAgain(fates[k], l.row.generation + 1 + k)
    ensures Run(l, Rounds(|l.claims|, fates), t)
    ensures t.row.state == FailedState && t.row.lastFailure == ReasonFor(fates[|fates| - 1])
    decreases |fates|
  {
    hide Inv, Possible, Next, FailsAgain, ReasonFor;
    var claimed, sent := Claimed(fates[0]), Presents(|l.claims|, 0, Applied, true);
    assert FailsAgain(fates[0], l.row.generation + 1 + 0);
    var u := OneRound(l, fates[0]);
    var rest := Rounds(|l.claims| + 1, fates[1..]);
    if |fates| == 1 {
      t := u;
    } else {
      t := FailingWorkFailsTheJob(u, fates[1..]);
    }
    RoundFirst(l, claimed, sent, rest, t);
  }

  lemma RoundFirst(l: Ledger, a: Event, b: Event, rest: seq<Event>, t: Ledger)
    requires Possible(l, a) && Possible(Next(l, a), b) && Run(Next(Next(l, a), b), rest, t)
    ensures Run(l, [a, b] + rest, t)
  {
    hide Possible, Next;
    assert ([a, b] + rest)[1..] == [b] + rest;
    assert ([b] + rest)[1..] == rest;
  }
}
