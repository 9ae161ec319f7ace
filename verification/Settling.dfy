/**
 * What becomes of one claimed job: which handler outcomes run at all, and which single fenced transition, if any, an
 * outcome leads to.
 */
module Settling {
  import opened Wrappers

  const SECOND := 1_000_000_000
  const MAX_ATTEMPTS := 3
  const BUSY_DELAY := 30 * SECOND
  const DEADLOCK_DELAY := 5 * SECOND
  const NAK_BASE := 60 * SECOND
  const NAK_MAX := 300 * SECOND

  type Reason = string
  const UNCLASSIFIED: Reason := "UNCLASSIFIED"
  const STORE_REJECTED: Reason := "STORE_REJECTED"

  datatype Claim = Claim(generation: nat, attempts: nat, charged: bool, lastFailure: Reason)

  /** What an error's chain answers to the tests settle puts to it. */
  datatype Failure = Failure(
    declined: bool, commitUncertain: bool, leaseLost: bool, busy: bool, deadlock: bool,
    sourceUnavailable: bool, sourceChanged: bool, terminal: Option<Reason>, transient: Option<Reason>,
    dataException: bool, docID: string)

  datatype Outcome = Success | Failed(failure: Failure)
  datatype CancelCause = NotCancelled | LostLease | LeaseUncertain | OtherCause

  /** The queue's answer to a transition: applied, refused by the fence, refused for the advisory lock, or an error. */
  datatype Reply = Applied | Fenced | LockHeld | Error
  datatype JobState = Ready | Running | Completed | FailedState | WaitingSource
  datatype StateReply = Unreadable | Absent | Found(state: JobState, generation: nat)

  datatype Transition =
    | Retry(delay: int, reason: Reason)
    | Release(delay: int)
    | Wait(reason: Reason)
    | Fail(reason: Reason)

  /** The world settle runs against: shutdown, the document store, and the queue. */
  datatype World = World(
    shuttingDown: bool, documentExists: Option<bool>, resolved: StateReply, afterFail: StateReply,
    reply: Transition -> Reply, jitter: int -> int)

  /** Jitter is drawn from [0, n) for a positive n. */
  ghost predicate Fair(jitter: int -> int) { forall n :: n > 0 ==> 0 <= jitter(n) < n }

  // ---- the backoff ----

  function Doubled(attempts: int, i: int, d: int): int
    decreases attempts - i
  {
    if i < attempts && d < NAK_MAX then Doubled(attempts, i + 1, 2 * d) else d
  }

  function Ceiling(attempts: int): int {
    if Doubled(attempts, 1, NAK_BASE) > NAK_MAX then NAK_MAX else Doubled(attempts, 1, NAK_BASE)
  }

  /** nakBackoff: the wait is in the upper half of a ceiling that doubles from a minute to five. */
  method NakBackoff(attempts: int, jitter: int -> int) returns (delay: int)
    requires Fair(jitter)
    ensures 30 * SECOND <= delay < NAK_MAX
    ensures delay == Ceiling(attempts) / 2 + jitter(Ceiling(attempts) / 2)
  {
    BackoffIsBounded(attempts);
    var d := NAK_BASE;
    var i := 1;
    while i < attempts && d < NAK_MAX
      invariant Doubled(attempts, i, d) == Doubled(attempts, 1, NAK_BASE)
      decreases attempts - i
    {
      d := d * 2;
      i := i + 1;
    }
    if d > NAK_MAX {
      d := NAK_MAX;
    }
    delay := d / 2 + jitter(d / 2);
  }

  lemma {:induction false} DoubledBounds(attempts: int, i: int, d: int)
    requires NAK_BASE <= d
    ensures d <= Doubled(attempts, i, d)
    ensures d % 2 == 0 ==> Doubled(attempts, i, d) % 2 == 0
    decreases attempts - i
  {
    if i < attempts && d < NAK_MAX {
      DoubledBounds(attempts, i + 1, 2 * d);
    }
  }

  /** Every retry outlasts the thirty-second breaker cooldown, and none waits five minutes. */
  lemma BackoffIsBounded(attempts: int)
    ensures NAK_BASE <= Ceiling(attempts) <= NAK_MAX && Ceiling(attempts) % 2 == 0
  {
    DoubledBounds(attempts, 1, NAK_BASE);
  }

  /** A minute, two, four, and five from then on. */
  lemma CeilingDoubles(attempts: int)
    ensures attempts <= 1 ==> Ceiling(attempts) == 60 * SECOND
    ensures attempts == 2 ==> Ceiling(attempts) == 120 * SECOND
    ensures attempts == 3 ==> Ceiling(attempts) == 240 * SECOND
    ensures attempts >= 4 ==> Ceiling(attempts) == 300 * SECOND
  {
    if attempts >= 4 {
      assert Doubled(attempts, 1, NAK_BASE) == Doubled(attempts, 3, 4 * NAK_BASE);
    }
  }

  // ---- the decision ----

  /** Why a transition is asked for, for the ledger of attempts. */
  datatype Why = ShuttingDown | Deadlocked | LockBusy | NeverStarted | SourceGone | Transient | Terminal | BudgetSpent

  datatype Decision = NoTransition | Ask(transition: Transition, why: Why)

  function ReasonOf(f: Failure): Reason {
    if f.terminal.Some? then f.terminal.value else if f.transient.Some? then f.transient.value else UNCLASSIFIED
  }

  /** The failure as it is judged: one the store refuses for its content is terminal under its own reason. */
  function Judged(f: Failure): Failure {
    if f.terminal.None? && f.dataException then f.(terminal := Some(STORE_REJECTED)) else f
  }

  /** An uncertain commit that turns out to have happened, or to be nobody's to settle any more. */
  predicate Resolved(c: Claim, f: Failure, w: World) {
    f.commitUncertain && w.resolved != Found(Running, c.generation)
  }

  predicate Pruned(f: Failure, w: World) { f.docID != "" && w.documentExists == Some(false) }

  /** The one transition an outcome asks for. */
  function Decide(c: Claim, o: Outcome, cause: CancelCause, w: World): Decision {
    match o
    case Success => NoTransition
    case Failed(f) =>
      if f.declined || Resolved(c, f, w) then NoTransition
      else if f.leaseLost || cause.LostLease? || cause.LeaseUncertain? then NoTransition
      else if f.busy then Ask(Release(BUSY_DELAY), LockBusy)
      else if f.deadlock then Ask(Release(DEADLOCK_DELAY / 2 + w.jitter(DEADLOCK_DELAY / 2)), Deadlocked)
      else if f.sourceUnavailable || f.sourceChanged then
        Ask(Wait(if f.sourceChanged then "SOURCE_CHANGED" else "SOURCE_UNAVAILABLE"), SourceGone)
      else if w.shuttingDown then Ask(Release(0), ShuttingDown)
      else if Pruned(f, w) then NoTransition
      else
        var j := Judged(f);
        if j.terminal.Some? then Ask(Fail(ReasonOf(j)), Terminal)
        else if c.attempts >= MAX_ATTEMPTS then Ask(Fail(ReasonOf(j)), Transient)
        else Ask(Retry(Ceiling(c.attempts) / 2 + w.jitter(Ceiling(c.attempts) / 2), ReasonOf(j)), Transient)
  }

  // ---- what is sent to the queue ----

  /** The transitions sent, in order. */
  type Sent = seq<Transition>

  /** fail: a verdict refused for the advisory lock is followed by a busy return; nothing else is ever repeated. */
  function AfterFail(reason: Reason, w: World): Sent {
    if w.reply(Fail(reason)).LockHeld? then [Fail(reason), Release(BUSY_DELAY)] else [Fail(reason)]
  }

  function SentFor(d: Decision, w: World): Sent {
    match d
    case NoTransition => []
    case Ask(t, _) => if t.Fail? then AfterFail(t.reason, w) else [t]
  }

  /** fail. Counts the outcome only when the verdict is known to be recorded. */
  method RecordFailure(c: Claim, reason: Reason, w: World) returns (sent: Sent, recorded: bool)
    ensures sent == AfterFail(reason, w)
    ensures recorded <==>
            w.reply(Fail(reason)).Applied? ||
            (w.reply(Fail(reason)).Error? && w.afterFail == Found(FailedState, c.generation))
  {
    sent := [Fail(reason)];
    match w.reply(Fail(reason)) {
      case Applied => recorded := true;
      case Fenced => recorded := false;
      case LockHeld =>
        sent := sent + [Release(BUSY_DELAY)];
        recorded := false;
      case Error =>
        var st := w.afterFail;
        recorded := st.Found? && st.state == FailedState && st.generation == c.generation;
    }
  }

  /** settle. */
  method Settle(c: Claim, o: Outcome, cause: CancelCause, w: World) returns (sent: Sent)
    requires Fair(w.jitter)
    ensures sent == SentFor(Decide(c, o, cause, w), w)
  {
    if o.Success? {
      return [];
    }
    var err := o.failure;
    if err.declined {
      return [];
    }
    if err.commitUncertain {
      var st := w.resolved;
      if st.Unreadable? {
        return [];
      }
      if st.Found? && st.state == Completed && st.generation == c.generation {
        return [];
      }
      if st.Absent? || st.state != Running || st.generation != c.generation {
        return [];
      }
    }
    if err.leaseLost || cause.LostLease? || cause.LeaseUncertain? {
      return [];
    }
    if err.busy {
      return [Release(BUSY_DELAY)];
    }
    if err.deadlock {
      return [Release(DEADLOCK_DELAY / 2 + w.jitter(DEADLOCK_DELAY / 2))];
    }
    if err.sourceUnavailable || err.sourceChanged {
      var reason := "SOURCE_UNAVAILABLE";
      if err.sourceChanged {
        reason := "SOURCE_CHANGED";
      }
      return [Wait(reason)];
    }
    if w.shuttingDown {
      return [Release(0)];
    }
    if err.docID != "" && w.documentExists == Some(false) {
      return [];
    }
    if err.terminal.None? && err.dataException {
      err := err.(terminal := Some(STORE_REJECTED));
    }
    var reason := ReasonOf(err);
    if err.terminal.Some? || c.attempts >= MAX_ATTEMPTS {
      var recorded;
      sent, recorded := RecordFailure(c, reason, w);
      return;
    }
    var delay := NakBackoff(c.attempts, w.jitter);
    sent := [Retry(delay, reason)];
  }

  /** handle: an uncharged claim authorises failure bookkeeping only; the handler runs for a charged one alone. */
  method Handle(c: Claim, run: () -> Outcome, cause: CancelCause, w: World) returns (sent: Sent, ran: bool)
    requires Fair(w.jitter)
    ensures ran <==> c.charged
    ensures sent == SentFor(Verdict(c, run(), cause, w), w)
  {
    if !c.charged {
      var reason := c.lastFailure;
      if reason == "" {
        reason := UNCLASSIFIED;
      }
      var recorded;
      sent, recorded := RecordFailure(c, reason, w);
      return sent, false;
    }
    ran := true;
    var o := run();
    sent := Settle(c, o, cause, w);
  }

  function Verdict(c: Claim, o: Outcome, cause: CancelCause, w: World): Decision {
    if !c.charged then Ask(Fail(if c.lastFailure == "" then UNCLASSIFIED else c.lastFailure), BudgetSpent)
    else Decide(c, o, cause, w)
  }

  // ---- what a verdict may be ----

  /** The transitions a claim may be settled with, and why. */
  predicate Permitted(c: Claim, t: Transition, why: Why) {
    match t
    case Retry(_, _) => c.charged && why.Transient? && c.attempts < MAX_ATTEMPTS
    case Release(_) => why.ShuttingDown? || why.Deadlocked? || why.LockBusy? || why.NeverStarted?
    case Wait(_) => c.charged && why.SourceGone?
    case Fail(_) =>
      || (c.charged && why.Terminal?)
      || (c.charged && why.Transient? && c.attempts >= MAX_ATTEMPTS)
      || (!c.charged && why.BudgetSpent?)
  }

  /** A job is never failed for a shutdown, a deadlock, a held lock or a missing source. */
  lemma VerdictIsPermitted(c: Claim, o: Outcome, cause: CancelCause, w: World)
    ensures var d := Verdict(c, o, cause, w); d.Ask? ==> Permitted(c, d.transition, d.why)
    ensures var d := Verdict(c, o, cause, w);
            d.Ask? && d.transition.Fail? && d.why.Terminal? ==>
              o.Failed? && (o.failure.terminal.Some? || o.failure.dataException)
    ensures var d := Verdict(c, o, cause, w);
            d.Ask? && d.transition.Fail? && o.Failed? && c.charged ==>
              !w.shuttingDown && !o.failure.deadlock && !o.failure.busy && !o.failure.sourceUnavailable &&
              !o.failure.sourceChanged && !o.failure.leaseLost && cause != LostLease && cause != LeaseUncertain
  {
  }

  // ---- what each outcome leads to ----

  /** The failure is this claim's to settle: neither the handler nor a commit settled it, and the lease still holds. */
  predicate ToSettle(c: Claim, f: Failure, cause: CancelCause, w: World) {
    && c.charged && !f.declined && (f.commitUncertain ==> w.resolved == Found(Running, c.generation))
    && !f.leaseLost && !cause.LostLease? && !cause.LeaseUncertain?
  }

  /** And it is evidence about work that is still wanted. */
  predicate Counts(c: Claim, f: Failure, cause: CancelCause, w: World) {
    && ToSettle(c, f, cause, w)
    && !f.busy && !f.deadlock && !f.sourceUnavailable && !f.sourceChanged && !w.shuttingDown
    && !(f.docID != "" && w.documentExists == Some(false))
  }

  function SentOn(c: Claim, o: Outcome, cause: CancelCause, w: World): Sent { SentFor(Verdict(c, o, cause, w), w) }

  /** Nothing is sent for work that is done, declined or no longer wanted, or that is not this claim's to settle. */
  lemma NothingIsSent(c: Claim, o: Outcome, cause: CancelCause, w: World)
    requires c.charged
    requires o.Success? || !ToSettle(c, o.failure, cause, w) ||
             (!Counts(c, o.failure, cause, w) && !o.failure.busy && !o.failure.deadlock && !o.failure.sourceUnavailable &&
              !o.failure.sourceChanged && !w.shuttingDown)
    ensures SentOn(c, o, cause, w) == []
  {
  }

  /** What is not evidence about the work gives the job back: one transition each, the earlier cause before the later. */
  lemma GivenBackUncharged(c: Claim, f: Failure, cause: CancelCause, w: World)
    requires Fair(w.jitter) && ToSettle(c, f, cause, w)
    ensures var sent := SentOn(c, Failed(f), cause, w);
            && (f.busy ==> sent == [Release(30 * SECOND)])
            && (!f.busy && f.deadlock ==> sent == [Release(5 * SECOND / 2 + w.jitter(5 * SECOND / 2))])
            && (!f.busy && !f.deadlock && f.sourceChanged ==> sent == [Wait("SOURCE_CHANGED")])
            && (!f.busy && !f.deadlock && !f.sourceChanged && f.sourceUnavailable ==> sent == [Wait("SOURCE_UNAVAILABLE")])
            && (!f.busy && !f.deadlock && !f.sourceChanged && !f.sourceUnavailable && w.shuttingDown ==>
                  sent == [Release(0)])
  {
  }

  /** A transient failure is retried under its reason after a growing wait until three attempts are spent, then failed. */
  lemma WorkIsRetriedThenFailed(c: Claim, f: Failure, cause: CancelCause, w: World)
    requires Fair(w.jitter) && Counts(c, f, cause, w) && f.terminal.None? && !f.dataException
    ensures var sent := SentOn(c, Failed(f), cause, w);
            var reason := if f.transient.Some? then f.transient.value else "UNCLASSIFIED";
            && sent != []
            && (c.attempts >= 3 ==> sent[0] == Fail(reason))
            && (c.attempts < 3 ==>
                  && |sent| == 1 && sent[0].Retry? && sent[0].reason == reason
                  && 30 * SECOND <= sent[0].delay < 300 * SECOND
                  && (c.attempts <= 1 ==> sent[0].delay == 30 * SECOND + w.jitter(30 * SECOND))
                  && (c.attempts == 2 ==> sent[0].delay == 60 * SECOND + w.jitter(60 * SECOND)))
  {
    CeilingDoubles(c.attempts);
    BackoffIsBounded(c.attempts);
  }

  /** An error that says so, and one the store rejects for its content, fails the job at once under its own reason. */
  lemma TerminalIsFailedAtOnce(c: Claim, f: Failure, cause: CancelCause, w: World)
    requires Counts(c, f, cause, w) && (f.terminal.Some? || f.dataException)
    ensures var sent := SentOn(c, Failed(f), cause, w);
            sent != [] && sent[0] == Fail(if f.terminal.Some? then f.terminal.value else "STORE_REJECTED")
  {
  }

  /** A claim that found no attempt left fails the job for the reason recorded last, whatever its handler would do. */
  lemma ExhaustedIsFailed(c: Claim, o: Outcome, cause: CancelCause, w: World)
    requires !c.charged
    ensures var sent := SentOn(c, o, cause, w);
            sent != [] && sent[0] == Fail(if c.lastFailure == "" then "UNCLASSIFIED" else c.lastFailure)
  {
  }

  /** After a failing verdict comes a busy return, exactly when the verdict was refused for the advisory lock. */
  lemma FailIsSentOnce(c: Claim, o: Outcome, cause: CancelCause, w: World)
    requires SentOn(c, o, cause, w) != [] && SentOn(c, o, cause, w)[0].Fail?
    ensures var sent := SentOn(c, o, cause, w);
            if w.reply(sent[0]).LockHeld? then sent[1..] == [Release(30 * SECOND)] else sent[1..] == []
  {
  }

  /** Of the transitions one claim sends, at most one can have been applied: a second follows only a refusal. */
  lemma AtMostOneCanApply(c: Claim, o: Outcome, cause: CancelCause, w: World)
    ensures var sent := SentFor(Verdict(c, o, cause, w), w);
            |sent| <= 1 ||
            (|sent| == 2 && sent[0].Fail? && w.reply(sent[0]) == LockHeld && sent[1] == Release(BUSY_DELAY))
  {
  }
}
