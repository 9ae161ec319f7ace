/**
 * Worker pools sharing one gate, as a state machine over every interleaving of their steps. A pool has one claimer,
 * which reserves slots before it claims jobs, and lanes that run them. A two-phase handler gives its slot back while
 * it prepares and takes one again before its transaction opens.
 */
module LaneProtocol {
  import opened Sums
  import Sets
  import Gate

  datatype Lane =
    | Idle
    | Fresh(charged: bool)       // handed a job, slot held, no transaction
    | Preparing                  // preparing without a slot
    | Checking(channel: nat)     // took a wake-up channel, about to try for a slot
    | Parked(channel: nat)       // waiting on that channel
    | Prepared                   // slot held again
    | InTransaction
    | Settling                   // recording the verdict
    | Leaving                    // no longer counted in flight, slot not yet returned

  /** A claimer holds what it reserved, then a slot for each job it still has to hand off or give back. */
  datatype Claimer = Looking | Reserved(n: nat) | Handing(jobs: nat) | Returning(jobs: nat)

  datatype Pool = Pool(twoPhase: bool, claimer: Claimer, lanes: seq<Lane>)
  datatype State = State(gate: Gate.State, pools: seq<Pool>)

  datatype Move =
    | FailExhausted | OpenTransaction | BeginPrepare | EndPrepare | TryForSlot | WakeUp | PrepareFailed
    | CloseTransaction | LeaveFlight | ReturnSlot

  datatype Action =
    | Reserve(pool: nat, ask: nat)      // for no more than the lanes free, by a count that may be an older one
    | ClaimReturns(pool: nat, jobs: nat)
    | HandOff(pool: nat, lane: nat, charged: bool)
    | StopHanding(pool: nat)
    | GiveBack(pool: nat)
    | Move(pool: nat, lane: nat, move: Move)

  // ---- slots, flight, and how far a holder is from giving its slot back ----

  function LaneSlots(l: Lane): int {
    if l.Fresh? || l.Prepared? || l.InTransaction? || l.Settling? || l.Leaving? then 1 else 0
  }

  function ClaimerSlots(c: Claimer): int {
    match c
    case Looking => 0
    case Reserved(n) => n
    case Handing(k) => k
    case Returning(k) => k
  }

  /** inFlight counts a lane from hand-off until its handler has settled. */
  function InFlight(l: Lane): int { if l.Idle? || l.Leaving? then 0 else 1 }

  function LaneDebt(l: Lane): int {
    match l
    case Fresh(_) => 5
    case Prepared => 4
    case InTransaction => 3
    case Settling => 2
    case Leaving => 1
    case _ => 0
  }

  function ClaimerDebt(c: Claimer): int {
    match c
    case Looking => 0
    case Reserved(n) => 8 * n
    case Handing(k) => 7 * k
    case Returning(k) => k
  }

  function OpenIn(l: Lane): int { if l.InTransaction? then 1 else 0 }

  function PoolSlots(p: Pool): int { ClaimerSlots(p.claimer) + Sum(p.lanes, LaneSlots) }
  function PoolDebt(p: Pool): int { ClaimerDebt(p.claimer) + Sum(p.lanes, LaneDebt) }
  function PoolOpen(p: Pool): int { |OpenLanes(p.lanes)| }
  function Flying(p: Pool): int { Sum(p.lanes, InFlight) }

  function Held(s: State): int { Sum(s.pools, PoolSlots) }
  function Debt(s: State): int { Sum(s.pools, PoolDebt) }
  function OpenTransactions(s: State): int { Sum(s.pools, PoolOpen) }

  // ---- steps ----

  predicate MoveEnabled(twoPhase: bool, l: Lane, m: Move, g: Gate.State) {
    match m
    case FailExhausted => l == Fresh(false)
    case OpenTransaction => (l == Fresh(true) && !twoPhase) || l.Prepared?
    case BeginPrepare => l == Fresh(true) && twoPhase
    case EndPrepare => l.Preparing?
    case TryForSlot => l.Checking?
    case WakeUp => l.Parked? && g.Closed(l.channel)
    case PrepareFailed => l.Prepared?
    case CloseTransaction => l.InTransaction?
    case LeaveFlight => l.Settling?
    case ReturnSlot => l.Leaving?
  }

  function MoveLane(l: Lane, m: Move, g: Gate.State): Lane {
    match m
    case FailExhausted => Settling
    case OpenTransaction => InTransaction
    case BeginPrepare => Preparing
    case EndPrepare => Checking(g.epoch)
    case TryForSlot => if g.Granted(1) == 1 then Prepared else if l.Checking? then Parked(l.channel) else l
    case WakeUp => Checking(g.epoch)
    case PrepareFailed => Settling
    case CloseTransaction => Settling
    case LeaveFlight => Leaving
    case ReturnSlot => Idle
  }

  function MoveGate(m: Move, g: Gate.State): Gate.State {
    match m
    case BeginPrepare => g.Released(1)
    case ReturnSlot => g.Released(1)
    case TryForSlot => g.Reserved(1)
    case _ => g
  }

  predicate Enabled(s: State, a: Action) {
    && a.pool < |s.pools|
    && var p := s.pools[a.pool];
    && match a
       case Reserve(_, ask) => p.claimer.Looking? && 1 <= ask <= |p.lanes| - Flying(p)
       case ClaimReturns(_, jobs) => p.claimer.Reserved? && jobs <= p.claimer.n
       case HandOff(_, lane, _) => p.claimer.Handing? && p.claimer.jobs > 0 && lane < |p.lanes| && p.lanes[lane].Idle?
       case StopHanding(_) => p.claimer.Handing?
       case GiveBack(_) => p.claimer.Returning? && p.claimer.jobs > 0
       case Move(_, lane, m) => lane < |p.lanes| && MoveEnabled(p.twoPhase, p.lanes[lane], m, s.gate)
  }

  function Handed(jobs: nat): Claimer { if jobs == 0 then Looking else Handing(jobs) }
  function ToReturn(jobs: nat): Claimer { if jobs == 0 then Looking else Returning(jobs) }

  function NextPool(s: State, a: Action): Pool
    requires Enabled(s, a)
  {
    var p := s.pools[a.pool];
    match a
    case Reserve(_, ask) =>
      var got := s.gate.Granted(ask);
      if got > 0 then p.(claimer := Reserved(got)) else p
    case ClaimReturns(_, jobs) => p.(claimer := Handed(jobs))
    case HandOff(_, lane, charged) =>
      p.(claimer := Handed(p.claimer.jobs - 1), lanes := p.lanes[lane := Fresh(charged)])
    case StopHanding(_) => p.(claimer := ToReturn(p.claimer.jobs))
    case GiveBack(_) => p.(claimer := ToReturn(p.claimer.jobs - 1))
    case Move(_, lane, m) => p.(lanes := p.lanes[lane := MoveLane(p.lanes[lane], m, s.gate)])
  }

  function NextGate(s: State, a: Action): Gate.State
    requires Enabled(s, a)
  {
    var p := s.pools[a.pool];
    match a
    case Reserve(_, ask) => s.gate.Reserved(ask)
    case ClaimReturns(_, jobs) => s.gate.Released(p.claimer.n - jobs)
    case HandOff(_, _, _) => s.gate
    case StopHanding(_) => s.gate
    case GiveBack(_) => s.gate.Released(1)
    case Move(_, lane, m) => MoveGate(m, s.gate)
  }

  function Next(s: State, a: Action): State
    requires Enabled(s, a)
  {
    State(NextGate(s, a), s.pools[a.pool := NextPool(s, a)])
  }

  /** The slots a step hands to the gate. */
  function Returned(s: State, a: Action): int
    requires Enabled(s, a)
  {
    match a
    case ClaimReturns(_, jobs) => s.pools[a.pool].claimer.n - jobs
    case GiveBack(_) => 1
    case Move(_, _, m) => if m.BeginPrepare? || m.ReturnSlot? then 1 else 0
    case _ => 0
  }

  // ---- the invariant ----

  ghost predicate LaneOk(l: Lane, g: Gate.State) {
    && (l.Checking? || l.Parked? ==> l.channel <= g.epoch)
    && (l.Parked? && !g.Closed(l.channel) ==> g.free == 0)
  }

  ghost predicate PoolOk(p: Pool, g: Gate.State) {
    && Flying(p) + ClaimerSlots(p.claimer) <= |p.lanes|
    && (p.claimer != Looking ==> ClaimerSlots(p.claimer) > 0)
    && forall i :: 0 <= i < |p.lanes| ==> LaneOk(p.lanes[i], g)
  }

  ghost predicate Inv(s: State) {
    && s.gate.Valid()
    && s.gate.free + Held(s) == s.gate.total
    && forall i :: 0 <= i < |s.pools| ==> PoolOk(s.pools[i], s.gate)
  }

  ghost predicate Start(s: State) {
    s.gate.Valid() && s.gate.free == s.gate.total && Drained(s.pools)
  }

  ghost predicate Quiet(lanes: seq<Lane>) { forall i :: 0 <= i < |lanes| ==> lanes[i] == Idle }

  ghost predicate Drained(pools: seq<Pool>) {
    forall i :: 0 <= i < |pools| ==> pools[i].claimer == Looking && Quiet(pools[i].lanes)
  }

  lemma {:induction false} AllIdle(lanes: seq<Lane>)
    requires Quiet(lanes)
    ensures Sum(lanes, LaneSlots) == 0 && Sum(lanes, InFlight) == 0
  {
    if lanes != [] {
      AllIdle(lanes[1..]);
    }
  }

  lemma {:induction false} NothingHeld(pools: seq<Pool>)
    requires Drained(pools)
    ensures Sum(pools, PoolSlots) == 0
  {
    if pools != [] {
      AllIdle(pools[0].lanes);
      NothingHeld(pools[1..]);
    }
  }

  lemma StartIsInv(s: State)
    requires Start(s)
    ensures Inv(s)
  {
    NothingHeld(s.pools);
    forall i | 0 <= i < |s.pools| ensures PoolOk(s.pools[i], s.gate) {
      AllIdle(s.pools[i].lanes);
    }
  }

  /** What an agent holds changes by exactly what it takes from or gives to the gate. */
  lemma StepMovesSlots(s: State, a: Action)
    requires Enabled(s, a) && s.gate.Valid()
    ensures PoolSlots(NextPool(s, a)) ==
            PoolSlots(s.pools[a.pool]) - Returned(s, a) +
            (if a.Reserve? || (a.Move? && a.move.TryForSlot?) then s.gate.free - NextGate(s, a).free else 0)
  {
    var p := s.pools[a.pool];
    if a.HandOff? {
      SumReplace(p.lanes, a.lane, Fresh(a.charged), LaneSlots);
    } else if a.Move? {
      SumReplace(p.lanes, a.lane, MoveLane(p.lanes[a.lane], a.move, s.gate), LaneSlots);
    }
  }

  /** A pool never holds more slots than the gate has out, so a return is never cut off at the gate's capacity. */
  lemma PoolWithinGate(s: State, i: nat)
    requires Inv(s) && i < |s.pools|
    ensures 0 <= PoolSlots(s.pools[i]) <= s.gate.total - s.gate.free
  {
    forall k | 0 <= k < |s.pools| ensures PoolSlots(s.pools[k]) >= 0 {
      SumNonNegative(s.pools[k].lanes, LaneSlots);
    }
    SumNonNegative(s.pools, PoolSlots);
  }

  lemma ReturnIsNeverCut(s: State, a: Action)
    requires Inv(s) && Enabled(s, a)
    ensures s.gate.free + Returned(s, a) <= s.gate.total
  {
    PoolWithinGate(s, a.pool);
    var p := s.pools[a.pool];
    SumNonNegative(p.lanes, LaneSlots);
  }

  lemma GateMoves(s: State, a: Action)
    requires Inv(s) && Enabled(s, a)
    ensures NextGate(s, a).Valid() && NextGate(s, a).total == s.gate.total && s.gate.epoch <= NextGate(s, a).epoch
    ensures NextGate(s, a).free > s.gate.free ==> NextGate(s, a).epoch > s.gate.epoch
    ensures !(a.Reserve? || (a.Move? && a.move.TryForSlot?)) ==> NextGate(s, a).free == s.gate.free + Returned(s, a)
    ensures a.Reserve? || (a.Move? && a.move.TryForSlot?) ==> NextGate(s, a).free <= s.gate.free
  {
    ReturnIsNeverCut(s, a);
  }

  lemma LanesStayOk(p: Pool, g: Gate.State, g': Gate.State)
    requires forall i :: 0 <= i < |p.lanes| ==> LaneOk(p.lanes[i], g)
    requires 0 <= g'.free && g.epoch <= g'.epoch && (g'.free > g.free ==> g'.epoch > g.epoch)
    ensures forall i :: 0 <= i < |p.lanes| ==> LaneOk(p.lanes[i], g')
  {
  }

  lemma ActorStaysOk(s: State, a: Action)
    requires Inv(s) && Enabled(s, a)
    ensures PoolOk(NextPool(s, a), NextGate(s, a))
  {
    var p := s.pools[a.pool];
    GateMoves(s, a);
    LanesStayOk(p, s.gate, NextGate(s, a));
    if a.HandOff? {
      SumReplace(p.lanes, a.lane, Fresh(a.charged), InFlight);
    } else if a.Move? {
      SumReplace(p.lanes, a.lane, MoveLane(p.lanes[a.lane], a.move, s.gate), InFlight);
    }
  }

  /** Every step keeps the slots in the gate and the slots held adding up to the capacity, and no wake-up is lost. */
  lemma StepKeepsInv(s: State, a: Action)
    requires Inv(s) && Enabled(s, a)
    ensures Inv(Next(s, a))
  {
    var s' := Next(s, a);
    GateMoves(s, a);
    StepMovesSlots(s, a);
    SumReplace(s.pools, a.pool, NextPool(s, a), PoolSlots);
    ActorStaysOk(s, a);
    forall i | 0 <= i < |s'.pools| ensures PoolOk(s'.pools[i], s'.gate) {
      if i != a.pool {
        LanesStayOk(s.pools[i], s.gate, s'.gate);
      }
    }
  }

  // ---- runs ----

  ghost predicate Run(s: State, actions: seq<Action>, t: State)
    decreases |actions|
  {
    if actions == [] then s == t
    else Enabled(s, actions[0]) && Run(Next(s, actions[0]), actions[1..], t)
  }

  lemma {:induction false} RunKeepsInv(s: State, actions: seq<Action>, t: State)
    requires Inv(s) && Run(s, actions, t)
    ensures Inv(t)
    decreases |actions|
  {
    if actions != [] {
      StepKeepsInv(s, actions[0]);
      RunKeepsInv(Next(s, actions[0]), actions[1..], t);
    }
  }

  function OpenLanes(lanes: seq<Lane>): set<int> { set l | 0 <= l < |lanes| && lanes[l].InTransaction? }

  /** The lanes in a transaction, counted one by one. */
  lemma {:induction false} OpenAreCounted(lanes: seq<Lane>)
    ensures |OpenLanes(lanes)| == Sum(lanes, OpenIn)
    decreases |lanes|
  {
    if lanes == [] {
      assert OpenLanes(lanes) == {};
    } else {
      var open, rest := OpenLanes(lanes), OpenLanes(lanes[1..]);
      OpenAreCounted(lanes[1..]);
      forall l | l in open - {0} ensures exists m :: m in rest && m + 1 == l {
        assert lanes[1..][l - 1] == lanes[l];
        assert l - 1 in rest;
      }
      Sets.ImageSize(rest, open - {0}, l => l + 1);
      assert 0 in open ==> open == open - {0} + {0};
      assert 0 !in open ==> open == open - {0};
    }
  }

  /** In every reachable state the slots out are exactly those held, and open transactions never exceed the capacity. */
  lemma ReachableIsBounded(s: State, actions: seq<Action>, t: State)
    requires Start(s) && Run(s, actions, t)
    ensures t.gate.total - t.gate.free == Held(t)
    ensures 0 <= OpenTransactions(t) <= t.gate.total
    ensures forall i :: 0 <= i < |t.pools| ==>
              PoolOpen(t.pools[i]) == |set l | 0 <= l < |t.pools[i].lanes| && t.pools[i].lanes[l].InTransaction?|
  {
    StartIsInv(s);
    RunKeepsInv(s, actions, t);
    forall i | 0 <= i < |t.pools| ensures 0 <= PoolOpen(t.pools[i]) <= PoolSlots(t.pools[i]) {
      OpenAreCounted(t.pools[i].lanes);
      SumAtMost(t.pools[i].lanes, OpenIn, LaneSlots);
    }
    SumNonNegative(t.pools, PoolOpen);
    SumAtMost(t.pools, PoolOpen, PoolSlots);
  }

  /** When every pool has drained, every slot is back: none was lost and none returned twice. */
  lemma DrainedGateIsFull(s: State, actions: seq<Action>, t: State)
    requires Start(s) && Run(s, actions, t)
    requires Drained(t.pools)
    ensures t.gate.free == t.gate.total
  {
    ReachableIsBounded(s, actions, t);
    NothingHeld(t.pools);
  }

  // ---- no deadlock over slots ----

  /** Steps of an agent that holds a slot; none of them waits for one. */
  ghost predicate HolderStep(s: State, a: Action) {
    && Enabled(s, a)
    && match a
       case Reserve(_, _) => false
       case ClaimReturns(_, _) => true
       case HandOff(_, _, _) => true
       case StopHanding(_) => true
       case GiveBack(_) => true
       case Move(_, lane, _) => LaneSlots(s.pools[a.pool].lanes[lane]) == 1
  }

  /** Every step of a slot holder either puts a slot back or brings one nearer to being put back. */
  lemma HolderStepPaysDebt(s: State, a: Action)
    requires Inv(s) && HolderStep(s, a)
    ensures Next(s, a).gate.free > s.gate.free || Debt(Next(s, a)) < Debt(s)
    ensures Next(s, a).gate.free == s.gate.free + Returned(s, a)
  {
    var p := s.pools[a.pool];
    GateMoves(s, a);
    SumReplace(s.pools, a.pool, NextPool(s, a), PoolDebt);
    if a.HandOff? {
      SumReplace(p.lanes, a.lane, Fresh(a.charged), LaneDebt);
    } else if a.Move? {
      SumReplace(p.lanes, a.lane, MoveLane(p.lanes[a.lane], a.move, s.gate), LaneDebt);
    }
  }

  /** A lane that holds a slot can always move. */
  lemma HoldingLaneMoves(p: Pool, i: nat, g: Gate.State) returns (m: Move)
    requires i < |p.lanes| && LaneSlots(p.lanes[i]) == 1
    ensures MoveEnabled(p.twoPhase, p.lanes[i], m, g)
  {
    match p.lanes[i] {
      case Fresh(charged) => m := if !charged then FailExhausted else if p.twoPhase then BeginPrepare else OpenTransaction;
      case Prepared => m := OpenTransaction;
      case InTransaction => m := CloseTransaction;
      case Settling => m := LeaveFlight;
      case Leaving => m := ReturnSlot;
      case _ => assert false;
    }
  }

  /** A claimer with jobs in hand finds an idle lane, or one that is on its way out. */
  lemma {:induction false} LaneForHandOff(lanes: seq<Lane>) returns (i: nat)
    requires Sum(lanes, InFlight) < |lanes|
    ensures i < |lanes| && (lanes[i].Idle? || lanes[i].Leaving?)
  {
    if lanes[0].Idle? || lanes[0].Leaving? {
      i := 0;
    } else {
      var j := LaneForHandOff(lanes[1..]);
      i := j + 1;
    }
  }

  /** While no slot is free, some agent that holds one can step, so nobody waits for a slot in vain. */
  lemma HolderCanStep(s: State) returns (a: Action)
    requires Inv(s) && s.gate.free == 0
    ensures HolderStep(s, a)
    ensures Next(s, a).gate.free > 0 || Debt(Next(s, a)) < Debt(s)
  {
    var i := SumPositive(s.pools, PoolSlots);
    var p := s.pools[i];
    assert PoolOk(p, s.gate);
    if ClaimerSlots(p.claimer) > 0 {
      match p.claimer {
        case Reserved(n) => a := ClaimReturns(i, 0);
        case Returning(k) => a := GiveBack(i);
        case Handing(k) =>
          var l := LaneForHandOff(p.lanes);
          a := if p.lanes[l].Idle? then HandOff(i, l, true) else Move(i, l, ReturnSlot);
        case Looking => assert false;
      }
    } else {
      var l := SumPositive(p.lanes, LaneSlots);
      var m := HoldingLaneMoves(p, l, s.gate);
      a := Move(i, l, m);
    }
    HolderStepPaysDebt(s, a);
  }

  lemma DebtIsNonNegative(s: State)
    ensures Debt(s) >= 0
  {
    forall i | 0 <= i < |s.pools| ensures PoolDebt(s.pools[i]) >= 0 {
      SumNonNegative(s.pools[i].lanes, LaneDebt);
    }
    SumNonNegative(s.pools, PoolDebt);
  }

  /** While no slot is free, the steps of agents that hold none leave gate and debt as they are. */
  lemma OthersWaitWithoutDebt(s: State, a: Action)
    requires Inv(s) && s.gate.free == 0 && Enabled(s, a) && !HolderStep(s, a)
    ensures Next(s, a).gate.free == 0 && Debt(Next(s, a)) == Debt(s)
  {
    var p := s.pools[a.pool];
    SumReplace(s.pools, a.pool, NextPool(s, a), PoolDebt);
    if a.Move? {
      SumReplace(p.lanes, a.lane, MoveLane(p.lanes[a.lane], a.move, s.gate), LaneDebt);
    }
  }

  /** How many of a run's steps are steps of slot holders. */
  ghost function HolderSteps(s: State, actions: seq<Action>): nat
    decreases |actions|
  {
    if actions == [] || !Enabled(s, actions[0]) then 0
    else (if HolderStep(s, actions[0]) then 1 else 0) + HolderSteps(Next(s, actions[0]), actions[1..])
  }

  /**
   * Whatever else is interleaved, no run takes more holder steps than the debt it starts with before a slot is free:
   * any run with more of them passes a state with a free slot.
   */
  lemma {:induction false} HoldersFreeASlot(s: State, actions: seq<Action>, t: State) returns (k: nat, u: State)
    requires Inv(s) && Run(s, actions, t) && HolderSteps(s, actions) > Debt(s)
    ensures k <= |actions| && Run(s, actions[..k], u) && u.gate.free > 0
    decreases |actions|
  {
    DebtIsNonNegative(s);
    if s.gate.free > 0 {
      return 0, s;
    }
    var a := actions[0];
    StepKeepsInv(s, a);
    if Next(s, a).gate.free > 0 {
      k, u := 1, Next(s, a);
      assert actions[..1][1..] == [];
    } else {
      if HolderStep(s, a) {
        HolderStepPaysDebt(s, a);
      } else {
        OthersWaitWithoutDebt(s, a);
      }
      var j;
      j, u := HoldersFreeASlot(Next(s, a), actions[1..], t);
      k := j + 1;
      assert actions[..k][1..] == actions[1..][..j];
    }
  }

  /** A run in which slot holders alone step. */
  ghost predicate HolderRun(s: State, actions: seq<Action>, t: State)
    decreases |actions|
  {
    if actions == [] then s == t
    else HolderStep(s, actions[0]) && HolderRun(Next(s, actions[0]), actions[1..], t)
  }

  /** From every reachable state there is such a run to a free slot, of bounded length: nobody else has to move. */
  lemma {:induction false} ASlotComesFree(s: State) returns (actions: seq<Action>, t: State)
    requires Inv(s)
    ensures HolderRun(s, actions, t) && t.gate.free > 0 && |actions| <= Debt(s) + 1
    decreases Debt(s) + (if s.gate.free == 0 then 1 else 0)
  {
    DebtIsNonNegative(s);
    if s.gate.free > 0 {
      return [], s;
    }
    var a := HolderCanStep(s);
    StepKeepsInv(s, a);
    var u := Next(s, a);
    if u.gate.free > 0 {
      actions, t := [a], u;
      assert actions[1..] == [];
      assert HolderRun(u, [], u);
    } else {
      var rest;
      rest, t := ASlotComesFree(u);
      actions := [a] + rest;
      assert actions[1..] == rest;
    }
  }

  /** A lane parked for a slot is woken as soon as one is free. */
  lemma ParkedLaneWakes(s: State, i: nat, l: nat)
    requires Inv(s) && s.gate.free > 0 && i < |s.pools| && l < |s.pools[i].lanes| && s.pools[i].lanes[l].Parked?
    ensures Enabled(s, Move(i, l, WakeUp))
  {
    assert PoolOk(s.pools[i], s.gate);
    assert LaneOk(s.pools[i].lanes[l], s.gate);
  }
}
