/**
 * Concurrent handlers admitting the members of messages. A new member's stub stays uncommitted, and held, until its
 * handler commits, and any other handler that admits the same bytes waits for it.
 */
module Admission {
  import opened Sums
  import StableSort

  /** Content hashes, in their order. */
  type Hash = int

  datatype Child = Child(size: nat, sum: Hash, selector: string)

  // ---- admissionOrder ----

  const BY_HASH: Child -> real := (c: Child) => c.sum as real

  function NonEmpty(children: seq<Child>): (r: seq<Child>)
    decreases |children|
  {
    if children == [] then []
    else
      var n := |children| - 1;
      NonEmpty(children[..n]) + (if children[n].size == 0 then [] else [children[n]])
  }

  function Ordered(children: seq<Child>): (r: seq<Child>) { StableSort.Sort(NonEmpty(children), BY_HASH) }

  method AdmissionOrder(children: seq<Child>) returns (out: seq<Child>)
    ensures out == Ordered(children)
  {
    out := [];
    for i := 0 to |children|
      invariant out == NonEmpty(children[..i])
    {
      assert children[..i + 1][..i] == children[..i];
      if children[i].size == 0 {
        continue;
      }
      out := out + [children[i]];
    }
    assert children[..|children|] == children;
    out := StableSort.Sort(out, BY_HASH);
  }

  /** The members of one hash that are not empty, as the message lists them. */
  function OfHash(children: seq<Child>, sum: Hash): (r: seq<Child>)
    decreases |children|
  {
    if children == [] then []
    else
      var n := |children| - 1;
      OfHash(children[..n], sum) + (if children[n].size > 0 && children[n].sum == sum then [children[n]] else [])
  }

  lemma {:induction false} KeptOfHash(children: seq<Child>, sum: Hash)
    ensures StableSort.WithKey(NonEmpty(children), BY_HASH, sum as real) == OfHash(children, sum)
    decreases |children|
  {
    if children != [] {
      var n := |children| - 1;
      KeptOfHash(children[..n], sum);
      var front := NonEmpty(children[..n]);
      if children[n].size > 0 {
        assert NonEmpty(children) == front + [children[n]];
        assert (front + [children[n]])[..|front|] == front;
      } else {
        assert NonEmpty(children) == front;
      }
      assert BY_HASH(children[n]) == sum as real <==> children[n].sum == sum;
    }
  }

  lemma {:induction false} KeptCounts(children: seq<Child>, c: Child)
    ensures multiset(NonEmpty(children))[c] == if c.size > 0 then multiset(children)[c] else 0
    decreases |children|
  {
    if children != [] {
      var n := |children| - 1;
      KeptCounts(children[..n], c);
      assert children == children[..n] + [children[n]];
    }
  }

  /** The order depends on the contents alone: the members that are not empty, each as often as it is listed, by hash, and
      those of one hash as the message lists them. */
  lemma OrderedByHash(children: seq<Child>, sum: Hash)
    ensures var r := Ordered(children);
            && (forall i, j :: 0 <= i < j < |r| ==> r[i].sum <= r[j].sum)
            && (forall c :: multiset(r)[c] == if c.size > 0 then multiset(children)[c] else 0)
            && StableSort.WithKey(r, BY_HASH, sum as real) == OfHash(children, sum)
  {
    KeptOfHash(children, sum);
    forall c ensures multiset(NonEmpty(children))[c] == if c.size > 0 then multiset(children)[c] else 0 {
      KeptCounts(children, c);
    }
    var kept, r := NonEmpty(children), Ordered(children);
    StableSort.SortSorts(kept, BY_HASH);
    StableSort.SortKeeps(kept, BY_HASH);
    StableSort.SortIsStable(kept, BY_HASH, sum as real);
    forall i, j | 0 <= i < j < |r|
      ensures r[i].sum <= r[j].sum
    {
      assert BY_HASH(r[i]) <= BY_HASH(r[j]);
    }
  }

  function Hashes(children: seq<Child>): (r: seq<Hash>) {
    seq(|children|, i requires 0 <= i < |children| => children[i].sum)
  }

  // ---- handlers and their transactions ----

  /** A handler admits the hashes of todo in turn and holds those it inserted until it commits or rolls back. */
  datatype Handler = Handler(todo: seq<Hash>, pos: nat, held: set<Hash>, live: bool)

  datatype State = State(committed: set<Hash>, handlers: seq<Handler>)

  datatype Action = Start(children: seq<Child>) | Admit(handler: nat) | Commit(handler: nat) | Abort(handler: nat)

  predicate Admitting(h: Handler) { h.live && h.pos < |h.todo| }

  /** The handlers i and j are different, and i is about to admit what j holds. */
  predicate Waits(s: State, i: nat, j: nat) {
    && i < |s.handlers| && j < |s.handlers| && i != j
    && Admitting(s.handlers[i]) && s.handlers[i].todo[s.handlers[i].pos] in s.handlers[j].held
  }

  predicate Waiting(s: State, i: nat) {
    exists j: nat :: j < |s.handlers| && Waits(s, i, j)
  }

  /** A live handler that waits for no one can admit its next member, or commit. */
  predicate CanStep(s: State, i: nat) { i < |s.handlers| && s.handlers[i].live && !Waiting(s, i) }

  predicate Enabled(s: State, a: Action) {
    match a
    case Start(_) => true
    case Admit(i) => CanStep(s, i) && Admitting(s.handlers[i])
    case Commit(i) => CanStep(s, i) && !Admitting(s.handlers[i])
    case Abort(i) => i < |s.handlers| && s.handlers[i].live
  }

  /** CreateStub: content that is known, or that this transaction inserted, is linked; anything else is inserted. */
  function Admitted(h: Handler, committed: set<Hash>): Handler
    requires Admitting(h)
  {
    var sum := h.todo[h.pos];
    h.(pos := h.pos + 1, held := if sum in committed then h.held else h.held + {sum})
  }

  function Ended(h: Handler): Handler { h.(held := {}, live := false) }

  function Step(s: State, a: Action): State
    requires Enabled(s, a)
  {
    match a
    case Start(children) => s.(handlers := s.handlers + [Handler(Hashes(Ordered(children)), 0, {}, true)])
    case Admit(i) => s.(handlers := s.handlers[i := Admitted(s.handlers[i], s.committed)])
    case Commit(i) =>
      State(s.committed + s.handlers[i].held, s.handlers[i := Ended(s.handlers[i])])
    case Abort(i) => s.(handlers := s.handlers[i := Ended(s.handlers[i])])
  }

  ghost predicate Run(states: seq<State>, actions: seq<Action>) {
    && |states| == |actions| + 1 && states[0] == State({}, [])
    && forall i :: 0 <= i < |actions| ==> Enabled(states[i], actions[i]) && states[i + 1] == Step(states[i], actions[i])
  }

  ghost predicate Reachable(s: State) {
    exists states, actions :: Run(states, actions) && states[|actions|] == s
  }

  // ---- what every step keeps ----

  /** A handler holds only what it has passed, and nothing once it has ended. */
  ghost predicate HandlerOk(h: Handler) {
    && h.pos <= |h.todo| && (!h.live ==> h.held == {})
    && (forall i, j :: 0 <= i < j < |h.todo| ==> h.todo[i] <= h.todo[j])
    && (forall sum :: sum in h.held ==> sum in h.todo[..h.pos])
  }

  /** No two handlers hold one hash, and none holds what is committed: content is inserted once. */
  ghost predicate Inv(s: State) {
    && (forall i :: 0 <= i < |s.handlers| ==> HandlerOk(s.handlers[i]) && s.handlers[i].held !! s.committed)
    && (forall i, j :: 0 <= i < j < |s.handlers| ==> s.handlers[i].held !! s.handlers[j].held)
  }

  lemma AdmittedOk(h: Handler, committed: set<Hash>)
    requires HandlerOk(h) && Admitting(h)
    ensures HandlerOk(Admitted(h, committed))
  {
    var after := Admitted(h, committed);
    assert h.todo[..after.pos] == h.todo[..h.pos] + [h.todo[h.pos]];
  }

  lemma AdmitKeepsInv(s: State, i: nat)
    requires Inv(s) && Enabled(s, Admit(i))
    ensures Inv(Step(s, Admit(i)))
  {
    var sum, after := s.handlers[i].todo[s.handlers[i].pos], Step(s, Admit(i));
    AdmittedOk(s.handlers[i], s.committed);
    forall j | 0 <= j < |s.handlers| && j != i
      ensures after.handlers[i].held !! after.handlers[j].held
    {
      assert !Waits(s, i, j);
      assert if i < j then s.handlers[i].held !! s.handlers[j].held else s.handlers[j].held !! s.handlers[i].held;
    }
  }

  lemma StepKeepsInv(s: State, a: Action)
    requires Inv(s) && Enabled(s, a)
    ensures Inv(Step(s, a))
  {
    match a
    case Start(children) =>
      OrderedByHash(children, 0);
    case Admit(i) =>
      AdmitKeepsInv(s, i);
    case Commit(i) =>
      var after := Step(s, a);
      forall j | 0 <= j < |s.handlers|
        ensures after.handlers[j].held !! after.committed
      {
        if j < i {
          assert s.handlers[j].held !! s.handlers[i].held;
        }
      }
    case Abort(i) =>
  }

  lemma {:induction false} RunKeepsInv(states: seq<State>, actions: seq<Action>, n: nat)
    requires Run(states, actions) && n <= |actions|
    ensures Inv(states[n])
  {
    if n > 0 {
      RunKeepsInv(states, actions, n - 1);
      StepKeepsInv(states[n - 1], actions[n - 1]);
    }
  }

  // ---- nobody waits in a circle ----

  function NextHash(h: Handler): Hash
    requires Admitting(h)
  {
    h.todo[h.pos]
  }

  /** A handler that is waited for and itself waits, waits for something greater. */
  lemma WaitsClimb(s: State, i: nat, j: nat)
    requires Inv(s) && Waits(s, i, j) && Waiting(s, j)
    ensures NextHash(s.handlers[i]) < NextHash(s.handlers[j])
  {
    var k: nat :| k < |s.handlers| && Waits(s, j, k);
    var h := s.handlers[j];
    var sum := NextHash(s.handlers[i]);
    assert sum in h.todo[..h.pos];
    var p :| 0 <= p < h.pos && h.todo[p] == sum;
    assert sum <= NextHash(h);
    assert if j < k then h.held !! s.handlers[k].held else s.handlers[k].held !! h.held;
  }

  ghost predicate WaitChain(s: State, c: seq<nat>) {
    forall k, m :: 0 <= k && m == k + 1 < |c| ==> Waits(s, c[k], c[m])
  }

  lemma {:induction false} ChainClimbs(s: State, c: seq<nat>)
    requires Inv(s) && |c| >= 2 && WaitChain(s, c) && Waiting(s, c[|c| - 1])
    ensures Waiting(s, c[0]) && NextHash(s.handlers[c[0]]) < NextHash(s.handlers[c[|c| - 1]])
    decreases |c|
  {
    var n := |c| - 1;
    assert Waits(s, c[n - 1], c[n]);
    WaitsClimb(s, c[n - 1], c[n]);
    if n > 1 {
      ChainClimbs(s, c[..n]);
    }
  }

  /** In no reachable state, with any number of handlers sharing any members, does a chain of waits close on itself. */
  lemma WaitsAreAcyclic(s: State, c: seq<nat>)
    requires Reachable(s) && |c| >= 2 && WaitChain(s, c)
    ensures c[0] != c[|c| - 1]
  {
    var states, actions :| Run(states, actions) && states[|actions|] == s;
    RunKeepsInv(states, actions, |actions|);
    if c[0] == c[|c| - 1] {
      assert Waits(s, c[0], c[1]);
      ChainClimbs(s, c);
    }
  }

  /** Of the handlers below n that wait, one whose next hash is greatest. */
  lemma {:induction false} GreatestWaiting(s: State, n: nat, some: nat) returns (m: nat)
    requires n <= |s.handlers| && some < n && Waiting(s, some)
    ensures m < n && Waiting(s, m)
    ensures forall i: nat :: i < n && Waiting(s, i) ==> NextHash(s.handlers[i]) <= NextHash(s.handlers[m])
    decreases n
  {
    var last := n - 1;
    if exists i: nat :: i < last && Waiting(s, i) {
      var i: nat :| i < last && Waiting(s, i);
      m := GreatestWaiting(s, last, i);
      if Waiting(s, last) && NextHash(s.handlers[last]) > NextHash(s.handlers[m]) {
        m := last;
      }
    } else {
      m := some;
    }
  }

  /** While any handler is live, some handler can step: admission never deadlocks. */
  lemma SomeHandlerCanStep(s: State, live: nat) returns (i: nat)
    requires Reachable(s) && live < |s.handlers| && s.handlers[live].live
    ensures CanStep(s, i)
  {
    var states, actions :| Run(states, actions) && states[|actions|] == s;
    RunKeepsInv(states, actions, |actions|);
    if !Waiting(s, live) {
      i := live;
    } else {
      var m := GreatestWaiting(s, |s.handlers|, live);
      var j: nat :| j < |s.handlers| && Waits(s, m, j);
      if Waiting(s, j) {
        WaitsClimb(s, m, j);
      }
      i := j;
    }
  }

  // ---- and every handler ends ----

  function Left(h: Handler): int { if h.live then |h.todo| - h.pos + 1 else 0 }

  /** Every step but the start of a handler leaves less to do, so without new messages all handlers end. */
  lemma StepsRunOut(s: State, a: Action)
    requires Inv(s) && Enabled(s, a) && !a.Start?
    ensures 0 <= Sum(Step(s, a).handlers, Left) < Sum(s.handlers, Left)
  {
    var i := a.handler;
    var after := Step(s, a);
    StepKeepsInv(s, a);
    SumReplace(s.handlers, i, after.handlers[i], Left);
    assert after.handlers == s.handlers[i := after.handlers[i]];
    assert forall k :: 0 <= k < |after.handlers| ==> HandlerOk(after.handlers[k]);
    SumNonNegative(after.handlers, Left);
  }

  // ---- without the order ----

  /** Two handlers that admit the same two members in opposite orders stop each other for good. */
  lemma UnorderedDeadlocks(x: Hash, y: Hash)
    requires x != y
    ensures var first, second := Handler([x, y], 0, {}, true), Handler([y, x], 0, {}, true);
            var s := State({}, [Admitted(first, {}), Admitted(second, {})]);
            Waits(s, 0, 1) && Waits(s, 1, 0) && !CanStep(s, 0) && !CanStep(s, 1)
  {
    var first, second := Handler([x, y], 0, {}, true), Handler([y, x], 0, {}, true);
    var s := State({}, [Admitted(first, {}), Admitted(second, {})]);
    assert Waits(s, 0, 1) && Waits(s, 1, 0);
  }
}
