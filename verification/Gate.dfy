/**
 * The process-wide bound on open stage transactions: a counting reservation that never blocks, and a wake-up channel
 * replaced on every release.
 */
module Gate {
  function Min(a: int, b: int): int { if a < b then a else b }

  /** The gate's value. A channel taken from Wait is the number of the epoch it belongs to; a later epoch closes it. */
  datatype State = State(free: int, total: int, epoch: nat) {
    predicate Valid() { 0 <= free <= total && total >= 1 }

    /** TryReserve's answer. */
    function Granted(n: int): int { if n < 1 then 0 else Min(Min(n, total), free) }

    function Reserved(n: int): State { this.(free := free - Granted(n)) }

    function Released(n: int): State {
      if n < 1 then this else this.(free := Min(free + n, total), epoch := epoch + 1)
    }

    predicate Closed(channel: nat) { channel < epoch }
  }

  class Gate {
    const total: int
    var free: int
    var epoch: nat

    function View(): State
      reads this
    {
      State(free, total, epoch)
    }

    constructor (size: int)
      ensures View().Valid() && View() == State(total, total, 0) && total == (if size < 1 then 1 else size)
    {
      total := if size < 1 then 1 else size;
      free := if size < 1 then 1 else size;
      epoch := 0;
    }

    method TryReserve(n: int) returns (got: int)
      requires View().Valid()
      modifies this
      ensures View().Valid() && View() == old(View()).Reserved(n)
      ensures got == old(View()).Granted(n) && 0 <= got <= old(free)
      ensures got == if n < 1 then 0 else if n <= old(free) then n else old(free)
      ensures free == old(free) - got && epoch == old(epoch)
    {
      if n < 1 {
        return 0;
      }
      got := Min(Min(n, total), free);
      free := free - got;
    }

    method Release(n: int)
      requires View().Valid()
      modifies this
      ensures View().Valid() && View() == old(View()).Released(n)
      ensures n < 1 ==> free == old(free) && epoch == old(epoch)
      ensures n >= 1 ==> free == (if old(free) + n < total then old(free) + n else total) && epoch > old(epoch)
      ensures n >= 1 ==> forall channel: nat :: channel <= old(epoch) ==> View().Closed(channel)
    {
      if n < 1 {
        return;
      }
      free := Min(free + n, total);
      epoch := epoch + 1;
    }

    method Wait() returns (channel: nat)
      ensures channel == View().epoch && !View().Closed(channel)
    {
      channel := epoch;
    }
  }

  /** What is not granted is not there: a short grant leaves nothing free, or the whole gate was asked for. */
  lemma GrantTakesWhatIsFree(g: State, n: int)
    requires g.Valid() && n >= 1
    ensures g.Granted(n) <= n && g.Reserved(n).Valid()
    ensures g.Granted(n) < n ==> g.Reserved(n).free == 0
    ensures g.Granted(n) == 0 <==> g.free == 0
  {
  }

  /** Giving back all that was taken, and only that, restores the free slots; any return closes the channels before it. */
  lemma ReleaseUndoesReserve(g: State, n: int, k: int, channel: nat)
    requires g.Valid() && 1 <= k <= g.Granted(n) && channel <= g.epoch
    ensures var after := g.Reserved(n).Released(k);
            (after.free == g.free <==> k == g.Granted(n)) && after.free <= g.free && after.Closed(channel)
  {
  }
}
