/**
 The readiness monitor of the Nordic NVMC flash controller.

 The hardware is not simulated: the values that successive reads of the
 READY register return are an injected sequence of observations. The
 driver polls bit 0 of READY at most `MaxPolls` times, sleeping between
 reads (the sleep is not modelled), and fails hard when the bit never
 comes up.
 */
module Ready {

  /** Reads of READY the driver makes before it gives up. */
  const MaxPolls: nat := 5

  /** The value returned by the i-th READY read. A read past the end of the
      observations sees a controller that is not ready. */
  function ReadAt(obs: seq<nat>, i: nat): nat
  {
    if i < |obs| then obs[i] else 0
  }

  /** Bit 0 of a READY value: `v & 1` of a non-negative register value. */
  predicate IsReady(v: nat)
  {
    v % 2 == 1
  }

  /** The observations left once the first n reads have been made. */
  function Drop(obs: seq<nat>, n: nat): (rest: seq<nat>)
    ensures forall i: nat :: ReadAt(rest, i) == ReadAt(obs, n + i)
  {
    if n <= |obs| then obs[n..] else []
  }

  /** Result of one ready-wait: ready after `polls` reads, or out of attempts. */
  datatype Wait = Ready(polls: nat) | TimedOut
  {
    /** READY reads the wait made: a timeout always uses the whole budget. */
    function Polls(): nat
    {
      match this
      case Ready(k) => k
      case TimedOut => MaxPolls
    }
  }

  /** The poll loop from attempt i onwards (attempts 0 .. i-1 saw bit 0 clear). */
  function Poll(obs: seq<nat>, i: nat): (w: Wait)
    requires i <= MaxPolls
    ensures w.Ready? ==>
              && i < w.polls <= MaxPolls
              && IsReady(ReadAt(obs, w.polls - 1))
              && forall j: nat :: i <= j < w.polls - 1 ==> !IsReady(ReadAt(obs, j))
    ensures w.TimedOut? <==> forall j: nat :: i <= j < MaxPolls ==> !IsReady(ReadAt(obs, j))
    decreases MaxPolls - i
  {
    if i == MaxPolls then TimedOut
    else if IsReady(ReadAt(obs, i)) then Ready(i + 1)
    else Poll(obs, i + 1)
  }

  /** `__wait4ready`: succeeds on the first of at most `MaxPolls` reads whose
      bit 0 is set, and times out when none of them has it set. */
  function Wait4Ready(obs: seq<nat>): (w: Wait)
    ensures w.Ready? ==>
              && 1 <= w.polls <= MaxPolls
              && IsReady(ReadAt(obs, w.polls - 1))
              && forall j: nat :: j < w.polls - 1 ==> !IsReady(ReadAt(obs, j))
    ensures w.TimedOut? <==> forall j: nat :: j < MaxPolls ==> !IsReady(ReadAt(obs, j))
    ensures 1 <= w.Polls() <= MaxPolls
  {
    Poll(obs, 0)
  }

  /** A controller that is ready on the first read is waited on with one read. */
  lemma ReadyAtOnce(obs: seq<nat>)
    requires IsReady(ReadAt(obs, 0))
    ensures Wait4Ready(obs) == Ready(1)
  {
  }

  /** The outcome of a wait depends only on the first `MaxPolls` reads. */
  lemma WaitSeesOnlyBudget(obs: seq<nat>, obs': seq<nat>)
    requires forall j: nat :: j < MaxPolls ==> ReadAt(obs, j) == ReadAt(obs', j)
    ensures Wait4Ready(obs) == Wait4Ready(obs')
  {
  }
}
