// The bookkeeping of the Markov-chain base class: a decorator that counts
// every call of the wrapped proposal test and every call that accepted.
// The counters are attributes of the base class itself, so one object of
// this class stands for that shared class-level state.

module Mcmc {
  import opened Common

  class MarkovChainMonteCarlo {
    var proposalCount: int
    var proposalsAccepted: int

    ghost predicate Valid()
      reads this
    {
      0 <= proposalsAccepted <= proposalCount
    }

    /** The class attributes start at zero. */
    constructor ()
      ensures Valid() && proposalCount == 0 && proposalsAccepted == 0
    {
      proposalCount := 0;
      proposalsAccepted := 0;
    }

    /** One call through the `proposal_efficiency` wrapper whose wrapped
        function produced `outcome` (a value, or the exception it raised).
        The call is counted first; it is counted as accepted only when it
        returned a true value; the outcome is passed on unchanged. */
    method CountedCall(outcome: Result<bool>) returns (r: Result<bool>)
      requires Valid()
      modifies this
      ensures Valid()
      ensures r == outcome
      ensures proposalCount == old(proposalCount) + 1
      ensures proposalsAccepted == old(proposalsAccepted) + (if outcome == Ok(true) then 1 else 0)
    {
      proposalCount := proposalCount + 1;
      r := outcome;
      if outcome == Ok(true) {
        proposalsAccepted := proposalsAccepted + 1;
      }
    }
  }

  /** The logging step the rewiring loop evidently means to take at every
      multiple of 50 accepted swaps once some proposal was counted: append
      the share of the counted proposals that were accepted, read from the
      counters the decorator actually updates. The log is otherwise left
      as it is; the appended ratio is a share, positive exactly when some
      proposal was accepted and 1 exactly when all of them were. */
  function LogRatio(ratios: seq<real>, swaps: int, counters: MarkovChainMonteCarlo): (r: seq<real>)
    reads counters
    requires counters.Valid()
    ensures |r| == |ratios| + (if swaps % 50 == 0 && counters.proposalCount != 0 then 1 else 0)
    ensures r[..|ratios|] == ratios
    ensures |r| > |ratios| ==>
      && 0.0 <= r[|ratios|] <= 1.0
      && r[|ratios|] * counters.proposalCount as real == counters.proposalsAccepted as real
      && (r[|ratios|] > 0.0 <==> counters.proposalsAccepted > 0)
      && (r[|ratios|] == 1.0 <==> counters.proposalsAccepted == counters.proposalCount)
  {
    if swaps % 50 == 0 && counters.proposalCount != 0 then
      ratios + [counters.proposalsAccepted as real / counters.proposalCount as real]
    else
      ratios
  }
}
