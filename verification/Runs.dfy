/** Runs of a system given by a step function: the labels of its steps, in order. */
module Runs {
  import opened Bytes

  /** The state after the steps of `run`; None when one of them could not be taken. */
  function Reached<S, L>(start: S, next: (S, L) -> Option<S>, run: seq<L>): Option<S> {
    if run == [] then Some(start)
    else
      match Reached(start, next, run[..|run| - 1])
      case None => None
      case Some(s) => next(s, run[|run| - 1])
  }

  /** A prefix of a run is a run, and each step leads from one prefix to the next. */
  lemma {:induction false} PrefixReached<S, L>(start: S, next: (S, L) -> Option<S>, run: seq<L>, k: nat)
    requires Reached(start, next, run).Some? && k <= |run|
    ensures Reached(start, next, run[..k]).Some?
    ensures k < |run| ==>
      && Reached(start, next, run[..k + 1]).Some?
      && Reached(start, next, run[..k + 1]) == next(Reached(start, next, run[..k]).value, run[k])
    decreases |run|
  {
    if k == |run| {
      assert run[..k] == run;
    } else if k == |run| - 1 {
      assert run[..k + 1] == run;
    } else {
      var last := run[..|run| - 1];
      PrefixReached(start, next, last, k);
      assert last[..k] == run[..k] && last[..k + 1] == run[..k + 1];
    }
  }

  lemma ReachedNext<S, L>(start: S, next: (S, L) -> Option<S>, run: seq<L>, l: L)
    requires Reached(start, next, run).Some?
    ensures Reached(start, next, run + [l]) == next(Reached(start, next, run).value, l)
  {
    assert (run + [l])[..|run|] == run;
  }
}
