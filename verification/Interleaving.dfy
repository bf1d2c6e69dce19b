/**
  Runs of a protocol as sequences of atomic steps of its threads.  A step that its thread is not
  about to take changes nothing, so a claim about all sequences is one about all interleavings.
 */
module Interleaving {

  function Run<S, A>(step: (S, A) -> S, s: S, actions: seq<A>): S {
    if actions == [] then s else step(Run(step, s, actions[..|actions| - 1]), actions[|actions| - 1])
  }
}
