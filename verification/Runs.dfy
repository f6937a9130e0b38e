/** Runs of a step machine: `next` gives the state after one step, or nothing if the step cannot be taken. */
module Runs {
  import opened Options

  /** The state after all of `steps`, or nothing if they cannot all be taken one after another. */
  function Go<S, T>(next: (S, T) -> Option<S>, s: S, steps: seq<T>): Option<S>
    decreases |steps|
  {
    if steps == [] then Some(s)
    else
      match next(s, steps[0])
      case None => None
      case Some(t) => Go(next, t, steps[1..])
  }

  lemma GoCons<S, T>(next: (S, T) -> Option<S>, s: S, step: T, rest: seq<T>)
    ensures Go(next, s, [step] + rest)
            == match next(s, step) { case None => None case Some(t) => Go(next, t, rest) }
  {
    assert ([step] + rest)[1..] == rest;
  }

  lemma {:induction false} GoOn<S, T>(next: (S, T) -> Option<S>, s: S, first: seq<T>, second: seq<T>)
    ensures Go(next, s, first + second)
            == match Go(next, s, first) { case None => None case Some(t) => Go(next, t, second) }
    decreases |first|
  {
    if first == [] {
      assert first + second == second;
    } else {
      assert (first + second)[1..] == first[1..] + second;
      match next(s, first[0])
      case None =>
      case Some(t) => GoOn(next, t, first[1..], second);
    }
  }
}
