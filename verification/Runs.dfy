/** Runs of a state machine whose steps are events: an event is possible when `enabled`, and
    `step` gives the state it leads to. */
module Runs {

  ghost predicate Legal<S, E>(enabled: (S, E) -> bool, step: (S, E) -> S, s: S, es: seq<E>)
    decreases |es|
  {
    es == [] || (enabled(s, es[0]) && Legal(enabled, step, step(s, es[0]), es[1..]))
  }

  ghost function After<S, E>(step: (S, E) -> S, s: S, es: seq<E>): S
    decreases |es|
  {
    if es == [] then s else After(step, step(s, es[0]), es[1..])
  }

  /** What every enabled step keeps holds after every legal run. */
  lemma {:induction false} Keeps<S(!new), E(!new)>(inv: S -> bool, enabled: (S, E) -> bool, step: (S, E) -> S,
                                                   s: S, es: seq<E>)
    requires inv(s)
    requires forall s, e :: inv(s) && enabled(s, e) ==> inv(step(s, e))
    requires Legal(enabled, step, s, es)
    ensures inv(After(step, s, es))
    decreases |es|
  {
    if es != [] {
      Keeps(inv, enabled, step, step(s, es[0]), es[1..]);
    }
  }

  /** A run can be continued by any event then possible. */
  lemma {:induction false} Continue<S, E>(enabled: (S, E) -> bool, step: (S, E) -> S, s: S, es: seq<E>, e: E)
    requires Legal(enabled, step, s, es) && enabled(After(step, s, es), e)
    ensures Legal(enabled, step, s, es + [e])
    ensures After(step, s, es + [e]) == step(After(step, s, es), e)
    decreases |es|
  {
    if es != [] {
      assert (es + [e])[1..] == es[1..] + [e];
      Continue(enabled, step, step(s, es[0]), es[1..], e);
    }
  }
}
