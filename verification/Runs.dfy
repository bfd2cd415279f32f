/** Runs of threads that take atomic steps in any order, and what holds in all of them. */
module Runs {
  /** The thread that goes next, and what it asks for if it is idle. */
  datatype Choice<Op> = Choice(t: nat, op: Op)

  ghost function Run<S, C>(step: (S, C) -> S, from: S, choices: seq<C>): S {
    if choices == [] then from else step(Run(step, from, choices[..|choices| - 1]), choices[|choices| - 1])
  }

  /** A property that no step takes away. */
  ghost predicate Keeps<S(!new), C(!new)>(step: (S, C) -> S, p: S -> bool) {
    forall s, c :: p(s) ==> p(step(s, c))
  }

  /** What holds at first and is kept holds after every run. */
  lemma {:induction false} Always<S(!new), C(!new)>(step: (S, C) -> S, from: S, choices: seq<C>, p: S -> bool)
    requires p(from) && Keeps(step, p)
    ensures p(Run(step, from, choices))
    decreases |choices|
  {
    if choices != [] {
      Always(step, from, choices[..|choices| - 1], p);
    }
  }

  /** No step of a run is taken where it is bad. */
  ghost predicate Avoids<S, C>(step: (S, C) -> S, from: S, choices: seq<C>, bad: (S, C) -> bool) {
    choices != [] ==>
      && Avoids(step, from, choices[..|choices| - 1], bad)
      && !bad(Run(step, from, choices[..|choices| - 1]), choices[|choices| - 1])
  }

  lemma {:induction false} AlwaysAvoiding<S(!new), C(!new)>(step: (S, C) -> S, from: S, choices: seq<C>,
                                                            bad: (S, C) -> bool, p: S -> bool)
    requires p(from) && Avoids(step, from, choices, bad)
    requires forall s, c :: p(s) && !bad(s, c) ==> p(step(s, c))
    ensures p(Run(step, from, choices))
    decreases |choices|
  {
    if choices != [] {
      AlwaysAvoiding(step, from, choices[..|choices| - 1], bad, p);
    }
  }

  /** What is never bad is avoided by every run. */
  lemma {:induction false} NeverBad<S(!new), C(!new)>(step: (S, C) -> S, from: S, choices: seq<C>, bad: (S, C) -> bool,
                                                      p: S -> bool)
    requires p(from) && Keeps(step, p) && forall s, c :: p(s) ==> !bad(s, c)
    ensures Avoids(step, from, choices, bad)
    decreases |choices|
  {
    if choices != [] {
      NeverBad(step, from, choices[..|choices| - 1], bad, p);
      Always(step, from, choices[..|choices| - 1], p);
    }
  }

  ghost predicate Reachable<S(!new), C(!new)>(step: (S, C) -> S, from: S, s: S) {
    exists choices :: Run(step, from, choices) == s
  }

  ghost function IsReachable<S(!new), C(!new)>(step: (S, C) -> S, from: S): S -> bool {
    (s: S) => Reachable(step, from, s)
  }

  lemma ReachableIsKept<S(!new), C(!new)>(step: (S, C) -> S, from: S)
    ensures Keeps(step, IsReachable(step, from)) && Reachable(step, from, from)
  {
    assert Run(step, from, []) == from;
    forall s, c | Reachable(step, from, s) ensures Reachable(step, from, step(s, c)) {
      var choices :| Run(step, from, choices) == s;
      assert (choices + [c])[..|choices|] == choices;
      assert Run(step, from, choices + [c]) == step(s, c);
    }
  }

  /** Two threads at some places, and all others at a third one. */
  function TwoOf<T>(threads: nat, a: T, b: T, others: T): seq<T> {
    seq(threads, t => if t == 0 then a else if t == 1 then b else others)
  }
}
