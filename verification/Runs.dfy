/** Runs of step systems. */
module Runs {
  /** Each state follows from the one before by a step. */
  ghost predicate Path<S(!new)>(step: (S, S) -> bool, run: seq<S>) {
    run != [] && forall i :: 0 <= i < |run| - 1 ==> step(run[i], run[i + 1])
  }

  /** Steps lead from `s` to `t`. */
  ghost predicate Leads<S(!new)>(step: (S, S) -> bool, s: S, t: S) {
    exists run :: Path(step, run) && run[0] == s && run[|run| - 1] == t
  }

  lemma LeadsSelf<S(!new)>(step: (S, S) -> bool, s: S)
    ensures Leads(step, s, s)
  {
    assert Path(step, [s]);
  }

  lemma LeadsNext<S(!new)>(step: (S, S) -> bool, s: S, t: S, u: S)
    requires Leads(step, s, t) && step(t, u)
    ensures Leads(step, s, u)
  {
    var run :| Path(step, run) && run[0] == s && run[|run| - 1] == t;
    var run' := run + [u];
    forall i | 0 <= i < |run'| - 1 ensures step(run'[i], run'[i + 1]) {
      if i < |run| - 1 {
        assert run'[i] == run[i] && run'[i + 1] == run[i + 1];
      } else {
        assert run'[i] == t && run'[i + 1] == u;
      }
    }
    assert Path(step, run') && run'[0] == s && run'[|run'| - 1] == u;
  }

  /** The last step of a part of a run. */
  lemma LastStep<S(!new)>(step: (S, S) -> bool, run: seq<S>, i: nat)
    requires Path(step, run) && 0 < i < |run|
    ensures step(run[i - 1], run[i])
  {
    assert step(run[i - 1], run[i - 1 + 1]);
  }
}
