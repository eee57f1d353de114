/** Finite runs of any step relation. */
module Traces {
  /** States with a step between any two. */
  ghost predicate IsTrace<T>(t: seq<T>, step: (T, T) -> bool) {
    t != [] && forall k: nat :: k + 1 < |t| ==> StepAt(t, step, k)
  }

  ghost predicate StepAt<T>(t: seq<T>, step: (T, T) -> bool, k: nat)
    requires k + 1 < |t|
  {
    step(t[k], t[k + 1])
  }

  /** Some run leads from s to s'. */
  ghost predicate Reaches<T(!new)>(s: T, s': T, step: (T, T) -> bool) {
    exists t: seq<T> :: IsTrace(t, step) && t[0] == s && t[|t| - 1] == s'
  }

  lemma ReachesSelf<T(!new)>(s: T, step: (T, T) -> bool)
    ensures Reaches(s, s, step)
  {
    var t := [s];
    assert IsTrace(t, step) && t[0] == s && t[|t| - 1] == s;
  }

  lemma ReachesStep<T(!new)>(s: T, s': T, step: (T, T) -> bool)
    requires step(s, s')
    ensures Reaches(s, s', step)
  {
    var t := [s, s'];
    assert IsTrace(t, step) && t[0] == s && t[|t| - 1] == s';
  }

  lemma ReachesTrans<T(!new)>(s: T, s1: T, s2: T, step: (T, T) -> bool)
    requires Reaches(s, s1, step) && Reaches(s1, s2, step)
    ensures Reaches(s, s2, step)
  {
    var a: seq<T> :| IsTrace(a, step) && a[0] == s && a[|a| - 1] == s1;
    var b: seq<T> :| IsTrace(b, step) && b[0] == s1 && b[|b| - 1] == s2;
    var t := a + b[1..];
    forall k: nat | k + 1 < |t| ensures StepAt(t, step, k) {
      if k + 1 < |a| {
        assert StepAt(a, step, k);
      } else {
        assert StepAt(b, step, k + 1 - |a|);
      }
    }
    assert IsTrace(t, step) && t[0] == s && t[|t| - 1] == s2;
  }

  /** If every coarse step from a good state is a run of fine ones to a good state, then so is every
      run of coarse steps. */
  lemma {:induction false} CoarseIsFine<T(!new)>(t: seq<T>, coarse: (T, T) -> bool, fine: (T, T) -> bool,
                                                 good: T -> bool, k: nat)
    requires IsTrace(t, coarse) && k < |t| && good(t[0])
    requires forall a, b :: good(a) && coarse(a, b) ==> good(b) && Reaches(a, b, fine)
    ensures good(t[k]) && Reaches(t[0], t[k], fine)
  {
    if k == 0 {
      ReachesSelf(t[0], fine);
    } else {
      CoarseIsFine(t, coarse, fine, good, k - 1);
      assert StepAt(t, coarse, k - 1);
      ReachesTrans(t[0], t[k - 1], t[k], fine);
    }
  }
}
