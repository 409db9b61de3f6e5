/** `AMenuExecute.Execute`: run a menu's action, ask "continue?" after a
    successful run when the menu auto-confirms, and stop on the first
    exception, which is reported rather than rethrown.

    The action's outcomes and the user's answers are supplied as finite
    scripts; when a script runs out the loop is left waiting for more. */
module MenuExecutor {

  /** What one `_Execute` call did. */
  datatype Attempt = Completed | Threw

  /** How the loop ended: the user declined or no question was asked, an
      exception was reported, or a script ran out. */
  datatype End = Finished | Reported | AwaitingInput

  /** The k-th round goes on to another round: the action completed and the
      user answered yes. */
  predicate Again(results: seq<Attempt>, answers: seq<bool>, k: nat) {
    k < |results| && k < |answers| && results[k].Completed? && answers[k]
  }

  /** The number of leading rounds that complete and are answered "yes". */
  function Streak(results: seq<Attempt>, answers: seq<bool>): (n: nat)
    ensures n <= |results| && n <= |answers|
    decreases |results|
  {
    if |results| > 0 && |answers| > 0 && results[0].Completed? && answers[0]
    then 1 + Streak(results[1..], answers[1..])
    else 0
  }

  /** The streak is the first round that does not go on. */
  lemma {:induction false} StreakIsFirstStop(results: seq<Attempt>, answers: seq<bool>, i: nat)
    requires forall k :: 0 <= k < i ==> Again(results, answers, k)
    ensures i <= Streak(results, answers)
    ensures Streak(results, answers) == i <==> !Again(results, answers, i)
    decreases i
  {
    if i > 0 {
      assert Again(results, answers, 0);
      forall k | 0 <= k < i - 1 ensures Again(results[1..], answers[1..], k) {
        assert Again(results, answers, k + 1);
      }
      StreakIsFirstStop(results[1..], answers[1..], i - 1);
      assert Again(results, answers, i) == Again(results[1..], answers[1..], i - 1);
    }
  }

  /** The `while(true)` of `Execute`. */
  method Execute(autoConfirm: bool, results: seq<Attempt>, answers: seq<bool>)
    returns (invocations: nat, prompts: nat, end: End)
    ensures !autoConfirm && |results| > 0 ==>
              invocations == 1 && end == (if results[0].Threw? then Reported else Finished)
    ensures !autoConfirm ==> prompts == 0
    ensures autoConfirm ==>
              var n := Streak(results, answers);
              && invocations == (if n < |results| then n + 1 else n)
              && (end == Reported <==> n < |results| && results[n].Threw?)
              && (end == Finished <==> n < |results| && results[n].Completed? && n < |answers|)
              && prompts == (if end == Reported then invocations - 1 else invocations)
    ensures end == AwaitingInput ==> |results| <= invocations || |answers| < invocations
  {
    invocations, prompts, end := 0, 0, AwaitingInput;
    var i := 0;
    while i < |results|
      invariant 0 <= i <= |results|
      invariant invocations == i && prompts == i && end == AwaitingInput
      invariant forall k :: 0 <= k < i ==> Again(results, answers, k)
      invariant !autoConfirm ==> i == 0
    {
      invocations := invocations + 1;
      if results[i].Threw? {
        end := Reported;
        break;
      }
      if !autoConfirm {
        end := Finished;
        break;
      }
      prompts := prompts + 1;
      if i >= |answers| {
        break;
      }
      if !answers[i] {
        end := Finished;
        break;
      }
      i := i + 1;
    }
    if autoConfirm {
      StreakIsFirstStop(results, answers, i);
    }
  }
}
