/** Properties of `FinalMatcher`, the end of every matcher chain. */
module FinalMatcher {
  import opened Options
  import opened Matchers
  import GenericMatcher

  /** A final matcher is in a matching state. */
  lemma FinalDoesMatch<T>()
    ensures Matcher<T>.Final.DoesMatch()
  {
  }

  /** Its step is dead for every input. */
  lemma FinalStepIsDead<T>(input: T)
    ensures Matcher<T>.Final.AfterStep(input) == None
  {
  }

  /** `afterSteps` from a final matcher dies on any non-empty input. */
  lemma FinalAfterStepsNonEmpty<T>(inputs: seq<T>)
    requires inputs != []
    ensures GenericMatcher.Run(Step, Final, inputs) == None
  {
  }

  /** `afterSteps` of nothing from a final matcher is that same, still matching, matcher. */
  lemma FinalAfterStepsEmpty<T>()
    ensures GenericMatcher.Run(Step<T>, Final, []) == Some(Final)
    ensures GenericMatcher.Run(Step<T>, Final, []).value.DoesMatch()
  {
  }
}
