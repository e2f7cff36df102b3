/** Properties of `SingleMatcher` and its exact-equality constructor `for`. */
module SingleMatcher {
  import opened Options
  import opened Matchers
  import GenericMatcher

  /** A single matcher has not matched yet. */
  lemma SingleNeverMatches<T>(isAccepted: T -> bool)
    ensures !Single(isAccepted).DoesMatch()
  {
  }

  /** The step is dead exactly when the predicate rejects the input; an
      accepted input leads to a matching final matcher. */
  lemma SingleStep<T>(isAccepted: T -> bool, input: T)
    ensures Single(isAccepted).AfterStep(input).None? <==> !isAccepted(input)
    ensures isAccepted(input) ==>
      Single(isAccepted).AfterStep(input) == Some(Final) && Single(isAccepted).AfterStep(input).value.DoesMatch()
  {
  }

  /** After the accepted input every further step is dead, so two or more
      inputs always drive a single matcher to `None`. */
  lemma SingleDiesAfterTwo<T>(isAccepted: T -> bool, inputs: seq<T>)
    requires |inputs| >= 2
    ensures GenericMatcher.Run(Step, Single(isAccepted), inputs) == None
  {
  }

  /** `for(v)` accepts `v` and rejects every other input. */
  lemma ForAcceptsExactly<T>(input: T, other: T)
    ensures For(input).isAccepted(other) <==> other == input
    ensures For(input).AfterStep(other).Some? <==> other == input
  {
  }
}
