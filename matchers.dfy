/** The built-in matchers of the generic generation as one closed sum:
    `FinalMatcher`, `SingleMatcher` and `InclusiveOrMatcher`. */
module Matchers {
  import opened Options
  import GenericMatcher

  datatype Matcher<!T> =
      /** `FinalMatcher`: matched, and nothing further can extend the match. */
    | Final
      /** `SingleMatcher`: waits for one input that `isAccepted` admits. */
    | Single(isAccepted: T -> bool)
      /** `InclusiveOrMatcher`: the disjunction of `matchers`, advanced in parallel. */
    | InclusiveOr(matchers: seq<Matcher<T>>)
  {
    /** `doesMatch`: whether this matcher is in a matching state. */
    predicate DoesMatch()
    {
      match this
      case Final => true
      case Single(_) => false
      case InclusiveOr(ms) => AnyMatches(ms)
    }

    /** `afterStep` (for `FinalMatcher`, its `step`): the successor after `input`, or `None`. */
    function AfterStep(input: T): Option<Matcher<T>>
    {
      match this
      case Final => None
      case Single(isAccepted) => if isAccepted(input) then Some(Final) else None
      case InclusiveOr(ms) => Collapse(Somes(Successors(ms, input)))
    }
  }

  /** Whether some matcher of `ms` is in a matching state. */
  predicate AnyMatches<T>(ms: seq<Matcher<T>>)
  {
    ms != [] && (ms[0].DoesMatch() || AnyMatches(ms[1..]))
  }

  /** The successor of each matcher of `ms` after `input`, position by position. */
  function Successors<T>(ms: seq<Matcher<T>>, input: T): seq<Option<Matcher<T>>>
  {
    seq(|ms|, i requires 0 <= i < |ms| => ms[i].AfterStep(input))
  }

  /** The `switch` on the number of survivors: none is dead, one is returned
      unwrapped, more are wrapped in a new `InclusiveOrMatcher`. */
  function Collapse<T>(survivors: seq<Matcher<T>>): Option<Matcher<T>>
  {
    if |survivors| == 0 then None
    else if |survivors| == 1 then Some(survivors[0])
    else Some(InclusiveOr(survivors))
  }

  /** `SingleMatcher.for(input)`: accepts exactly `input`. */
  function For<T(==)>(input: T): (r: Matcher<T>)
    ensures r.Single? && r.isAccepted(input)
  {
    Single(other => other == input)
  }

  /** `afterStep` as a first-class step function, to drive `afterSteps`. */
  function Step<T>(m: Matcher<T>, input: T): Option<Matcher<T>>
  {
    m.AfterStep(input)
  }

  /** `m` accepts `inputs`: `afterSteps` leaves a matcher, and that matcher matches. */
  predicate Accepts<T>(m: Matcher<T>, inputs: seq<T>)
  {
    var r := GenericMatcher.Run(Step, m, inputs);
    r.Some? && r.value.DoesMatch()
  }
}
