/** The older, value-tagged matcher generation: a matcher carries a `value`
    (the kind of match, `None` when it is not a match) and a `step`;
    `steps` reports the matcher reached and how many inputs were taken. */
module ValueMatcher {
  import opened Options
  import GenericMatcher

  /** `MatcherFinal`: a matcher that fails on any input, tagged with `value`. */
  datatype MatcherFinal<V> = MatcherFinal(value: Option<V>)
  {
    /** `step`: dead for every input. */
    function Step<T>(input: T): Option<MatcherFinal<V>>
    {
      None
    }
  }

  /** What `steps` returns as written: `index` is the position of the first
      input that `self` (not the running matcher) rejects, or `|inputs|`;
      the matcher is `self` when `index` is 0 and otherwise `self`'s
      successor on the last accepted input. */
  ghost predicate IsStepsResult<S, T>(step: (S, T) -> Option<S>, self: S, inputs: seq<T>, matcher: S, index: nat)
  {
    && index <= |inputs|
    && (forall j :: 0 <= j < index ==> step(self, inputs[j]).Some?)
    && (index < |inputs| ==> step(self, inputs[index]).None?)
    && matcher == (if index == 0 then self else step(self, inputs[index - 1]).value)
  }

  /** `Matcher.steps`, as written: every step is taken from `self`. */
  method Steps<S, T>(step: (S, T) -> Option<S>, self: S, inputs: seq<T>) returns (matcher: S, index: nat)
    ensures IsStepsResult(step, self, inputs, matcher, index)
  {
    index := 0;
    matcher := self;
    while index < |inputs|
      invariant index <= |inputs|
      invariant forall j :: 0 <= j < index ==> step(self, inputs[j]).Some?
      invariant matcher == if index == 0 then self else step(self, inputs[index - 1]).value
    {
      var next := step(self, inputs[index]);
      if next.None? {
        break;
      }
      matcher := next.value;
      index := index + 1;
    }
  }

  /** The result of `steps` is determined by the step function, `self` and the inputs. */
  lemma StepsResultUnique<S, T>(step: (S, T) -> Option<S>, self: S, inputs: seq<T>,
                                m1: S, i1: nat, m2: S, i2: nat)
    requires IsStepsResult(step, self, inputs, m1, i1)
    requires IsStepsResult(step, self, inputs, m2, i2)
    ensures m1 == m2 && i1 == i2
  {
  }

  /** When no input is rejected, the index is the length of the input. */
  lemma StepsTakesAll<S, T>(step: (S, T) -> Option<S>, self: S, inputs: seq<T>, matcher: S, index: nat)
    requires forall j :: 0 <= j < |inputs| ==> step(self, inputs[j]).Some?
    requires IsStepsResult(step, self, inputs, matcher, index)
    ensures index == |inputs|
  {
  }

  /** `MatcherFinal` keeps its constructor argument as `value`, and its step is dead. */
  lemma MatcherFinalStep<V, T>(value: Option<V>, input: T)
    ensures MatcherFinal(value).value == value
    ensures MatcherFinal(value).Step(input) == None
  {
  }

  /** `steps` on a `MatcherFinal` returns that matcher and index 0, for any input. */
  lemma MatcherFinalSteps<V, T>(m: MatcherFinal<V>, inputs: seq<T>, matcher: MatcherFinal<V>, index: nat)
    ensures IsStepsResult((n: MatcherFinal<V>, x: T) => n.Step(x), m, inputs, matcher, index)
        <==> matcher == m && index == 0
  {
  }

  /** The boolean test matcher: steps to itself on `true`, dies on `false`. */
  function Gate(m: nat, input: bool): Option<nat>
  {
    if input then Some(m) else None
  }

  /** With that matcher, `steps` stops at the first `false` (the input
      length if there is none) and returns the matcher itself. */
  lemma GateStopsAtFirstFalse(self: nat, inputs: seq<bool>, matcher: nat, index: nat)
    requires IsStepsResult(Gate, self, inputs, matcher, index)
    ensures index <= |inputs| && matcher == self
    ensures forall j :: 0 <= j < index ==> inputs[j]
    ensures index < |inputs| ==> !inputs[index]
  {
  }

  // The intended reading of `steps`: advance the running matcher.

  /** What chained stepping returns: `index` inputs were consumed from `self`
      to reach `matcher`, and the next input, if any, kills `matcher`. */
  ghost predicate IsChainedStepsResult<S, T>(step: (S, T) -> Option<S>, self: S, inputs: seq<T>, matcher: S, index: nat)
  {
    && index <= |inputs|
    && GenericMatcher.Run(step, self, inputs[..index]) == Some(matcher)
    && (index < |inputs| ==> step(matcher, inputs[index]).None?)
  }

  /** `steps` with each step taken from the running matcher. */
  method StepsChained<S, T>(step: (S, T) -> Option<S>, self: S, inputs: seq<T>) returns (matcher: S, index: nat)
    ensures IsChainedStepsResult(step, self, inputs, matcher, index)
  {
    index := 0;
    matcher := self;
    while index < |inputs|
      invariant index <= |inputs|
      invariant GenericMatcher.Run(step, self, inputs[..index]) == Some(matcher)
    {
      var next := step(matcher, inputs[index]);
      if next.None? {
        break;
      }
      GenericMatcher.RunSnoc(step, self, inputs[..index], inputs[index]);
      assert inputs[..index + 1] == inputs[..index] + [inputs[index]];
      matcher := next.value;
      index := index + 1;
    }
  }

  /** Chained stepping agrees with `afterSteps`: all inputs consumed means
      `afterSteps` reaches the same matcher, any fewer means it dies. */
  lemma ChainedAgreesWithAfterSteps<S, T>(step: (S, T) -> Option<S>, self: S, inputs: seq<T>, matcher: S, index: nat)
    requires IsChainedStepsResult(step, self, inputs, matcher, index)
    ensures GenericMatcher.Run(step, self, inputs) == if index == |inputs| then Some(matcher) else None
  {
    if index == |inputs| {
      assert inputs[..index] == inputs;
    } else {
      var rest := inputs[index..];
      assert inputs == inputs[..index] + rest;
      GenericMatcher.RunAppend(step, self, inputs[..index], rest);
      assert rest[0] == inputs[index];
    }
  }

  /** A three-state chain 0 -> 1 -> 2 -> dead, as built by the chain test. */
  function CountUp(m: nat, input: nat): Option<nat>
  {
    if m < 2 then Some(m + 1) else None
  }

  /** On the chain, `steps` as written answers (1, 3): it re-steps the first
      matcher and never sees the chain end. Stepping the running matcher
      answers (2, 2), the last matcher and the index of the failing input. */
  lemma StepsIgnoresChain(matcher: nat, index: nat)
    ensures IsStepsResult(CountUp, 0, [0, 0, 0], matcher, index) <==> matcher == 1 && index == 3
    ensures IsChainedStepsResult(CountUp, 0, [0, 0, 0], matcher, index) <==> matcher == 2 && index == 2
  {
    var inputs := [0, 0, 0];
    assert inputs[..0] == [] && inputs[..1] == [0] && inputs[..2] == [0, 0] && inputs[..3] == inputs;
    assert [0, 0, 0][1..] == [0, 0] && [0, 0][1..] == [0] && [0][1..] == [];
    assert GenericMatcher.Run(CountUp, 0, [0]) == Some(1);
    assert GenericMatcher.Run(CountUp, 0, [0, 0]) == Some(2);
    assert GenericMatcher.Run(CountUp, 0, inputs) == None;
  }
}
