/** The abstract matcher contract of the generic generation: a matcher is a
    state `S` of an automaton over inputs `T`, and `step(m, x)` is its
    `afterStep(x)`, `None` for a dead path. Any matcher family, including
    self-looping ones that no finite value can describe, is an instance. */
module GenericMatcher {
  import opened Options

  /** The matcher reached from `m` by feeding `inputs` in order, or `None`
      once a step has returned `None`. */
  function Run<S, T>(step: (S, T) -> Option<S>, m: S, inputs: seq<T>): Option<S>
    decreases |inputs|
  {
    if inputs == [] then Some(m)
    else match step(m, inputs[0])
      case None => None
      case Some(next) => Run(step, next, inputs[1..])
  }

  /** Feeding `xs ++ ys` is feeding `xs`, then `ys` from wherever `xs` led. */
  lemma {:induction false} RunAppend<S, T>(step: (S, T) -> Option<S>, m: S, xs: seq<T>, ys: seq<T>)
    ensures Run(step, m, xs + ys) ==
      match Run(step, m, xs)
      case None => None
      case Some(n) => Run(step, n, ys)
  {
    if xs == [] {
      assert xs + ys == ys;
    } else {
      assert (xs + ys)[0] == xs[0];
      assert (xs + ys)[1..] == xs[1..] + ys;
      match step(m, xs[0])
      case None =>
      case Some(n) => RunAppend(step, n, xs[1..], ys);
    }
  }

  /** One more input after `xs` is one more `afterStep`, if `xs` left a matcher. */
  lemma RunSnoc<S, T>(step: (S, T) -> Option<S>, m: S, xs: seq<T>, x: T)
    ensures Run(step, m, xs + [x]) ==
      match Run(step, m, xs)
      case None => None
      case Some(n) => step(n, x)
  {
    RunAppend(step, m, xs, [x]);
    match Run(step, m, xs)
    case None =>
    case Some(n) => assert [x][1..] == [];
  }

  /** Once the running matcher is dead, no later input revives it. */
  lemma RunDeadStaysDead<S, T>(step: (S, T) -> Option<S>, m: S, xs: seq<T>, ys: seq<T>)
    requires Run(step, m, xs) == None
    ensures Run(step, m, xs + ys) == None
  {
    RunAppend(step, m, xs, ys);
  }

  /** The empty input leaves the matcher itself. */
  lemma RunEmpty<S, T>(step: (S, T) -> Option<S>, m: S)
    ensures Run(step, m, []) == Some(m)
  {
  }

  /** A single input is a single `afterStep`. */
  lemma RunSingleton<S, T>(step: (S, T) -> Option<S>, m: S, x: T)
    ensures Run(step, m, [x]) == step(m, x)
  {
    assert [x][1..] == [];
  }

  /** A matcher whose every step returns itself survives any input unchanged. */
  lemma {:induction false} RunSelfLoop<S, T>(step: (S, T) -> Option<S>, m: S, xs: seq<T>)
    requires forall x :: step(m, x) == Some(m)
    ensures Run(step, m, xs) == Some(m)
  {
    if xs != [] {
      RunSelfLoop(step, m, xs[1..]);
    }
  }

  /** `Matcher.afterSteps`: start from `self`, stop stepping once the running
      matcher is dead. `stepped` records, in order, the inputs handed to
      `afterStep`: a prefix of `inputs`, every call made on a live matcher,
      and stopping short only because the matcher died. */
  method AfterSteps<S, T>(step: (S, T) -> Option<S>, self: S, inputs: seq<T>)
    returns (matcher: Option<S>, ghost stepped: seq<T>)
    ensures matcher == Run(step, self, inputs)
    ensures |stepped| <= |inputs| && stepped == inputs[..|stepped|]
    ensures forall j :: 0 <= j < |stepped| ==> Run(step, self, inputs[..j]).Some?
    ensures |stepped| < |inputs| ==> Run(step, self, stepped) == None
  {
    matcher := Some(self);
    stepped := [];
    var i := 0;
    while i < |inputs|
      invariant i <= |inputs|
      invariant stepped == inputs[..i]
      invariant matcher == Run(step, self, inputs[..i])
      invariant forall j :: 0 <= j < i ==> Run(step, self, inputs[..j]).Some?
    {
      if matcher.None? {
        break;
      }
      RunSnoc(step, self, inputs[..i], inputs[i]);
      assert inputs[..i + 1] == inputs[..i] + [inputs[i]];
      stepped := stepped + [inputs[i]];
      matcher := step(matcher.value, inputs[i]);
      i := i + 1;
    }
    if i < |inputs| {
      assert inputs == inputs[..i] + inputs[i..];
      RunDeadStaysDead(step, self, inputs[..i], inputs[i..]);
    } else {
      assert inputs[..i] == inputs;
    }
  }
}
