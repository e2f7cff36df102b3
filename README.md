# Incremental matchers, modelled in Dafny

A matcher of ts-do-lang is an immutable value that stands for one state of an
automaton over inputs of any type. It says whether it is in a matching state
(`doesMatch`) and gives its successor for one input (`afterStep`), or `null`
when the path is dead. `afterSteps` folds `afterStep` over a sequence of
inputs and stops at the first `null`. The generic generation has three
built-in matchers:

- `FinalMatcher`: always matching, every step dead.
- `SingleMatcher`: accepts one input that its predicate admits, then becomes a `FinalMatcher`. `SingleMatcher.for(v)` is the exact-equality form.
- `InclusiveOrMatcher`: a disjunction that advances all children in parallel. It drops the dead ones, returns `null` if none survive, returns the lone survivor unwrapped, and otherwise wraps the survivors in a new disjunction.

An older, value-tagged generation has `Matcher.steps`, which returns a
matcher and an index, and `MatcherFinal`.

Modules:

- `Options`: `Option` (ts-do-lang's `null`) and `Somes`, the filter that drops absent values, with its order and membership lemmas.
- `GenericMatcher`: the abstract contract as a step function `step: (S, T) -> Option<S>`. `Run` specifies `afterSteps`, and the method `AfterSteps` is the loop of `Matcher.afterSteps`. Stating this over any step function also covers the self-looping matchers built in the tests, which no finite value can represent.
- `Matchers`: the datatype `Matcher<T> = Final | Single(isAccepted) | InclusiveOr(matchers)`, with `DoesMatch`, `AfterStep`, `For`, and `Accepts` (a matcher accepts an input sequence when `afterSteps` leaves a matching matcher).
- `FinalMatcher`, `SingleMatcher`, `InclusiveOrMatcher`: the properties of each built-in matcher.
- `ValueMatcher`: the older `steps` as written, `MatcherFinal`, and a chained version of `steps` (see Findings).

Inputs are a Dafny `seq<T>`. The generic `afterSteps` takes an `Iterable<Type>`, and the value-tagged `steps` takes an array `Type[]`.
JavaScript `===` in `SingleMatcher.for` is Dafny equality on `T`.

`FinalMatcher` declares `step`, not `afterStep` (src/parser/generic/matcher/matchers/final.ts:19). The model treats it as Final's step operation.

In the value-tagged generation, `step` returns `null` for a dead step (src/parser/matcher/matcher.ts:33,75-77), and the model follows the code.

## Model

| member | source | states |
|---|---|---|
| Options.Somes | src/parser/generic/matcher/matchers/inclusiveOr.ts:35-37 | dropping the `null` successors never lengthens the list |
| Options.SomesAppend | src/parser/generic/matcher/matchers/inclusiveOr.ts:35-37 | the filter distributes over concatenation, so survivors keep their original relative order |
| Options.SomesEmpty | src/parser/generic/matcher/matchers/inclusiveOr.ts:37-40 | the filtered list is empty iff every entry is `null` |
| Options.SomesOnlyOne | src/parser/generic/matcher/matchers/inclusiveOr.ts:37-41 | if exactly one entry is non-null, the filtered list is just that value |
| Options.SomesAtLeastTwo | src/parser/generic/matcher/matchers/inclusiveOr.ts:37-42 | two non-null entries leave at least two survivors |
| Options.SomesExists | src/parser/generic/matcher/matchers/inclusiveOr.ts:30-37 | a survivor satisfies a property iff some non-null entry does |
| GenericMatcher.AfterSteps | src/parser/generic/matcher/matcher.ts:71-80 | the result is `Run` of the matcher and the inputs, so it is deterministic. `afterStep` is called once per input, in order, each time on a live matcher. Calls stop early only because the running matcher became `null`, and they include the input that killed it |
| GenericMatcher.RunEmpty | src/parser/generic/matcher/matcher.ts:72-79 | an empty input returns the matcher itself |
| GenericMatcher.RunSingleton | src/parser/generic/matcher/matcher.ts:71-79 | `afterSteps([x])` equals `afterStep(x)` |
| GenericMatcher.RunAppend | src/parser/generic/matcher/matcher.ts:71-80 | `afterSteps(xs ++ ys)` is `afterSteps(ys)` from the result of `afterSteps(xs)`, or `null` if that is `null` |
| GenericMatcher.RunSnoc | src/parser/generic/matcher/matcher.ts:74-76 | one more input is one more `afterStep` on the running matcher |
| GenericMatcher.RunDeadStaysDead | src/parser/generic/matcher/matcher.ts:74-77 | once the running matcher is `null`, the result stays `null` whatever follows |
| GenericMatcher.RunSelfLoop | test/parser/generic/matcher/matcher.test.ts:93-96 | a matcher that steps to itself survives every input unchanged |
| Matchers.For | src/parser/generic/matcher/matchers/single.ts:29-31 | `for(v)` builds a single matcher whose predicate accepts `v` |
| FinalMatcher.FinalDoesMatch | src/parser/generic/matcher/matchers/final.ts:16 | a final matcher matches |
| FinalMatcher.FinalStepIsDead | src/parser/generic/matcher/matchers/final.ts:19-21 | its step is `null` for every input |
| FinalMatcher.FinalAfterStepsNonEmpty | src/parser/generic/matcher/matchers/final.ts:19-21 | `afterSteps` from a final matcher on any non-empty input is `null` |
| FinalMatcher.FinalAfterStepsEmpty | src/parser/generic/matcher/matchers/final.ts:16 | `afterSteps` from a final matcher on the empty input returns that same matcher, which still matches |
| SingleMatcher.SingleNeverMatches | src/parser/generic/matcher/matchers/single.ts:34 | a single matcher never matches |
| SingleMatcher.SingleStep | src/parser/generic/matcher/matchers/single.ts:37-39 | the step is `null` iff the predicate rejects the input. An accepted input gives a final matcher, which matches |
| SingleMatcher.SingleDiesAfterTwo | src/parser/generic/matcher/matchers/single.ts:38 | any input of length two or more drives a single matcher to `null` |
| SingleMatcher.ForAcceptsExactly | src/parser/generic/matcher/matchers/single.ts:29-31 | `for(v)` accepts `w` iff `w == v`, and its step survives exactly then |
| InclusiveOrMatcher.AnyMatchesExists | src/parser/generic/matcher/matchers/inclusiveOr.ts:30 | the `some` reduction holds iff some child matches |
| InclusiveOrMatcher.OrDoesMatch | src/parser/generic/matcher/matchers/inclusiveOr.ts:27-31 | a disjunction matches iff one of its children matches |
| InclusiveOrMatcher.EmptyOr | src/parser/generic/matcher/matchers/inclusiveOr.ts:30-40 | with no children, a disjunction does not match and its step is `null` |
| InclusiveOrMatcher.OrStepDeadIff | src/parser/generic/matcher/matchers/inclusiveOr.ts:35-40 | the step is `null` iff every child's step is `null` |
| InclusiveOrMatcher.OrCollapsesToSurvivor | src/parser/generic/matcher/matchers/inclusiveOr.ts:41 | when only one child survives, the result is that child's successor itself, unwrapped |
| InclusiveOrMatcher.OrWrapsSurvivors | src/parser/generic/matcher/matchers/inclusiveOr.ts:35-43 | when two or more children survive, the result is a new disjunction of exactly the non-null successors in order, with at least two and at most as many children as before |
| InclusiveOrMatcher.OrStepDoesMatch | src/parser/generic/matcher/matchers/inclusiveOr.ts:30-43 | a non-null result matches iff some surviving successor matches |
| InclusiveOrMatcher.OrOfOneStepsLikeChild | src/parser/generic/matcher/matchers/inclusiveOr.ts:39-41 | a disjunction of one child steps and matches exactly like that child |
| InclusiveOrMatcher.StepOrHasTwo | src/parser/generic/matcher/matchers/inclusiveOr.ts:39-43 | every disjunction that a step returns has at least two children, including an unwrapped lone survivor |
| InclusiveOrMatcher.CollapsedSurvivorMayBeWider | src/parser/generic/matcher/matchers/inclusiveOr.ts:41 | an unwrapped lone survivor can be a disjunction with more children than the original, so the upper bound on children holds only when the survivors are wrapped |
| InclusiveOrMatcher.OrRunAccepts | src/parser/generic/matcher/matchers/inclusiveOr.ts:3-43 | driven by `afterSteps`, a disjunction accepts an input sequence iff one of its children accepts it |
| InclusiveOrMatcher.OrRunDiesIff | src/parser/generic/matcher/matchers/inclusiveOr.ts:34-43 | driven by `afterSteps`, a disjunction dies iff every child dies; with no input this needs at least one child, since an empty disjunction is still live |
| InclusiveOrMatcher.EitherLetter | src/parser/generic/matcher/matchers/inclusiveOr.ts:34-43 | `or(for('a'), for('b'))` steps on `'a'` to a matching final matcher, unwrapped, and on `'c'` to `null` |
| ValueMatcher.Steps | src/parser/matcher/matcher.ts:41-55 | the index lies between 0 and the input length. It is the position of the first input that `this.step` rejects, or the input length if there is none. The matcher is `this` at index 0, and otherwise `this.step(inputs[index-1])` |
| ValueMatcher.StepsResultUnique | src/parser/matcher/matcher.ts:41-55 | that contract determines the pair uniquely |
| ValueMatcher.StepsTakesAll | src/parser/matcher/matcher.ts:46-51 | when no step returns `null`, the index is the input length |
| ValueMatcher.GateStopsAtFirstFalse | test/parser/generic/matcher/matcher.test.ts:73-89 | with the test's matcher (itself on `true`, `null` on `false`), for any boolean input, the index is the position of the first `false` (or the length if there is none) and the matcher is `this` |
| ValueMatcher.MatcherFinalStep | src/parser/matcher/matcher.ts:70-77 | `value` is the constructor argument, and `step` is `null` for every input |
| ValueMatcher.MatcherFinalSteps | src/parser/matcher/matcher.ts:41-77 | `steps` on a `MatcherFinal` returns that matcher and index 0 for any input |
| ValueMatcher.StepsChained | src/parser/matcher/matcher.ts:35-55 | stepping the running matcher: `index` inputs lead from `this` to the returned matcher, and the next input, if any, kills it |
| ValueMatcher.ChainedAgreesWithAfterSteps | src/parser/generic/matcher/matcher.ts:71-80 | chained `steps` agrees with `afterSteps`: it returns the same matcher when all inputs are consumed, and `afterSteps` is `null` otherwise |
| ValueMatcher.StepsIgnoresChain | src/parser/matcher/matcher.ts:47 | on a chain 0 -> 1 -> 2 -> dead with three inputs, `steps` as written gives (1, 3); chained stepping gives (2, 2) |

## Left out

- Matchers.For: its contract states only that `for(v)` accepts `v`. Rejection of every other input is stated by SingleMatcher.ForAcceptsExactly, because a quantifier over an arbitrary `T` is not allowed in a function contract.
- InclusiveOrMatcher.OrWrapsSurvivors: the upper bound on children (at most the original number) is stated for the wrapping case only. In the collapse case it does not hold, as CollapsedSurvivorMayBeWider shows. The lower bound of two holds for every step result (StepOrHasTwo).
- `InclusiveOrMatcher.doesMatch` is computed once in the constructor (src/parser/generic/matcher/matchers/inclusiveOr.ts:30). Here it is a predicate over the children. Matchers are documented as immutable (src/parser/generic/matcher/matcher.ts:2), but the code does not enforce it for `SingleMatcher.doesMatch` (single.ts:34) or for the `matchers` array (inclusiveOr.ts:18). A caller that mutates them sees the cached value go stale while `afterStep` uses the new children. The model assumes the documented contract and does not model mutation.
- Matchers defined by users (subclasses of `Matcher`) are not part of the datatype. They are covered only through the step-function form of `afterSteps` and `steps`.
- The doc comment at src/parser/generic/matcher/matcher.ts:40-41 says that a matcher's existence implies some descendant matches. The code does not guarantee this: a single matcher whose predicate is always false breaks it. It is not modelled.
- Predicates must be pure (src/parser/generic/matcher/matchers/single.ts:14). They are total Dafny functions `T -> bool`, so impure or throwing predicates are not modelled.
- Inputs are a finite `seq<T>`. The generic `afterSteps` takes any `Iterable<Type>` (src/parser/generic/matcher/matcher.ts:71); the value-tagged `steps` takes an array (src/parser/matcher/matcher.ts:41), for which nothing is lost. Two behaviours that only a non-array iterable shows are not modelled. First, the `for…of` loop (src/parser/generic/matcher/matcher.ts:74-75) reads the element after the killing input before it checks for `null` and breaks; a generator can observe that extra read. Second, on an endless iterable with a matcher that never dies, `afterSteps` does not return.
- Reference identity: `===` on objects and the identity of a fresh `FinalMatcher` are modelled as value equality.
- SingleMatcher.ForAcceptsExactly: the model's equality is reflexive and separates every pair of distinct values. So it does not capture how `===` treats numbers: `for(NaN)` rejects every input, `NaN` included, and `for(0)` also accepts `-0`.
- Test-framework features are not modelled: spies and call counts, `instanceof` checks, and reading the private `isAccepted` field. The call sequence of `afterSteps` is the ghost output `stepped` of GenericMatcher.AfterSteps.
- TypeScript typing details are not modelled: the polymorphic `this` return type, and the missing `afterStep` override in `FinalMatcher`.

## Findings

| source | as written | input that shows it | evidently intended | confidence | as-written member | corrected member |
|---|---|---|---|---|---|---|
| src/parser/matcher/matcher.ts:47 | `steps` calls `this.step(input)` on every iteration, so it always steps the starting matcher and never the running one | the three-state chain 0 -> 1 -> 2 -> dead with three inputs: the result is (matcher 1, index 3) | step the running matcher and return the last matcher and the index of the failing input, here (2, 2), as the chain test at test/parser/generic/matcher/matcher.test.ts:49-71 expects | medium, not executed | ValueMatcher.Steps | ValueMatcher.StepsChained |
