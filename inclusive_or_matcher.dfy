/** Properties of `InclusiveOrMatcher`: an NFA-style disjunction that
    advances every branch in parallel and collapses what survives. */
module InclusiveOrMatcher {
  import opened Options
  import opened Matchers
  import GenericMatcher

  /** `some` over the children holds exactly when some child matches. */
  lemma {:induction false} AnyMatchesExists<T>(ms: seq<Matcher<T>>)
    ensures AnyMatches(ms) <==> exists i :: 0 <= i < |ms| && ms[i].DoesMatch()
  {
    if ms != [] {
      AnyMatchesExists(ms[1..]);
      assert forall i :: 1 <= i < |ms| ==> ms[i] == ms[1..][i - 1];
    }
  }

  /** A disjunction matches exactly when one of its children does. */
  lemma OrDoesMatch<T>(ms: seq<Matcher<T>>)
    ensures InclusiveOr(ms).DoesMatch() <==> exists i :: 0 <= i < |ms| && ms[i].DoesMatch()
  {
    AnyMatchesExists(ms);
  }

  /** With no children the disjunction does not match, and its step is dead. */
  lemma EmptyOr<T>(input: T)
    ensures !Matcher<T>.InclusiveOr([]).DoesMatch()
    ensures Matcher<T>.InclusiveOr([]).AfterStep(input) == None
  {
  }

  /** The step is dead exactly when every child's step is dead. */
  lemma OrStepDeadIff<T>(ms: seq<Matcher<T>>, input: T)
    ensures InclusiveOr(ms).AfterStep(input).None? <==>
      forall i :: 0 <= i < |ms| ==> ms[i].AfterStep(input).None?
  {
    var next := Successors(ms, input);
    SomesEmpty(next);
    assert forall i :: 0 <= i < |ms| ==> next[i] == ms[i].AfterStep(input);
  }

  /** When only child `j` survives, the result is that child's successor itself, unwrapped. */
  lemma OrCollapsesToSurvivor<T>(ms: seq<Matcher<T>>, input: T, j: nat)
    requires j < |ms| && ms[j].AfterStep(input).Some?
    requires forall i :: 0 <= i < |ms| && i != j ==> ms[i].AfterStep(input).None?
    ensures InclusiveOr(ms).AfterStep(input) == ms[j].AfterStep(input)
  {
    var next := Successors(ms, input);
    assert forall i :: 0 <= i < |ms| ==> next[i] == ms[i].AfterStep(input);
    SomesOnlyOne(next, j);
  }

  /** When two or more children survive, the result is a new disjunction of
      exactly the surviving successors in their original order (`Somes`),
      with at least two and at most as many children as before. */
  lemma OrWrapsSurvivors<T>(ms: seq<Matcher<T>>, input: T, i: nat, j: nat)
    requires i < j < |ms| && ms[i].AfterStep(input).Some? && ms[j].AfterStep(input).Some?
    ensures InclusiveOr(ms).AfterStep(input) == Some(InclusiveOr(Somes(Successors(ms, input))))
    ensures 2 <= |Somes(Successors(ms, input))| <= |ms|
  {
    var next := Successors(ms, input);
    assert next[i] == ms[i].AfterStep(input) && next[j] == ms[j].AfterStep(input);
    SomesAtLeastTwo(next, i, j);
  }

  /** A live result matches exactly when some surviving successor matches. */
  lemma OrStepDoesMatch<T>(ms: seq<Matcher<T>>, input: T)
    requires InclusiveOr(ms).AfterStep(input).Some?
    ensures InclusiveOr(ms).AfterStep(input).value.DoesMatch() <==>
      exists i :: 0 <= i < |ms| && ms[i].AfterStep(input).Some? && ms[i].AfterStep(input).value.DoesMatch()
  {
    var next := Successors(ms, input);
    var survivors := Somes(next);
    var matches := (m: Matcher<T>) => m.DoesMatch();
    SomesExists(next, matches);
    assert forall i :: 0 <= i < |ms| ==> next[i] == ms[i].AfterStep(input);
    if |survivors| >= 2 {
      OrDoesMatch(survivors);
    }
  }

  /** A disjunction of one child steps exactly like that child. */
  lemma OrOfOneStepsLikeChild<T>(child: Matcher<T>, input: T)
    ensures InclusiveOr([child]).AfterStep(input) == child.AfterStep(input)
    ensures InclusiveOr([child]).DoesMatch() == child.DoesMatch()
  {
    var next := Successors([child], input);
    assert next == [child.AfterStep(input)];
    assert next[1..] == [];
    assert [child][1..] == [];
    assert !AnyMatches([child][1..]);
  }

  /** Every disjunction produced by a step has at least two children, also
      when it is an unwrapped lone survivor: that survivor is itself the
      result of a step, hence `Final` or an already wrapped disjunction. */
  lemma {:induction false} StepOrHasTwo<T>(m: Matcher<T>, input: T)
    requires m.AfterStep(input).Some? && m.AfterStep(input).value.InclusiveOr?
    ensures |m.AfterStep(input).value.matchers| >= 2
    decreases m
  {
    if m.InclusiveOr? {
      var ms := m.matchers;
      var next := Successors(ms, input);
      var survivors := Somes(next);
      if |survivors| == 1 {
        var lone := survivors[0];
        var isLone := (c: Matcher<T>) => c == lone;
        SomesExists(next, isLone);
        assert isLone(survivors[0]);
        var i :| 0 <= i < |ms| && next[i].Some? && isLone(next[i].value);
        assert next[i] == ms[i].AfterStep(input);
        StepOrHasTwo(ms[i], input);
      }
    }
  }

  /** The unwrapped lone survivor may itself be a disjunction with more
      children than the matcher it came from: the bound on children holds
      for the wrapping case only. */
  lemma CollapsedSurvivorMayBeWider()
    ensures var inner := InclusiveOr([Single((x: int) => true), Single((x: int) => true)]);
      var r := InclusiveOr([inner]).AfterStep(0);
      r.Some? && r.value.InclusiveOr? && |r.value.matchers| == 2 > |[inner]|
  {
    var accept := (x: int) => true;
    var inner := InclusiveOr([Single(accept), Single(accept)]);
    OrWrapsSurvivors(inner.matchers, 0, 0, 1);
    OrOfOneStepsLikeChild(inner, 0);
    var next := Successors(inner.matchers, 0);
    assert next == [Some(Final), Some(Final)];
    assert next[1..] == [Some(Final)];
    assert next[1..][1..] == [];
  }

  /** Driven by `afterSteps`, a disjunction accepts an input sequence
      exactly when one of its children does: the parallel advance is an
      NFA simulation. */
  lemma {:induction false} OrRunAccepts<T>(ms: seq<Matcher<T>>, inputs: seq<T>)
    ensures Accepts(InclusiveOr(ms), inputs) <==> exists i :: 0 <= i < |ms| && Accepts(ms[i], inputs)
    decreases |inputs|
  {
    if inputs == [] {
      OrDoesMatch(ms);
    } else {
      var x, rest := inputs[0], inputs[1..];
      var next := Successors(ms, x);
      var survivors := Somes(next);
      var accepts := (c: Matcher<T>) => Accepts(c, rest);
      SomesExists(next, accepts);
      assert forall i :: 0 <= i < |ms| ==> next[i] == ms[i].AfterStep(x);
      assert forall i :: 0 <= i < |ms| ==>
        (Accepts(ms[i], inputs) <==> next[i].Some? && Accepts(next[i].value, rest));
      if |survivors| >= 2 {
        OrRunAccepts(survivors, rest);
      }
    }
  }

  /** Driven by `afterSteps`, a disjunction dies exactly when every child dies;
      with no input this needs at least one child, since an empty
      disjunction is still live. */
  lemma {:induction false} OrRunDiesIff<T>(ms: seq<Matcher<T>>, inputs: seq<T>)
    requires inputs != [] || ms != []
    ensures GenericMatcher.Run(Step, InclusiveOr(ms), inputs).None? <==>
      forall i :: 0 <= i < |ms| ==> GenericMatcher.Run(Step, ms[i], inputs).None?
    decreases |inputs|
  {
    if inputs == [] {
      assert GenericMatcher.Run(Step, ms[0], inputs).Some?;
    } else {
      var x, rest := inputs[0], inputs[1..];
      var next := Successors(ms, x);
      var survivors := Somes(next);
      var lives := (c: Matcher<T>) => GenericMatcher.Run(Step, c, rest).Some?;
      SomesExists(next, lives);
      assert forall i :: 0 <= i < |ms| ==> next[i] == ms[i].AfterStep(x);
      assert forall i :: 0 <= i < |ms| ==>
        (GenericMatcher.Run(Step, ms[i], inputs).Some? <==>
         next[i].Some? && GenericMatcher.Run(Step, next[i].value, rest).Some?);
      if |survivors| >= 2 {
        OrRunDiesIff(survivors, rest);
      }
    }
  }

  /** `InclusiveOr(for('a'), for('b'))`: `'a'` leads to a matching final
      matcher, unwrapped; `'c'` is dead. */
  lemma EitherLetter()
    ensures var m := InclusiveOr([For('a'), For('b')]);
      m.AfterStep('a') == Some(Final) && m.AfterStep('a').value.DoesMatch()
      && m.AfterStep('c') == None
  {
    var ms := [For('a'), For('b')];
    OrCollapsesToSurvivor(ms, 'a', 0);
    OrStepDeadIff(ms, 'c');
  }
}
