/** Optional values and the "drop the absent ones" filter used by the matchers. */
module Options {

  /** A value or its absence; `None` stands for ts-do-lang's `null`. */
  datatype Option<+T> = None | Some(value: T)

  /** The values of the `Some` entries of `opts`, in their original order:
      the successors that remain once the `null` ones are dropped. */
  function Somes<A>(opts: seq<Option<A>>): (r: seq<A>)
    ensures |r| <= |opts|
  {
    if opts == [] then []
    else (if opts[0].Some? then [opts[0].value] else []) + Somes(opts[1..])
  }

  /** Filtering distributes over concatenation: the filter keeps relative order. */
  lemma {:induction false} SomesAppend<A>(a: seq<Option<A>>, b: seq<Option<A>>)
    ensures Somes(a + b) == Somes(a) + Somes(b)
  {
    if a == [] {
      assert a + b == b;
    } else {
      assert (a + b)[0] == a[0];
      assert (a + b)[1..] == a[1..] + b;
      SomesAppend(a[1..], b);
    }
  }

  /** The filter is empty exactly when every entry is absent. */
  lemma {:induction false} SomesEmpty<A>(opts: seq<Option<A>>)
    ensures Somes(opts) == [] <==> forall i :: 0 <= i < |opts| ==> opts[i].None?
  {
    if opts != [] {
      SomesEmpty(opts[1..]);
      assert forall i :: 1 <= i < |opts| ==> opts[i] == opts[1..][i - 1];
    }
  }

  /** When only entry `j` is present, the filter is exactly that entry's value. */
  lemma {:induction false} SomesOnlyOne<A>(opts: seq<Option<A>>, j: nat)
    requires j < |opts| && opts[j].Some?
    requires forall i :: 0 <= i < |opts| && i != j ==> opts[i].None?
    ensures Somes(opts) == [opts[j].value]
  {
    var before, after := opts[..j], opts[j + 1..];
    assert opts == before + [opts[j]] + after;
    SomesAppend(before + [opts[j]], after);
    SomesAppend(before, [opts[j]]);
    assert Somes([opts[j]]) == [opts[j].value] by {
      assert [opts[j]][1..] == [];
    }
    SomesEmpty(before);
    SomesEmpty(after);
    assert forall i :: 0 <= i < |after| ==> after[i] == opts[j + 1 + i];
  }

  /** Two present entries leave at least two values. */
  lemma {:induction false} SomesAtLeastTwo<A>(opts: seq<Option<A>>, i: nat, j: nat)
    requires i < j < |opts| && opts[i].Some? && opts[j].Some?
    ensures |Somes(opts)| >= 2
  {
    var left, right := opts[..j], opts[j..];
    assert opts == left + right;
    SomesAppend(left, right);
    assert Somes(left) != [] by {
      SomesEmpty(left);
      assert left[i] == opts[i];
    }
    assert Somes(right) != [] by {
      SomesEmpty(right);
      assert right[0] == opts[j];
    }
  }

  /** Some value of the filter satisfies `p` exactly when some present entry does. */
  lemma {:induction false} SomesExists<A>(opts: seq<Option<A>>, p: A -> bool)
    ensures (exists k :: 0 <= k < |Somes(opts)| && p(Somes(opts)[k]))
        <==> (exists i :: 0 <= i < |opts| && opts[i].Some? && p(opts[i].value))
  {
    if opts != [] {
      var head := if opts[0].Some? then [opts[0].value] else [];
      var rest := opts[1..];
      SomesExists(rest, p);
      assert Somes(opts) == head + Somes(rest);
      if exists k :: 0 <= k < |Somes(opts)| && p(Somes(opts)[k]) {
        var k :| 0 <= k < |Somes(opts)| && p(Somes(opts)[k]);
        if k < |head| {
          assert opts[0].Some? && p(opts[0].value);
        } else {
          assert Somes(opts)[k] == Somes(rest)[k - |head|];
          var i :| 0 <= i < |rest| && rest[i].Some? && p(rest[i].value);
          assert opts[i + 1] == rest[i];
        }
      }
      if exists i :: 0 <= i < |opts| && opts[i].Some? && p(opts[i].value) {
        var i :| 0 <= i < |opts| && opts[i].Some? && p(opts[i].value);
        if i == 0 {
          assert Somes(opts)[0] == opts[0].value;
        } else {
          assert rest[i - 1] == opts[i];
          var k :| 0 <= k < |Somes(rest)| && p(Somes(rest)[k]);
          assert Somes(opts)[k + |head|] == Somes(rest)[k];
        }
      }
    }
  }
}
