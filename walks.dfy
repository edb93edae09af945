/** The stepping loop the streamline and stream-band tracers share: from a start state,
    repeat a partial step, which either refuses or emits a value whose position the next
    step starts from, until a step is refused or a budget of steps runs out.

    The step is a parameter here, so these facts hold whatever the field and the box. */
module Walks {
  import opened Utils

  /** The identity, for walks whose emitted values are their positions. */
  function Id<A>(a: A): A { a }

  /** The values emitted from `a` within `budget` steps. */
  function Walk<A, T>(step: A -> Option<T>, from: T -> A, a: A, budget: nat): (out: seq<T>)
    ensures |out| <= budget
    decreases budget
  {
    if budget == 0 then []
    else match step(a)
      case None => []
      case Some(t) => [t] + Walk(step, from, from(t), budget - 1)
  }

  /** The state step `i` of `out` starts from: `a` for the first, otherwise the position
      of the value emitted before it; `StartOf(from, a, out, |out|)` is where `out` ends. */
  function StartOf<A, T>(from: T -> A, a: A, out: seq<T>, i: nat): A
    requires i <= |out|
  {
    if i == 0 then a else from(out[i - 1])
  }

  /** Each value of `out` is what the step emits from the state before it. */
  ghost predicate Chain<A, T>(step: A -> Option<T>, from: T -> A, a: A, out: seq<T>) {
    forall i :: 0 <= i < |out| ==> step(StartOf(from, a, out, i)) == Some(out[i])
  }

  /** Taking the next step from the end of a chain extends it. */
  lemma ChainPush<A, T>(step: A -> Option<T>, from: T -> A, a: A, out: seq<T>, t: T)
    requires Chain(step, from, a, out) && step(StartOf(from, a, out, |out|)) == Some(t)
    ensures Chain(step, from, a, out + [t])
  {
    var ext := out + [t];
    forall i | 0 <= i < |ext|
      ensures step(StartOf(from, a, ext, i)) == Some(ext[i])
    {
      if i < |out| {
        var s := StartOf(from, a, out, i);
        assert step(s) == Some(out[i]);
        assert StartOf(from, a, ext, i) == s;
      }
    }
  }

  /** A walk is a chain, and when it is shorter than its budget the step from where it
      ends is refused. */
  lemma {:induction false} WalkIsChain<A, T>(step: A -> Option<T>, from: T -> A, a: A, budget: nat)
    ensures Chain(step, from, a, Walk(step, from, a, budget))
    ensures var out := Walk(step, from, a, budget);
      |out| < budget ==> step(StartOf(from, a, out, |out|)).None?
    decreases budget
  {
    if budget > 0 && step(a).Some? {
      var t := step(a).value;
      var rest := Walk(step, from, from(t), budget - 1);
      WalkIsChain(step, from, from(t), budget - 1);
      ChainCons(step, from, a, t, rest);
    }
  }

  /** A step from `a` followed by a chain from where it lands is a chain from `a`,
      ending where the second chain ends. */
  lemma ChainCons<A, T>(step: A -> Option<T>, from: T -> A, a: A, t: T, rest: seq<T>)
    requires step(a) == Some(t) && Chain(step, from, from(t), rest)
    ensures Chain(step, from, a, [t] + rest)
    ensures StartOf(from, a, [t] + rest, |rest| + 1) == StartOf(from, from(t), rest, |rest|)
  {
    var out := [t] + rest;
    forall i | 0 <= i < |out|
      ensures step(StartOf(from, a, out, i)) == Some(out[i])
    {
      if i > 0 {
        assert StartOf(from, a, out, i) == StartOf(from, from(t), rest, i - 1) && out[i] == rest[i - 1];
      }
    }
  }

  /** Conversely, a chain that stopped, because the budget ran out or the next step is
      refused, is the walk: together with `WalkIsChain` this characterises `Walk`. */
  lemma {:induction false} ChainIsWalk<A, T>(step: A -> Option<T>, from: T -> A, a: A, out: seq<T>, budget: nat)
    requires Chain(step, from, a, out) && |out| <= budget
    requires |out| == budget || step(StartOf(from, a, out, |out|)).None?
    ensures Walk(step, from, a, budget) == out
    decreases budget
  {
    if out != [] {
      assert step(a) == Some(out[0]) by {
        assert StartOf(from, a, out, 0) == a;
      }
      var rest := out[1..];
      forall j | 0 <= j < |rest|
        ensures step(StartOf(from, from(out[0]), rest, j)) == Some(rest[j])
      {
        assert StartOf(from, from(out[0]), rest, j) == StartOf(from, a, out, j + 1) && rest[j] == out[j + 1];
      }
      assert StartOf(from, from(out[0]), rest, |rest|) == StartOf(from, a, out, |out|);
      ChainIsWalk(step, from, from(out[0]), rest, budget - 1);
      assert out == [out[0]] + rest;
    }
  }
}
