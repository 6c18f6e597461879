/**
  The generic depth-first search over a directed, possibly cyclic graph.

  The callbacks of the original mutate variables they capture. Here those variables
  are a value of type W (the "world") that every callback takes and returns, so a
  statement about every W is a statement about every sequence of callback calls: a
  world may be the log of the calls made so far.
 */
module Dfs {
  import opened Sets

  datatype Search<!N, !E, !S, !W> = Search(
    edgesOf: N -> seq<E>,
    destOf: E -> N,
    next: (W, S, seq<E>) -> (W, Option<S>),
    backtrack: (W, S, S, seq<E>) -> W,
    stop: W -> (W, bool)
  )

  /** How a search ended, and how many rounds of the search loop it took. */
  datatype Outcome<+W> = Outcome(world: W, complete: bool, rounds: nat)

  /** Every path of exactly `bound` edges is pruned, whatever the world and the state. */
  ghost predicate Refuses<N(!new), E(!new), S(!new), W(!new)>(q: Search<N, E, S, W>, bound: nat) {
    forall w: W, s: S, p: seq<E> :: |p| == bound ==> q.next(w, s, p).1.None?
  }

  /** The recursive search: the edges es still to be tried from a node reached by path in state s. */
  ghost function Visit<N(!new), E(!new), S(!new), W(!new)>(
    q: Search<N, E, S, W>, bound: nat, w: W, s: S, path: seq<E>, es: seq<E>): Outcome<W>
    requires Refuses(q, bound) && |path| < bound
    decreases bound - |path|, |es|
  {
    var (w0, stopped) := q.stop(w);
    if stopped then Outcome(w0, false, 0)
    else if es == [] then Outcome(w0, true, 1)
    else
      var extended := path + [es[0]];
      var (w1, r) := q.next(w0, s, extended);
      match r
      case None =>
        var rest := Visit(q, bound, w1, s, path, es[1..]);
        Outcome(rest.world, rest.complete, 1 + rest.rounds)
      case Some(s1) =>
        var inner := Visit(q, bound, w1, s1, extended, q.edgesOf(q.destOf(es[0])));
        if !inner.complete then Outcome(inner.world, false, 1 + inner.rounds)
        else
          var w2 := q.backtrack(inner.world, s, s1, extended);
          var rest := Visit(q, bound, w2, s, path, es[1..]);
          Outcome(rest.world, rest.complete, 1 + inner.rounds + rest.rounds)
  }

  /**
    What is left once the top frame ended in o: report the backtrack to the frame below, step that
    frame past the edge it descended through, finish it, and so on down. `lower` holds the frames
    below the top one.
   */
  ghost function Finish<N(!new), E(!new), S(!new), W(!new)>(
    q: Search<N, E, S, W>, bound: nat, o: Outcome<W>, lower: seq<seq<E>>, states: seq<S>, path: seq<E>): Outcome<W>
    requires Refuses(q, bound) && |path| < bound
    requires |states| == |lower| + 1 == |path| + 1
    requires forall k :: 0 <= k < |lower| ==> lower[k] != []
    decreases |lower|
  {
    if lower == [] || !o.complete then o
    else
      var t := |lower| - 1;
      var w := q.backtrack(o.world, states[t], states[t + 1], path);
      var rest := Finish(q, bound, Visit(q, bound, w, states[t], path[..t], lower[t][1..]),
                         lower[..t], states[..t + 1], path[..t]);
      Outcome(rest.world, rest.complete, o.rounds + rest.rounds)
  }

  /** What an explicit stack still has to do. */
  ghost function Resume<N(!new), E(!new), S(!new), W(!new)>(
    q: Search<N, E, S, W>, bound: nat, w: W, stack: seq<seq<E>>, states: seq<S>, path: seq<E>): Outcome<W>
    requires Refuses(q, bound) && |path| < bound
    requires |stack| == |states| == |path| + 1
    requires forall k :: 0 <= k < |path| ==> stack[k] != []
  {
    Finish(q, bound, Visit(q, bound, w, states[|path|], path, stack[|path|]), stack[..|path|], states, path)
  }

  /** `stack.back().advance(1)` */
  function Advance<E>(stack: seq<seq<E>>): (r: seq<seq<E>>)
    requires |stack| > 0 && stack[|stack| - 1] != []
    ensures |r| == |stack|
    ensures forall k :: 0 <= k < |stack| - 1 ==> r[k] == stack[k]
  {
    stack[|stack| - 1 := stack[|stack| - 1][1..]]
  }

  lemma FinishLater<N(!new), E(!new), S(!new), W(!new)>(
    q: Search<N, E, S, W>, bound: nat, o: Outcome<W>, k: nat, lower: seq<seq<E>>, states: seq<S>, path: seq<E>)
    requires Refuses(q, bound) && |path| < bound
    requires |states| == |lower| + 1 == |path| + 1
    requires forall k :: 0 <= k < |lower| ==> lower[k] != []
    ensures
      var early := Finish(q, bound, o, lower, states, path);
      Finish(q, bound, o.(rounds := k + o.rounds), lower, states, path) == early.(rounds := k + early.rounds)
  {
  }

  /** At the start the stack stands for the whole search, and a stopped search does nothing more. */
  lemma ResumeEnds<N(!new), E(!new), S(!new), W(!new)>(
    q: Search<N, E, S, W>, bound: nat, w: W, stack: seq<seq<E>>, states: seq<S>, path: seq<E>)
    requires Refuses(q, bound) && |path| < bound
    requires |stack| == |states| == |path| + 1
    requires forall k :: 0 <= k < |path| ==> stack[k] != []
    ensures path == [] ==> Resume(q, bound, w, stack, states, path) == Visit(q, bound, w, states[0], [], stack[0])
    ensures q.stop(w).1 ==> Resume(q, bound, w, stack, states, path) == Outcome(q.stop(w).0, false, 0)
  {
  }

  /** A frame without edges left is popped, and the frame below steps past the edge that led to it. */
  lemma ResumePopped<N(!new), E(!new), S(!new), W(!new)>(
    q: Search<N, E, S, W>, bound: nat, w: W, stack: seq<seq<E>>, states: seq<S>, path: seq<E>)
    requires Refuses(q, bound) && |path| < bound
    requires |stack| == |states| == |path| + 1
    requires forall k :: 0 <= k < |path| ==> stack[k] != []
    requires !q.stop(w).1 && stack[|path|] == []
    ensures
      var top, w0 := |path|, q.stop(w).0;
      Resume(q, bound, w, stack, states, path) ==
      if top == 0 then Outcome(w0, true, 1)
      else
        var w1 := q.backtrack(w0, states[top - 1], states[top], path);
        var after := Resume(q, bound, w1, Advance(stack[..top]), states[..top], path[..top - 1]);
        after.(rounds := 1 + after.rounds)
  {
    var top := |path|;
    if top > 0 {
      assert Advance(stack[..top])[..top - 1] == stack[..top][..top - 1];
    }
  }

  /** Refusing the next edge only advances the top frame. */
  lemma ResumeRefused<N(!new), E(!new), S(!new), W(!new)>(
    q: Search<N, E, S, W>, bound: nat, w: W, stack: seq<seq<E>>, states: seq<S>, path: seq<E>)
    requires Refuses(q, bound) && |path| < bound
    requires |stack| == |states| == |path| + 1
    requires forall k :: 0 <= k < |path| ==> stack[k] != []
    requires !q.stop(w).1 && stack[|path|] != []
    requires q.next(q.stop(w).0, states[|path|], path + [stack[|path|][0]]).1.None?
    ensures
      var w1 := q.next(q.stop(w).0, states[|path|], path + [stack[|path|][0]]).0;
      var after := Resume(q, bound, w1, Advance(stack), states, path);
      Resume(q, bound, w, stack, states, path) == after.(rounds := 1 + after.rounds)
  {
    var top := |path|;
    var w1 := q.next(q.stop(w).0, states[top], path + [stack[top][0]]).0;
    assert Advance(stack)[..top] == stack[..top];
    FinishLater(q, bound, Visit(q, bound, w1, states[top], path, stack[top][1..]), 1, stack[..top], states, path);
  }

  /** Accepting the next edge pushes the edges of its destination. */
  lemma ResumeAccepted<N(!new), E(!new), S(!new), W(!new)>(
    q: Search<N, E, S, W>, bound: nat, w: W, stack: seq<seq<E>>, states: seq<S>, path: seq<E>)
    requires Refuses(q, bound) && |path| < bound
    requires |stack| == |states| == |path| + 1
    requires forall k :: 0 <= k < |path| ==> stack[k] != []
    requires !q.stop(w).1 && stack[|path|] != []
    requires q.next(q.stop(w).0, states[|path|], path + [stack[|path|][0]]).1.Some?
    ensures
      var e := stack[|path|][0];
      var (w1, r) := q.next(q.stop(w).0, states[|path|], path + [e]);
      var after := Resume(q, bound, w1, stack + [q.edgesOf(q.destOf(e))], states + [r.value], path + [e]);
      Resume(q, bound, w, stack, states, path) == after.(rounds := 1 + after.rounds)
  {
    var top := |path|;
    var e := stack[top][0];
    var (w1, r) := q.next(q.stop(w).0, states[top], path + [e]);
    var below := q.edgesOf(q.destOf(e));
    var stack1, states1, path1 := stack + [below], states + [r.value], path + [e];
    assert stack1[..top + 1] == stack;
    var inner := Visit(q, bound, w1, r.value, path1, below);
    if inner.complete {
      assert states1[..top + 1] == states && path1[..top] == path;
      var w2 := q.backtrack(inner.world, states[top], r.value, path1);
      var rest := Visit(q, bound, w2, states[top], path, stack[top][1..]);
      FinishLater(q, bound, rest, 1 + inner.rounds, stack[..top], states, path);
    }
  }

  /**
    The search loop. `stack` holds, per open node, the edges not yet finished; `path` keeps
    entries of abandoned branches past the open ones, exactly as the original vector does.
   */
  method Run<N(!new), E(!new), S(!new), W(!new)>(
    q: Search<N, E, S, W>, ghost bound: nat, root: N, initial: S, start: W) returns (world: W, complete: bool)
    requires Refuses(q, bound) && 0 < bound
    ensures
      var o := Visit(q, bound, start, initial, [], q.edgesOf(root));
      world == o.world && complete == o.complete
  {
    hide Resume;
    var stack := [q.edgesOf(root)];
    var states := [initial];
    var path: seq<E> := [];
    world := start;
    ghost var goal := Visit(q, bound, start, initial, [], q.edgesOf(root));
    ResumeEnds(q, bound, start, stack, states, []);
    while true
      invariant |stack| == |states| > 0 && |path| >= |stack| - 1
      invariant |stack| <= bound
      invariant forall k :: 0 <= k < |stack| - 1 ==> stack[k] != []
      invariant var o := Resume(q, bound, world, stack, states, path[..|stack| - 1]);
                o.world == goal.world && o.complete == goal.complete
      decreases Resume(q, bound, world, stack, states, path[..|stack| - 1]).rounds
    {
      ghost var trail, before := path[..|stack| - 1], world;
      var (world0, stopped) := q.stop(world);
      world := world0;
      if stopped {
        ResumeEnds(q, bound, before, stack, states, trail);
        return world, false;
      }
      if stack[|stack| - 1] == [] {
        ResumePopped(q, bound, before, stack, states, trail);
        stack := stack[..|stack| - 1];
        if stack == [] {
          return world, true;
        }
        var size := |states|;
        world := q.backtrack(world, states[size - 2], states[size - 1], path[..size - 1]);
        states := states[..size - 1];
        stack := Advance(stack);
        assert trail[..size - 2] == path[..|stack| - 1];
      } else {
        var nextEdge := stack[|stack| - 1][0];
        if |path| < |stack| {
          path := path + [nextEdge];
        }
        path := path[|stack| - 1 := nextEdge];
        assert path[..|stack|] == trail + [nextEdge];
        var (world1, stateOpt) := q.next(world, states[|stack| - 1], path[..|stack|]);
        if stateOpt.Some? {
          ResumeAccepted(q, bound, before, stack, states, trail);
          stack := stack + [q.edgesOf(q.destOf(nextEdge))];
          states := states + [stateOpt.value];
        } else {
          ResumeRefused(q, bound, before, stack, states, trail);
          stack := Advance(stack);
          assert path[..|stack| - 1] == trail;
        }
        world := world1;
      }
    }
  }

  /** The bound only shows that the search ends: any two bounds give the same search. */
  lemma {:induction false} BoundIsIrrelevant<N(!new), E(!new), S(!new), W(!new)>(
    q: Search<N, E, S, W>, b1: nat, b2: nat, w: W, s: S, path: seq<E>, es: seq<E>)
    requires Refuses(q, b1) && Refuses(q, b2) && |path| < b1 && |path| < b2
    ensures Visit(q, b1, w, s, path, es) == Visit(q, b2, w, s, path, es)
    decreases b1 - |path|, |es|
  {
    var (w0, stopped) := q.stop(w);
    if !stopped && es != [] {
      var extended := path + [es[0]];
      var (w1, r) := q.next(w0, s, extended);
      if r.None? {
        BoundIsIrrelevant(q, b1, b2, w1, s, path, es[1..]);
      } else {
        var below := q.edgesOf(q.destOf(es[0]));
        BoundIsIrrelevant(q, b1, b2, w1, r.value, extended, below);
        var inner := Visit(q, b1, w1, r.value, extended, below);
        BoundIsIrrelevant(q, b1, b2, q.backtrack(inner.world, s, r.value, extended), s, path, es[1..]);
      }
    }
  }

  /** A search is cut short only by its stop condition, called last. */
  lemma {:induction false} IncompleteOnlyWhenStopped<N(!new), E(!new), S(!new), W(!new)>(
    q: Search<N, E, S, W>, bound: nat, w: W, s: S, path: seq<E>, es: seq<E>)
    requires Refuses(q, bound) && |path| < bound
    ensures
      var o := Visit(q, bound, w, s, path, es);
      !o.complete ==> exists w' :: q.stop(w') == (o.world, true)
    decreases bound - |path|, |es|
  {
    var (w0, stopped) := q.stop(w);
    if !stopped && es != [] {
      var extended := path + [es[0]];
      var (w1, r) := q.next(w0, s, extended);
      if r.None? {
        IncompleteOnlyWhenStopped(q, bound, w1, s, path, es[1..]);
      } else {
        var below := q.edgesOf(q.destOf(es[0]));
        IncompleteOnlyWhenStopped(q, bound, w1, r.value, extended, below);
        var inner := Visit(q, bound, w1, r.value, extended, below);
        IncompleteOnlyWhenStopped(q, bound, q.backtrack(inner.world, s, r.value, extended), s, path, es[1..]);
      }
    }
  }
}
