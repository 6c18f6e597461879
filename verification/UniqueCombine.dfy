/**
  Systems of distinct representatives: one element from each range, no element twice, found by
  augmenting paths. The original's pool of stable pointers is a naming of values, so values stand
  for the pointers here.
 */
module UniqueCombine {
  import opened Sets

  ghost predicate Representatives<T(!new)>(ranges: seq<seq<T>>, r: seq<T>) {
    && |r| == |ranges|
    && (forall i :: 0 <= i < |r| ==> r[i] in ranges[i])
    && (forall i, j :: 0 <= i < j < |r| ==> r[i] != r[j])
  }

  ghost function Offered<T(!new)>(ranges: seq<seq<T>>, s: set<nat>): set<T> {
    set i, x | i in s && i < |ranges| && x in ranges[i] :: x
  }

  /** The ranges of s together offer fewer values than there are ranges in s. */
  ghost predicate Violator<T(!new)>(ranges: seq<seq<T>>, s: set<nat>) {
    (forall i :: i in s ==> i < |ranges|) && |Offered(ranges, s)| < |s|
  }

  /** A violator rules out every choice of distinct representatives. */
  lemma {:induction false} ViolatorExcludes<T(!new)>(ranges: seq<seq<T>>, s: set<nat>, r: seq<T>)
    requires Violator(ranges, s)
    ensures !Representatives(ranges, r)
  {
    if Representatives(ranges, r) {
      ChosenSize(ranges, s, r);
      SubsetSize(set i | i in s :: r[i], Offered(ranges, s));
    }
  }

  lemma {:induction false} ChosenSize<T(!new)>(ranges: seq<seq<T>>, s: set<nat>, r: seq<T>)
    requires Representatives(ranges, r) && forall i :: i in s ==> i < |ranges|
    ensures |set i | i in s :: r[i]| == |s|
    decreases s
  {
    var chosen := set i | i in s :: r[i];
    if s != {} {
      var k :| k in s;
      ChosenSize(ranges, s - {k}, r);
      assert chosen == (set i | i in s - {k} :: r[i]) + {r[k]};
    } else {
      assert chosen == {};
    }
  }

  /** nodeToSelection and selectionToNode describe one partial matching, from two sides. */
  ghost predicate Matched<T(!new)>(ranges: seq<seq<T>>, nodeToSelection: map<T, nat>, selectionToNode: seq<Option<T>>) {
    && |selectionToNode| == |ranges|
    && (forall i :: 0 <= i < |ranges| && selectionToNode[i].Some? ==>
          Holds(ranges, nodeToSelection, i, selectionToNode[i].value))
    && (forall x :: x in nodeToSelection ==> Held(nodeToSelection, selectionToNode, x))
  }

  ghost predicate Holds<T(!new)>(ranges: seq<seq<T>>, nodeToSelection: map<T, nat>, i: nat, x: T)
    requires i < |ranges|
  {
    x in ranges[i] && x in nodeToSelection && nodeToSelection[x] == i
  }

  ghost predicate Held<T(!new)>(nodeToSelection: map<T, nat>, selectionToNode: seq<Option<T>>, x: T)
    requires x in nodeToSelection
  {
    nodeToSelection[x] < |selectionToNode| && selectionToNode[nodeToSelection[x]] == Some(x)
  }

  /**
    Every discovered node was discovered from the start range or from the owner of a node
    discovered before it.
   */
  ghost predicate Discovery<T(!new)>(
    ranges: seq<seq<T>>, selectionToNode: seq<Option<T>>, start: nat, parent: map<T, nat>, found: seq<T>)
  {
    && start < |selectionToNode| == |ranges|
    && (forall k :: 0 <= k < |found| ==> Traced(ranges, selectionToNode, start, parent, found, k))
    && (forall j, k :: 0 <= j < k < |found| ==> found[j] != found[k])
  }

  ghost predicate Traced<T(!new)>(
    ranges: seq<seq<T>>, selectionToNode: seq<Option<T>>, start: nat, parent: map<T, nat>, found: seq<T>, k: nat)
    requires k < |found| && |selectionToNode| == |ranges|
  {
    && found[k] in parent && parent[found[k]] < |ranges| && found[k] in ranges[parent[found[k]]]
    && (parent[found[k]] == start ||
        exists j :: 0 <= j < k && selectionToNode[parent[found[k]]] == Some(found[j]))
  }

  /** The breadth-first search's bookkeeping between two rounds. */
  ghost predicate Frontier<T(!new)>(
    ranges: seq<seq<T>>, nodeToSelection: map<T, nat>, start: nat, parent: map<T, nat>, found: seq<T>,
    visited: set<nat>, done: set<nat>, queue: seq<nat>)
  {
    && (forall x :: x in parent <==> x in found)
    && Owners(nodeToSelection, start, parent, visited)
    && Queued(ranges, visited, done, queue)
    && (forall i, x :: i in done && i < |ranges| && x in ranges[i] ==> x in parent)
  }

  /** The ranges visited are the start range and the owners of the nodes discovered, each once. */
  ghost predicate Owners<T(!new)>(nodeToSelection: map<T, nat>, start: nat, parent: map<T, nat>, visited: set<nat>) {
    && start in visited && |visited| == |parent.Keys| + 1
    && (forall x :: x in parent ==> x in nodeToSelection && nodeToSelection[x] in visited)
    && (forall i :: i in visited && i != start ==> exists x :: Owner(nodeToSelection, parent, x, i))
  }

  ghost predicate Owner<T(!new)>(nodeToSelection: map<T, nat>, parent: map<T, nat>, x: T, i: nat) {
    x in parent && x in nodeToSelection && nodeToSelection[x] == i
  }

  /** The ranges visited but not done are the queue, without repetition. */
  ghost predicate Queued<T(!new)>(ranges: seq<seq<T>>, visited: set<nat>, done: set<nat>, queue: seq<nat>) {
    && done <= visited && (forall i :: i in visited ==> i < |ranges|)
    && (forall i :: i in visited && i !in done <==> i in queue)
    && (forall j, k :: 0 <= j < k < |queue| ==> queue[j] != queue[k])
  }

  lemma Discover<T(!new)>(
    ranges: seq<seq<T>>, nodeToSelection: map<T, nat>, selectionToNode: seq<Option<T>>, start: nat,
    parent: map<T, nat>, found: seq<T>, visited: set<nat>, done: set<nat>, queue: seq<nat>, val: T)
    requires Matched(ranges, nodeToSelection, selectionToNode)
    requires Discovery(ranges, selectionToNode, start, parent, found)
    requires Frontier(ranges, nodeToSelection, start, parent, found, visited, done, queue)
    requires selectionToNode[start] == None && queue != [] && queue[0] < |ranges|
    requires val in ranges[queue[0]] && val !in parent
    ensures Discovery(ranges, selectionToNode, start, parent[val := queue[0]], found + [val])
    ensures val in nodeToSelection ==>
      var owner := nodeToSelection[val];
      Frontier(ranges, nodeToSelection, start, parent[val := queue[0]], found + [val],
               visited + {owner}, done, queue + [owner])
  {
    assert queue[0] in queue;
    DiscoverTraced(ranges, nodeToSelection, selectionToNode, start, parent, found, visited, done, queue, val);
    if val in nodeToSelection {
      OwnerIsNew(ranges, nodeToSelection, selectionToNode, start, parent, visited, val);
      DiscoverOwner(nodeToSelection, start, parent, visited, val, queue[0]);
      Enqueue(ranges, visited, done, queue, nodeToSelection[val]);
      hide Matched, Discovery, Owners, Queued;
    }
  }

  lemma DiscoverTraced<T(!new)>(
    ranges: seq<seq<T>>, nodeToSelection: map<T, nat>, selectionToNode: seq<Option<T>>, start: nat,
    parent: map<T, nat>, found: seq<T>, visited: set<nat>, done: set<nat>, queue: seq<nat>, val: T)
    requires Matched(ranges, nodeToSelection, selectionToNode)
    requires Discovery(ranges, selectionToNode, start, parent, found)
    requires Frontier(ranges, nodeToSelection, start, parent, found, visited, done, queue)
    requires queue != [] && queue[0] < |ranges| && val in ranges[queue[0]] && val !in parent
    ensures Discovery(ranges, selectionToNode, start, parent[val := queue[0]], found + [val])
  {
    var current := queue[0];
    var parent1, found1 := parent[val := current], found + [val];
    assert current in queue;
    forall k | 0 <= k < |found1| ensures Traced(ranges, selectionToNode, start, parent1, found1, k) {
      if k < |found| {
        assert Traced(ranges, selectionToNode, start, parent, found, k);
        if parent[found[k]] != start {
          var j :| 0 <= j < k && selectionToNode[parent[found[k]]] == Some(found[j]);
          assert found1[j] == found[j];
        }
      } else if current != start {
        var x :| Owner(nodeToSelection, parent, x, current);
        var j :| 0 <= j < |found| && found[j] == x;
        assert Held(nodeToSelection, selectionToNode, x) && found1[j] == x;
      }
    }
  }

  lemma OwnerIsNew<T(!new)>(
    ranges: seq<seq<T>>, nodeToSelection: map<T, nat>, selectionToNode: seq<Option<T>>, start: nat,
    parent: map<T, nat>, visited: set<nat>, val: T)
    requires Matched(ranges, nodeToSelection, selectionToNode) && Owners(nodeToSelection, start, parent, visited)
    requires start < |ranges| && selectionToNode[start] == None && val !in parent && val in nodeToSelection
    ensures nodeToSelection[val] < |ranges| && nodeToSelection[val] !in visited
  {
    hide Holds;
    assert Held(nodeToSelection, selectionToNode, val);
  }

  lemma MapGrows<T>(m: map<T, nat>, x: T, i: nat)
    requires x !in m
    ensures |m[x := i].Keys| == |m.Keys| + 1
  {
    assert m[x := i].Keys == m.Keys + {x};
  }

  lemma OwnersExtend<T(!new)>(
    nodeToSelection: map<T, nat>, parent: map<T, nat>, parent1: map<T, nat>, i: nat)
    requires exists x :: Owner(nodeToSelection, parent, x, i)
    requires parent.Keys <= parent1.Keys
    ensures exists x :: Owner(nodeToSelection, parent1, x, i)
  {
    var x :| Owner(nodeToSelection, parent, x, i);
    assert Owner(nodeToSelection, parent1, x, i);
  }

  lemma DiscoverOwner<T(!new)>(
    nodeToSelection: map<T, nat>, start: nat, parent: map<T, nat>, visited: set<nat>, val: T, current: nat)
    requires Owners(nodeToSelection, start, parent, visited)
    requires val !in parent && val in nodeToSelection && nodeToSelection[val] !in visited
    ensures Owners(nodeToSelection, start, parent[val := current], visited + {nodeToSelection[val]})
  {
    var owner := nodeToSelection[val];
    var parent1 := parent[val := current];
    MapGrows(parent, val, current);
    assert Owner(nodeToSelection, parent1, val, owner);
    hide Owner;
    forall i | i in visited && i != start ensures exists x :: Owner(nodeToSelection, parent1, x, i) {
      OwnersExtend(nodeToSelection, parent, parent1, i);
    }
  }

  lemma Enqueue<T(!new)>(ranges: seq<seq<T>>, visited: set<nat>, done: set<nat>, queue: seq<nat>, owner: nat)
    requires Queued(ranges, visited, done, queue) && owner < |ranges| && owner !in visited
    ensures Queued(ranges, visited + {owner}, done, queue + [owner])
  {
  }

  lemma Close<T(!new)>(
    ranges: seq<seq<T>>, nodeToSelection: map<T, nat>, start: nat,
    parent: map<T, nat>, found: seq<T>, visited: set<nat>, done: set<nat>, queue: seq<nat>)
    requires Frontier(ranges, nodeToSelection, start, parent, found, visited, done, queue)
    requires queue != [] && queue[0] < |ranges| && forall x :: x in ranges[queue[0]] ==> x in parent
    ensures Frontier(ranges, nodeToSelection, start, parent, found, visited, done + {queue[0]}, queue[1..])
    ensures queue[0] !in done
  {
    assert queue[0] in queue;
  }

  lemma DeadEnd<T(!new)>(
    ranges: seq<seq<T>>, nodeToSelection: map<T, nat>, start: nat,
    parent: map<T, nat>, found: seq<T>, visited: set<nat>, done: set<nat>)
    requires Frontier(ranges, nodeToSelection, start, parent, found, visited, done, [])
    ensures Violator(ranges, visited)
  {
    forall x | x in Offered(ranges, visited) ensures x in parent.Keys {
      var i :| i in visited && i < |ranges| && x in ranges[i];
      assert i in done;
    }
    SubsetSize(Offered(ranges, visited), parent.Keys);
  }

  lemma Begin<T(!new)>(ranges: seq<seq<T>>, nodeToSelection: map<T, nat>, selectionToNode: seq<Option<T>>, start: nat)
    requires start < |ranges| == |selectionToNode|
    ensures Discovery(ranges, selectionToNode, start, map[], [])
    ensures Frontier(ranges, nodeToSelection, start, map[], [], {start}, {}, [start])
  {
  }

  lemma QueueHead<T(!new)>(
    ranges: seq<seq<T>>, nodeToSelection: map<T, nat>, start: nat,
    parent: map<T, nat>, found: seq<T>, visited: set<nat>, done: set<nat>, queue: seq<nat>)
    requires Frontier(ranges, nodeToSelection, start, parent, found, visited, done, queue) && queue != []
    ensures queue[0] < |ranges|
  {
    assert queue[0] in queue;
  }

  /** A breadth-first search for an unclaimed element, or a proof that there is none. */
  method FindAugmentingPath<T(!new, ==)>(
    ranges: seq<seq<T>>, nodeToSelection: map<T, nat>, selectionToNode: seq<Option<T>>, start: nat)
    returns (end: Option<T>, parent: map<T, nat>, ghost found: seq<T>, ghost visited: set<nat>)
    requires Matched(ranges, nodeToSelection, selectionToNode)
    requires start < |ranges| == |selectionToNode| && selectionToNode[start] == None
    ensures Discovery(ranges, selectionToNode, start, parent, found)
    ensures end.Some? ==> found != [] && found[|found| - 1] == end.value && end.value !in nodeToSelection
    ensures end.None? ==> Violator(ranges, visited)
  {
    hide *;
    var q := [start];
    parent, found, visited := map[], [], {start};
    ghost var done: set<nat> := {};
    Begin(ranges, nodeToSelection, selectionToNode, start);
    while q != []
      invariant Discovery(ranges, selectionToNode, start, parent, found)
      invariant Frontier(ranges, nodeToSelection, start, parent, found, visited, done, q)
      decreases Below(|ranges|) - done
    {
      var current := q[0];
      QueueHead(ranges, nodeToSelection, start, parent, found, visited, done, q);
      assert q == [current] + q[1..];
      q := q[1..];
      for k := 0 to |ranges[current]|
        invariant Discovery(ranges, selectionToNode, start, parent, found)
        invariant Frontier(ranges, nodeToSelection, start, parent, found, visited, done, [current] + q)
        invariant forall l :: 0 <= l < k ==> ranges[current][l] in parent
      {
        var val := ranges[current][k];
        if val in parent {
          continue;
        }
        Discover(ranges, nodeToSelection, selectionToNode, start, parent, found, visited, done, [current] + q, val);
        parent := parent[val := current];
        found := found + [val];
        if val !in nodeToSelection {
          return Some(val), parent, found, visited;
        }
        visited := visited + {nodeToSelection[val]};
        assert [current] + q + [nodeToSelection[val]] == [current] + (q + [nodeToSelection[val]]);
        q := q + [nodeToSelection[val]];
      }
      Close(ranges, nodeToSelection, start, parent, found, visited, done, [current] + q);
      assert ([current] + q)[1..] == q;
      done := done + {current};
    }
    DeadEnd(ranges, nodeToSelection, start, parent, found, visited, done);
    return None, parent, found, visited;
  }

  // ----- flipping the path

  /** A matching in which the element `moving` is between two ranges. */
  ghost predicate AlmostMatched<T(!new)>(
    ranges: seq<seq<T>>, nodeToSelection: map<T, nat>, selectionToNode: seq<Option<T>>, moving: T)
  {
    && |selectionToNode| == |ranges|
    && (forall i :: 0 <= i < |ranges| && selectionToNode[i].Some? ==>
          selectionToNode[i].value != moving && Holds(ranges, nodeToSelection, i, selectionToNode[i].value))
    && (forall x :: x in nodeToSelection && x != moving ==> Held(nodeToSelection, selectionToNode, x))
  }

  ghost predicate Flippable<T(!new)>(
    ranges: seq<seq<T>>, nodeToSelection: map<T, nat>, selectionToNode: seq<Option<T>>, start: nat,
    parent: map<T, nat>, found: seq<T>)
  {
    && found != [] && AlmostMatched(ranges, nodeToSelection, selectionToNode, found[|found| - 1])
    && Discovery(ranges, selectionToNode, start, parent, found)
    && selectionToNode[start] == None
  }

  /** The chain behind the node being moved is not disturbed by moving it. */
  lemma FlipKeepsDiscovery<T(!new)>(
    ranges: seq<seq<T>>, selectionToNode: seq<Option<T>>, start: nat,
    parent: map<T, nat>, found: seq<T>, right: nat, j: nat)
    requires Discovery(ranges, selectionToNode, start, parent, found)
    requires found != [] && found[|found| - 1] in parent && right == parent[found[|found| - 1]] != start
    requires right < |selectionToNode| && j < |found| && selectionToNode[right] == Some(found[j])
    ensures Discovery(ranges, selectionToNode[right := Some(found[|found| - 1])], start, parent, found[..j + 1])
  {
    var flipped := selectionToNode[right := Some(found[|found| - 1])];
    var earlier := found[..j + 1];
    forall k | 0 <= k < |earlier| ensures Traced(ranges, flipped, start, parent, earlier, k) {
      assert Traced(ranges, selectionToNode, start, parent, found, k);
      if parent[found[k]] != start {
        var i :| 0 <= i < k && selectionToNode[parent[found[k]]] == Some(found[i]);
        assert earlier[i] == found[i];
      }
    }
  }

  lemma FlipStep<T(!new)>(
    ranges: seq<seq<T>>, nodeToSelection: map<T, nat>, selectionToNode: seq<Option<T>>, moving: T, right: nat)
    requires AlmostMatched(ranges, nodeToSelection, selectionToNode, moving)
    requires right < |ranges| && moving in ranges[right]
    ensures
      var s2n := selectionToNode[right := Some(moving)];
      var n2s := nodeToSelection[moving := right];
      match selectionToNode[right]
      case None => Matched(ranges, n2s, s2n)
      case Some(previous) => AlmostMatched(ranges, n2s, s2n, previous)
  {
    var s2n := selectionToNode[right := Some(moving)];
    var n2s := nodeToSelection[moving := right];
    forall i | 0 <= i < |ranges| && s2n[i].Some?
      ensures Holds(ranges, n2s, i, s2n[i].value)
      ensures i != right ==> s2n[i].value != moving
    {
      if i != right {
        assert Holds(ranges, nodeToSelection, i, selectionToNode[i].value);
      }
    }
    forall x | x in n2s && x != moving && Some(x) != selectionToNode[right]
      ensures Held(n2s, s2n, x)
    {
      assert Held(nodeToSelection, selectionToNode, x);
    }
    if selectionToNode[right].Some? {
      var previous := selectionToNode[right].value;
      forall i | 0 <= i < |ranges| && s2n[i].Some? ensures s2n[i].value != previous {
        if i != right {
          assert Holds(ranges, nodeToSelection, i, selectionToNode[i].value);
          assert Holds(ranges, nodeToSelection, right, previous);
        }
      }
    }
  }

  /** Hands `end` to the range it was discovered from, that range's element on, and so back to start. */
  method Flip<T(!new, ==)>(
    ranges: seq<seq<T>>, n2s: map<T, nat>, s2n: seq<Option<T>>, start: nat,
    end: T, parent: map<T, nat>, ghost found: seq<T>)
    returns (nodeToSelection: map<T, nat>, selectionToNode: seq<Option<T>>)
    requires Flippable(ranges, n2s, s2n, start, parent, found) && found[|found| - 1] == end
    ensures Matched(ranges, nodeToSelection, selectionToNode)
    ensures |selectionToNode| == |s2n|
    ensures forall i :: 0 <= i < |s2n| ==> selectionToNode[i].Some? == (s2n[i].Some? || i == start)
  {
    nodeToSelection, selectionToNode := n2s, s2n;
    var current := Some(end);
    ghost var chain := found;
    while current.Some?
      invariant |selectionToNode| == |s2n| == |ranges| && start < |s2n|
      invariant current.Some? ==> Flippable(ranges, nodeToSelection, selectionToNode, start, parent, chain)
      invariant current.Some? ==> chain[|chain| - 1] == current.value
      invariant current.None? ==> Matched(ranges, nodeToSelection, selectionToNode)
      invariant forall i :: 0 <= i < |s2n| ==>
                  selectionToNode[i].Some? == (s2n[i].Some? || (i == start && current.None?))
      decreases if current.Some? then |chain| else 0
    {
      ghost var last := |chain| - 1;
      assert Traced(ranges, selectionToNode, start, parent, chain, last);
      var right := parent[current.value];
      var previous := selectionToNode[right];
      FlipStep(ranges, nodeToSelection, selectionToNode, current.value, right);
      if previous.Some? {
        ghost var j :| 0 <= j < last && previous == Some(chain[j]);
        FlipKeepsDiscovery(ranges, selectionToNode, start, parent, chain, right, j);
        chain := chain[..j + 1];
      }
      selectionToNode := selectionToNode[right := current];
      nodeToSelection := nodeToSelection[current.value := right];
      current := previous;
    }
  }

  lemma AlmostFromMatched<T(!new)>(
    ranges: seq<seq<T>>, nodeToSelection: map<T, nat>, selectionToNode: seq<Option<T>>, x: T)
    requires Matched(ranges, nodeToSelection, selectionToNode) && x !in nodeToSelection
    ensures AlmostMatched(ranges, nodeToSelection, selectionToNode, x)
  {
  }

  lemma MatchedIsChoice<T(!new)>(
    ranges: seq<seq<T>>, nodeToSelection: map<T, nat>, selectionToNode: seq<Option<T>>, r: seq<T>)
    requires Matched(ranges, nodeToSelection, selectionToNode)
    requires |r| == |selectionToNode| && forall i :: 0 <= i < |r| ==> selectionToNode[i] == Some(r[i])
    ensures Representatives(ranges, r)
  {
    forall i | 0 <= i < |r| ensures Holds(ranges, nodeToSelection, i, r[i]) {
      assert selectionToNode[i].Some?;
    }
  }

  /**
    Distinct representatives of all the ranges, or the empty list when some set of ranges offers
    fewer values than it has members, in which case no choice of representatives exists.
   */
  method UniqueCombine<T(!new, ==)>(ranges: seq<seq<T>>) returns (out: seq<T>)
    ensures Representatives(ranges, out) || (out == [] && exists s :: Violator(ranges, s))
    ensures out == [] && ranges != [] ==> forall r :: !Representatives(ranges, r)
  {
    var nodeToSelection: map<T, nat> := map[];
    var selectionToNode: seq<Option<T>> := seq(|ranges|, _ => None);
    for i := 0 to |ranges|
      invariant Matched(ranges, nodeToSelection, selectionToNode)
      invariant forall k :: 0 <= k < |ranges| ==> selectionToNode[k].Some? == (k < i)
    {
      var end, parent, found, visited := FindAugmentingPath(ranges, nodeToSelection, selectionToNode, i);
      if end.None? {
        forall r ensures !Representatives(ranges, r) {
          ViolatorExcludes(ranges, visited, r);
        }
        return [];
      }
      AlmostFromMatched(ranges, nodeToSelection, selectionToNode, end.value);
      hide Discovery, AlmostMatched;
      nodeToSelection, selectionToNode :=
        Flip(ranges, nodeToSelection, selectionToNode, i, end.value, parent, found);
    }
    out := [];
    for i := 0 to |ranges|
      invariant |out| == i && forall k :: 0 <= k < i ==> selectionToNode[k] == Some(out[k])
    {
      out := out + [selectionToNode[i].value];
    }
    MatchedIsChoice(ranges, nodeToSelection, selectionToNode, out);
  }
}
