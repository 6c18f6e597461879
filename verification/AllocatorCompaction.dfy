/** The blocks an allocator has in use can be compacted. */
module AllocatorCompaction {
  import opened Sets
  import opened FreeLists
  import opened NeighborChain
  import opened Compaction

  /** The used blocks among the given ones, in the same order. */
  function UsedOf(nodes: seq<Node>, ids: seq<nat>): (used: seq<nat>)
    ensures forall id :: id in used <==> id in ids && id < |nodes| && nodes[id].used
  {
    if ids == [] then []
    else
      var last := ids[|ids| - 1];
      assert ids == ids[..|ids| - 1] + [last];
      UsedOf(nodes, ids[..|ids| - 1]) + if last < |nodes| && nodes[last].used then [last] else []
  }

  lemma OneMoreInOrder(nodes: seq<Node>, used: seq<nat>, id: nat)
    requires InOrder(nodes, used) && id < |nodes| && id !in used
    requires OldEnd(nodes, used, |used|) <= nodes[id].dataOffset
    ensures InRange(nodes, used + [id]) && InOrder(nodes, used + [id])
    ensures OldEnd(nodes, used + [id], |used| + 1) == EndOf(nodes[id])
  {
    var more := used + [id];
    forall k | 0 < k < |more| ensures Before(nodes, more, k) {
      assert k < |used| ==> Before(nodes, used, k);
    }
  }

  lemma NextUsed(nodes: seq<Node>, chain: seq<nat>, k: nat)
    requires 0 < k <= |chain|
    ensures
      var id, before := chain[k - 1], UsedOf(nodes, chain[..k - 1]);
      UsedOf(nodes, chain[..k]) == if id < |nodes| && nodes[id].used then before + [id] else before
  {
    assert chain[..k][..k - 1] == chain[..k - 1];
  }

  lemma NextBlock(nodes: seq<Node>, chain: seq<nat>, capacity: nat, k: nat)
    requires ChainOk(nodes, chain, capacity) && 0 < k <= |chain|
    ensures chain[k - 1] < |nodes| && chain[k - 1] !in chain[..k - 1]
    ensures nodes[chain[k - 1]].dataOffset == StartAt(nodes, chain, k - 1)
    ensures StartAt(nodes, chain, k - 1) <= StartAt(nodes, chain, k) == EndOf(nodes[chain[k - 1]])
  {
    assert BlockOk(nodes, chain, k - 1);
  }

  /** The used blocks of the neighbour chain are in address order. */
  lemma {:induction false} ChainInOrder(nodes: seq<Node>, chain: seq<nat>, capacity: nat, k: nat)
    requires ChainOk(nodes, chain, capacity) && k <= |chain|
    ensures
      var used := UsedOf(nodes, chain[..k]);
      InRange(nodes, used) && InOrder(nodes, used) && OldEnd(nodes, used, |used|) <= StartAt(nodes, chain, k)
  {
    if k == 0 {
      assert UsedOf(nodes, chain[..0]) == [];
    } else {
      hide *;
      ChainInOrder(nodes, chain, capacity, k - 1);
      NextUsed(nodes, chain, k);
      NextBlock(nodes, chain, capacity, k);
      var id, before := chain[k - 1], UsedOf(nodes, chain[..k - 1]);
      if nodes[id].used {
        OneMoreInOrder(nodes, before, id);
      }
    }
  }

  /**
    In every state of the allocator, compaction keeps the bytes of every block in use: with the used
    blocks taken in address order, the moves, made directly or as disjunct copies, put each block's
    old bytes at its new offset.
   */
  lemma AllocatorCompacts<T>(mem: seq<T>, nodes: seq<Node>, chain: seq<nat>, capacity: nat)
    requires ChainOk(nodes, chain, capacity) && |mem| == capacity
    ensures
      var used := UsedOf(nodes, chain);
      && InOrder(nodes, used)
      && (forall id :: id in used <==> id in chain && id < |nodes| && nodes[id].used)
      && var ms := MovesOf(nodes, used, |used|);
      && (forall k :: 0 <= k < |ms| ==> ms[k].dst < ms[k].src)
      && AllInBounds(ms, |mem|) && AllInBounds(Split(ms), |mem|)
      && (forall j :: 0 <= j < |used| ==> BlockMoved(mem, Exec(mem, ms), nodes, used, j))
      && (forall j :: 0 <= j < |used| ==> BlockMoved(mem, Exec(mem, Split(ms)), nodes, used, j))
  {
    hide ChainOk, InOrder, MovesOf, Split, BlockMoved, Exec;
    ChainInOrder(nodes, chain, capacity, |chain|);
    assert chain[..|chain|] == chain;
    StartWithin(nodes, chain, capacity, |chain|);
    CompactionKeepsContents(mem, nodes, UsedOf(nodes, chain));
  }

  // ----- the ids defragment returns

  ghost function Used(nodes: seq<Node>): (s: set<nat>)
    ensures forall id :: id in s <==> 0 <= id < |nodes| && nodes[id].used
  {
    set id: nat | id < |nodes| && nodes[id].used
  }

  /** The nodes below n that are not in use, ascending. */
  function Unused(nodes: seq<Node>, n: nat): (r: seq<nat>)
    requires n <= |nodes|
    ensures |r| <= n
  {
    if n == 0 then [] else Unused(nodes, n - 1) + if nodes[n - 1].used then [] else [n - 1]
  }

  lemma {:induction false} UnusedExact(nodes: seq<Node>, n: nat)
    requires n <= |nodes|
    ensures forall id :: id in Unused(nodes, n) <==> 0 <= id < n && !nodes[id].used
    ensures Distinct(Unused(nodes, n))
  {
    if n > 0 {
      UnusedExact(nodes, n - 1);
    }
  }

  /** The stack after the refill by the nodes below n. */
  function Refilled(nodes: seq<Node>, freeNodes: seq<nat>, n: nat): (r: seq<nat>)
    requires n <= |nodes| == |freeNodes|
    ensures |r| == |freeNodes|
  {
    Unused(nodes, n) + freeNodes[|Unused(nodes, n)|..]
  }

  lemma RefillStep(nodes: seq<Node>, freeNodes: seq<nat>, n: nat)
    requires n < |nodes| == |freeNodes|
    ensures |Unused(nodes, n + 1)| == |Unused(nodes, n)| + if nodes[n].used then 0 else 1
    ensures Refilled(nodes, freeNodes, n + 1) ==
            if nodes[n].used then Refilled(nodes, freeNodes, n)
            else Refilled(nodes, freeNodes, n)[|Unused(nodes, n)| := n]
  {
    hide Unused;
    assert Unused(nodes, n + 1) == Unused(nodes, n) + (if nodes[n].used then [] else [n]) by {
      UnusedNext(nodes, n);
    }
  }

  lemma UnusedNext(nodes: seq<Node>, n: nat)
    requires n < |nodes|
    ensures Unused(nodes, n + 1) == Unused(nodes, n) + if nodes[n].used then [] else [n]
  {
  }

  /** The first loop of defragment: unused ids are written from the bottom of the stack. */
  method CollectNodes(nodes: seq<Node>, freeNodes0: seq<nat>)
    returns (usedNodes: seq<nat>, freeNodes: seq<nat>, freeStackPtr: nat)
    requires |freeNodes0| == |nodes|
    ensures usedNodes == UsedOf(nodes, Ids(|nodes|))
    ensures freeStackPtr == |Unused(nodes, |nodes|)|
    ensures freeNodes == Refilled(nodes, freeNodes0, |nodes|)
  {
    hide Unused, Refilled, UsedOf, Ids;
    usedNodes, freeNodes, freeStackPtr := [], freeNodes0, 0;
    NothingCollected(nodes, freeNodes0);
    for i := 0 to |nodes|
      invariant usedNodes == UsedOf(nodes, Ids(i))
      invariant freeStackPtr == |Unused(nodes, i)| && freeNodes == Refilled(nodes, freeNodes0, i)
    {
      NextId(nodes, i);
      RefillStep(nodes, freeNodes0, i);
      if nodes[i].used {
        usedNodes := usedNodes + [i];
      } else {
        freeNodes := freeNodes[freeStackPtr := i];
        freeStackPtr := freeStackPtr + 1;
      }
    }
  }

  function Ids(n: nat): (r: seq<nat>)
    ensures |r| == n && forall k :: 0 <= k < n ==> r[k] == k
  {
    seq(n, k requires 0 <= k => k)
  }

  lemma NothingCollected(nodes: seq<Node>, freeNodes: seq<nat>)
    requires |freeNodes| == |nodes|
    ensures UsedOf(nodes, Ids(0)) == [] && Unused(nodes, 0) == [] && Refilled(nodes, freeNodes, 0) == freeNodes
  {
  }

  lemma NextId(nodes: seq<Node>, n: nat)
    requires n < |nodes|
    ensures UsedOf(nodes, Ids(n + 1)) == if nodes[n].used then UsedOf(nodes, Ids(n)) + [n] else UsedOf(nodes, Ids(n))
  {
    assert Ids(n + 1)[..n] == Ids(n);
  }

  lemma UsedAndUnused(nodes: seq<Node>)
    ensures |Used(nodes)| + |Unused(nodes, |nodes|)| == |nodes|
  {
    var unused := Unused(nodes, |nodes|);
    UnusedExact(nodes, |nodes|);
    ElementsSize(unused);
    assert Used(nodes) !! Elements(unused) && Used(nodes) + Elements(unused) == Below(|nodes|);
    assert |Used(nodes) + Elements(unused)| == |Used(nodes)| + |Elements(unused)|;
  }

  lemma {:induction false} ElementsAtMost(s: seq<nat>)
    ensures |Elements(s)| <= |s|
  {
    if s == [] {
      assert Elements(s) == {};
    } else {
      ElementsAtMost(s[..|s| - 1]);
      assert s == s[..|s| - 1] + [s[|s| - 1]];
      assert Elements(s) == Elements(s[..|s| - 1]) + {s[|s| - 1]};
    }
  }

  lemma {:induction false} FullyUsed(s: seq<nat>)
    requires |Elements(s)| == |s|
    ensures Distinct(s)
  {
    if s != [] {
      var n := |s| - 1;
      assert s == s[..n] + [s[n]];
      assert Elements(s) == Elements(s[..n]) + {s[n]};
      ElementsAtMost(s[..n]);
      FullyUsed(s[..n]);
      assert s[n] !in Elements(s[..n]);
    }
  }

  /** A list no longer than a set it covers is that set, without repetition. */
  lemma CoversExactly(s: seq<nat>, t: set<nat>)
    requires |s| == |t| && forall id :: id in t ==> id in s
    ensures Distinct(s) && forall id :: id in s <==> id in t
  {
    ElementsAtMost(s);
    assert t <= Elements(s);
    SubsetSize(t, Elements(s));
    FullyUsed(s);
    if id :| id in s && id !in t {
      SubsetSize(t + {id}, Elements(s));
    }
  }

  /** Every id not in use is somewhere in the upper part of the stack. */
  ghost predicate Above(nodes: seq<Node>, freeNodes: seq<nat>, ptr: nat)
    requires ptr <= |freeNodes|
  {
    forall id :: 0 <= id < |nodes| && !nodes[id].used ==> id in freeNodes[ptr..]
  }

  /**
    The refill leaves every unused id on the stack exactly once, from the pointer upward, if and only if
    as many nodes are in use as not and what was left above the pointer happens to be the unused ids.
   */
  lemma RefillExact(nodes: seq<Node>, freeNodes: seq<nat>)
    requires |freeNodes| == |nodes|
    ensures
      var n, ptr := |nodes|, |Unused(nodes, |nodes|)|;
      FreeIds(Refilled(nodes, freeNodes, n), ptr, Used(nodes), n) <==> 2 * ptr == n && Above(nodes, freeNodes, ptr)
  {
    var n, ptr := |nodes|, |Unused(nodes, |nodes|)|;
    var stack := Refilled(nodes, freeNodes, n);
    UsedAndUnused(nodes);
    assert stack[ptr..] == freeNodes[ptr..];
    hide Unused, Refilled, Stacked;
    if FreeIds(stack, ptr, Used(nodes), n) {
      forall id | 0 <= id < n && !nodes[id].used ensures id in stack[ptr..] {
        StackedAbove(stack, ptr, id);
      }
    }
    if 2 * ptr == n && Above(nodes, freeNodes, ptr) {
      UpperHalf(nodes, stack, ptr);
    }
  }

  lemma StackedAbove(stack: seq<nat>, ptr: nat, id: nat)
    requires ptr <= |stack|
    ensures Stacked(stack, ptr, id) <==> id in stack[ptr..]
  {
    if Stacked(stack, ptr, id) {
      var k :| ptr <= k < |stack| && stack[k] == id;
      assert stack[ptr..][k - ptr] == id;
    }
    if id in stack[ptr..] {
      var k :| 0 <= k < |stack| - ptr && stack[ptr..][k] == id;
      assert stack[ptr + k] == id;
    }
  }

  lemma AboveSlice(stack: seq<nat>, ptr: nat, ids: set<nat>)
    requires ptr <= |stack| && Distinct(stack[ptr..]) && forall id :: id in stack[ptr..] ==> id in ids
    ensures forall k :: ptr <= k < |stack| ==> stack[k] in ids
    ensures forall j, k :: ptr <= j < k < |stack| ==> stack[j] != stack[k]
  {
    var upper := stack[ptr..];
    forall k | ptr <= k < |stack| ensures stack[k] in ids {
      assert upper[k - ptr] in upper;
    }
    forall j, k | ptr <= j < k < |stack| ensures stack[j] != stack[k] {
      assert upper[j - ptr] != upper[k - ptr];
    }
  }

  lemma UpperHalf(nodes: seq<Node>, stack: seq<nat>, ptr: nat)
    requires |stack| == |nodes| == 2 * ptr && |Used(nodes)| == ptr
    requires forall id :: 0 <= id < |nodes| && !nodes[id].used ==> id in stack[ptr..]
    ensures FreeIds(stack, ptr, Used(nodes), |nodes|)
  {
    var unused, upper := Unused(nodes, |nodes|), stack[ptr..];
    UsedAndUnused(nodes);
    UnusedExact(nodes, |nodes|);
    ElementsSize(unused);
    hide Unused, Stacked;
    CoversExactly(upper, Elements(unused));
    AboveSlice(stack, ptr, Elements(unused));
    forall id | 0 <= id < |nodes| && id !in Used(nodes) ensures Stacked(stack, ptr, id) {
      StackedAbove(stack, ptr, id);
    }
  }

  /** With nothing in use, as right after construction, the refill leaves no id to pop. */
  lemma RefillOfUnusedFails(nodes: seq<Node>, freeNodes: seq<nat>)
    requires nodes != [] && |freeNodes| == |nodes| && forall id :: 0 <= id < |nodes| ==> !nodes[id].used
    ensures |Unused(nodes, |nodes|)| == |nodes|
    ensures !FreeIds(Refilled(nodes, freeNodes, |nodes|), |nodes|, Used(nodes), |nodes|)
  {
    UsedAndUnused(nodes);
    assert Used(nodes) == {};
    RefillExact(nodes, freeNodes);
  }
}
