/** The blocks in address order, linked to their neighbours, tiling the whole capacity. */
module NeighborChain {
  import opened Sets
  import opened FreeLists

  function EndOf(node: Node): nat {
    node.dataOffset + node.dataSize
  }

  /** Where block k of the chain has to start. */
  function StartAt(nodes: seq<Node>, chain: seq<nat>, k: nat): nat
    requires k <= |chain|
  {
    if k > 0 && chain[k - 1] < |nodes| then EndOf(nodes[chain[k - 1]]) else 0
  }

  ghost predicate BlockOk(nodes: seq<Node>, chain: seq<nat>, k: nat)
    requires k < |chain|
  {
    && chain[k] < |nodes|
    && nodes[chain[k]].dataSize > 0
    && nodes[chain[k]].dataOffset == StartAt(nodes, chain, k)
    && nodes[chain[k]].neighborPrev == Prev(chain, k)
    && nodes[chain[k]].neighborNext == Next(chain, k)
  }

  /** The chain tiles [0, capacity) in address order. */
  ghost predicate ChainOk(nodes: seq<Node>, chain: seq<nat>, capacity: nat) {
    && chain != [] && Distinct(chain)
    && (forall k :: 0 <= k < |chain| ==> BlockOk(nodes, chain, k))
    && StartAt(nodes, chain, |chain|) == capacity
  }

  /** No two neighbouring blocks are both free. */
  ghost predicate NoAdjacentFree(nodes: seq<Node>, chain: seq<nat>) {
    forall k :: 0 <= k < |chain| - 1 ==> Separated(nodes, chain, k)
  }

  ghost predicate Separated(nodes: seq<Node>, chain: seq<nat>, k: nat)
    requires k + 1 < |chain|
  {
    chain[k] < |nodes| && chain[k + 1] < |nodes| && (nodes[chain[k]].used || nodes[chain[k + 1]].used)
  }

  /** Same address range and same neighbours. */
  predicate SamePlace(a: Node, b: Node) {
    && a.dataOffset == b.dataOffset && a.dataSize == b.dataSize
    && a.neighborPrev == b.neighborPrev && a.neighborNext == b.neighborNext
  }

  lemma ChainFrame(nodes: seq<Node>, nodes': seq<Node>, chain: seq<nat>, capacity: nat)
    requires ChainOk(nodes, chain, capacity) && |nodes| <= |nodes'|
    requires forall id :: id in chain && id < |nodes| ==> SamePlace(nodes'[id], nodes[id])
    ensures ChainOk(nodes', chain, capacity)
  {
    forall k | 0 <= k < |chain|
      ensures BlockOk(nodes', chain, k) && chain[k] < |nodes| && SamePlace(nodes'[chain[k]], nodes[chain[k]])
    {
      assert chain[k] in chain && BlockOk(nodes, chain, k);
      if k > 0 {
        assert chain[k - 1] in chain && BlockOk(nodes, chain, k - 1);
      }
    }
  }

  /** The blocks do not overlap and lie within the capacity. */
  lemma {:induction false} BlocksOrdered(nodes: seq<Node>, chain: seq<nat>, capacity: nat, j: nat, k: nat)
    requires ChainOk(nodes, chain, capacity) && j < k <= |chain|
    ensures chain[j] < |nodes| && EndOf(nodes[chain[j]]) <= StartAt(nodes, chain, k) <= capacity
    decreases k - j
  {
    assert BlockOk(nodes, chain, j);
    if j + 1 < k {
      BlocksOrdered(nodes, chain, capacity, j, k - 1);
      assert BlockOk(nodes, chain, k - 1);
    }
    StartWithin(nodes, chain, capacity, k);
  }

  lemma {:induction false} StartWithin(nodes: seq<Node>, chain: seq<nat>, capacity: nat, k: nat)
    requires ChainOk(nodes, chain, capacity) && k <= |chain|
    ensures StartAt(nodes, chain, k) <= capacity
    decreases |chain| - k
  {
    if k < |chain| {
      StartWithin(nodes, chain, capacity, k + 1);
      assert BlockOk(nodes, chain, k);
    }
  }

  /** Two blocks of the chain share no address. */
  lemma BlocksDisjoint(nodes: seq<Node>, chain: seq<nat>, capacity: nat, a: nat, b: nat)
    requires ChainOk(nodes, chain, capacity) && a in chain && b in chain && a != b
    ensures a < |nodes| && b < |nodes|
    ensures EndOf(nodes[a]) <= nodes[b].dataOffset || EndOf(nodes[b]) <= nodes[a].dataOffset
    ensures EndOf(nodes[a]) <= capacity && EndOf(nodes[b]) <= capacity
  {
    var j :| 0 <= j < |chain| && chain[j] == a;
    var k :| 0 <= k < |chain| && chain[k] == b;
    assert BlockOk(nodes, chain, j) && BlockOk(nodes, chain, k);
    StartWithin(nodes, chain, capacity, j + 1);
    StartWithin(nodes, chain, capacity, k + 1);
    if j < k {
      BlocksOrdered(nodes, chain, capacity, j, k);
    } else {
      BlocksOrdered(nodes, chain, capacity, k, j);
    }
  }

  lemma SomeUsed(nodes: seq<Node>, chain: seq<nat>)
    requires NoAdjacentFree(nodes, chain) && |chain| > 1
    ensures exists id :: id in chain && id < |nodes| && nodes[id].used
  {
    assert Separated(nodes, chain, 0);
    assert chain[0] in chain && chain[1] in chain;
  }

  /** With nothing in use, no two neighbours free means a single free block. */
  lemma AllFreeIsOneBlock(nodes: seq<Node>, chain: seq<nat>, capacity: nat)
    requires ChainOk(nodes, chain, capacity) && NoAdjacentFree(nodes, chain)
    requires forall id :: id in chain && id < |nodes| ==> !nodes[id].used
    ensures |chain| == 1 && chain[0] < |nodes|
    ensures nodes[chain[0]].dataOffset == 0 && nodes[chain[0]].dataSize == capacity
  {
    assert BlockOk(nodes, chain, 0);
    if |chain| > 1 {
      SomeUsed(nodes, chain);
    }
  }

  // ----- replacing a stretch of the chain

  /** The blocks mid tile [start, end) and are linked to each other, to prev before and to next behind. */
  ghost predicate MidOk(nodes: seq<Node>, mid: seq<nat>, start: nat, end: nat, prev: int, next: int) {
    && mid != [] && Distinct(mid)
    && (forall k :: 0 <= k < |mid| ==> MidBlockOk(nodes, mid, start, prev, next, k))
    && mid[|mid| - 1] < |nodes| && EndOf(nodes[mid[|mid| - 1]]) == end
  }

  ghost predicate MidBlockOk(nodes: seq<Node>, mid: seq<nat>, start: nat, prev: int, next: int, k: nat)
    requires k < |mid|
  {
    && mid[k] < |nodes|
    && nodes[mid[k]].dataSize > 0
    && nodes[mid[k]].dataOffset == (if k == 0 || mid[k - 1] >= |nodes| then start else EndOf(nodes[mid[k - 1]]))
    && nodes[mid[k]].neighborPrev == (if k == 0 then prev else mid[k - 1])
    && nodes[mid[k]].neighborNext == (if k + 1 == |mid| then next else mid[k + 1])
  }

  /** Outside positions [i, j) only the two blocks next to the stretch change, in one link each. */
  ghost predicate Outside(nodes: seq<Node>, nodes': seq<Node>, chain: seq<nat>, i: nat, j: nat, first: nat, last: nat) {
    && |nodes'| == |nodes|
    && (forall k :: 0 <= k < i && k < |chain| ==> KeptBefore(nodes, nodes', chain, i, k, first))
    && (forall k :: j <= k < |chain| ==> KeptBehind(nodes, nodes', chain, j, k, last))
  }

  ghost predicate KeptBefore(nodes: seq<Node>, nodes': seq<Node>, chain: seq<nat>, i: nat, k: nat, first: nat)
    requires k < |chain| && |nodes'| == |nodes|
  {
    chain[k] < |nodes| &&
    SamePlace(nodes'[chain[k]],
              if k + 1 == i then nodes[chain[k]].(neighborNext := first) else nodes[chain[k]])
  }

  ghost predicate KeptBehind(nodes: seq<Node>, nodes': seq<Node>, chain: seq<nat>, j: nat, k: nat, last: nat)
    requires k < |chain| && |nodes'| == |nodes|
  {
    chain[k] < |nodes| &&
    SamePlace(nodes'[chain[k]],
              if k == j then nodes[chain[k]].(neighborPrev := last) else nodes[chain[k]])
  }

  function Spliced(chain: seq<nat>, i: nat, j: nat, mid: seq<nat>): seq<nat>
    requires i <= j <= |chain|
  {
    chain[..i] + mid + chain[j..]
  }

  /** The stretch [i, j) of the chain may be replaced by blocks that tile the same addresses. */
  lemma Splice(nodes: seq<Node>, nodes': seq<Node>, chain: seq<nat>, i: nat, j: nat, mid: seq<nat>, capacity: nat)
    requires ChainOk(nodes, chain, capacity) && i < j <= |chain|
    requires MidOk(nodes', mid, StartAt(nodes, chain, i), StartAt(nodes, chain, j),
                   Prev(chain, i), Next(chain, j - 1))
    requires Outside(nodes, nodes', chain, i, j, mid[0], mid[|mid| - 1])
    requires forall k, l :: 0 <= k < |chain| && 0 <= l < |mid| && (k < i || k >= j) ==> chain[k] != mid[l]
    ensures ChainOk(nodes', Spliced(chain, i, j, mid), capacity)
  {
    var r, m := Spliced(chain, i, j, mid), |mid|;
    forall k | 0 <= k < |r| ensures BlockOk(nodes', r, k) {
      if k < i {
        SpliceBefore(nodes, nodes', chain, i, j, mid, capacity, k);
      } else if k < i + m {
        SpliceMid(nodes, nodes', chain, i, j, mid, capacity, k - i);
      } else {
        SpliceBehind(nodes, nodes', chain, i, j, mid, capacity, k - (i + m) + j);
      }
    }
    if j < |chain| {
      assert r[|r| - 1] == chain[|chain| - 1];
      assert KeptBehind(nodes, nodes', chain, j, |chain| - 1, mid[m - 1]);
      assert BlockOk(nodes, chain, |chain| - 1);
    } else {
      assert r[|r| - 1] == mid[m - 1];
    }
  }

  lemma SpliceBefore(
    nodes: seq<Node>, nodes': seq<Node>, chain: seq<nat>, i: nat, j: nat, mid: seq<nat>, capacity: nat, k: nat)
    requires ChainOk(nodes, chain, capacity) && k < i < j <= |chain| && mid != []
    requires Outside(nodes, nodes', chain, i, j, mid[0], mid[|mid| - 1])
    ensures BlockOk(nodes', Spliced(chain, i, j, mid), k)
  {
    assert BlockOk(nodes, chain, k) && KeptBefore(nodes, nodes', chain, i, k, mid[0]);
    if k > 0 {
      assert BlockOk(nodes, chain, k - 1) && KeptBefore(nodes, nodes', chain, i, k - 1, mid[0]);
    }
  }

  lemma SpliceMid(
    nodes: seq<Node>, nodes': seq<Node>, chain: seq<nat>, i: nat, j: nat, mid: seq<nat>, capacity: nat, k: nat)
    requires ChainOk(nodes, chain, capacity) && i < j <= |chain| && k < |mid|
    requires MidOk(nodes', mid, StartAt(nodes, chain, i), StartAt(nodes, chain, j),
                   Prev(chain, i), Next(chain, j - 1))
    requires Outside(nodes, nodes', chain, i, j, mid[0], mid[|mid| - 1])
    ensures BlockOk(nodes', Spliced(chain, i, j, mid), i + k)
  {
    assert MidBlockOk(nodes', mid, StartAt(nodes, chain, i), Prev(chain, i), Next(chain, j - 1), k);
    if k > 0 {
      assert MidBlockOk(nodes', mid, StartAt(nodes, chain, i), Prev(chain, i), Next(chain, j - 1), k - 1);
    } else if i > 0 {
      assert KeptBefore(nodes, nodes', chain, i, i - 1, mid[0]);
    }
  }

  lemma SpliceBehind(
    nodes: seq<Node>, nodes': seq<Node>, chain: seq<nat>, i: nat, j: nat, mid: seq<nat>, capacity: nat, k: nat)
    requires ChainOk(nodes, chain, capacity) && i < j <= k < |chain|
    requires MidOk(nodes', mid, StartAt(nodes, chain, i), StartAt(nodes, chain, j),
                   Prev(chain, i), Next(chain, j - 1))
    requires Outside(nodes, nodes', chain, i, j, mid[0], mid[|mid| - 1])
    ensures BlockOk(nodes', Spliced(chain, i, j, mid), i + |mid| + (k - j))
  {
    assert BlockOk(nodes, chain, k) && KeptBehind(nodes, nodes', chain, j, k, mid[|mid| - 1]);
    if k > j {
      assert BlockOk(nodes, chain, k - 1) && KeptBehind(nodes, nodes', chain, j, k - 1, mid[|mid| - 1]);
    } else {
      assert MidBlockOk(nodes', mid, StartAt(nodes, chain, i), Prev(chain, i), Next(chain, j - 1), |mid| - 1);
    }
  }

  // ----- cutting a block, merging blocks

  /** How node i reads after node id was linked in between prev and next. */
  function LinkedIn(node: Node, i: int, id: nat, prev: int, next: int): Node {
    if i == id then node.(neighborPrev := prev, neighborNext := next)
    else if i == next then node.(neighborPrev := id)
    else if i == prev then node.(neighborNext := id)
    else node
  }

  lemma SpliceElements(chain: seq<nat>, i: nat, j: nat, mid: seq<nat>)
    requires i <= j <= |chain|
    ensures forall x :: x in Spliced(chain, i, j, mid) <==>
      x in mid || exists k :: 0 <= k < |chain| && (k < i || k >= j) && chain[k] == x
  {
    var r := Spliced(chain, i, j, mid);
    forall x ensures x in r <==> x in mid || exists k :: 0 <= k < |chain| && (k < i || k >= j) && chain[k] == x {
      if x in r && x !in mid {
        var p :| 0 <= p < |r| && r[p] == x;
        var k := if p < i then p else p - (i + |mid|) + j;
        assert p < i || p >= i + |mid|;
        assert chain[k] == x;
      }
      if exists k :: 0 <= k < |chain| && (k < i || k >= j) && chain[k] == x {
        var k :| 0 <= k < |chain| && (k < i || k >= j) && chain[k] == x;
        assert r[if k < i then k else k - j + i + |mid|] == x;
      }
    }
  }

  /** The block at position p keeps its first `size` units, and node rest takes the others. */
  lemma CutChain(nodes: seq<Node>, nodes': seq<Node>, chain: seq<nat>, capacity: nat, p: nat, size: nat, rest: nat)
    requires ChainOk(nodes, chain, capacity) && |nodes'| == |nodes| && p < |chain| && rest < |nodes| && rest !in chain
    requires chain[p] < |nodes| && 0 < size < nodes[chain[p]].dataSize
    requires
      var id, next := chain[p], Next(chain, p);
      && SamePlace(nodes'[id], nodes[id].(dataSize := size, neighborNext := rest))
      && nodes'[rest].dataOffset == nodes[id].dataOffset + size
      && nodes'[rest].dataSize == nodes[id].dataSize - size
      && nodes'[rest].neighborPrev == id && nodes'[rest].neighborNext == next
      && forall i :: 0 <= i < |nodes| && i != id && i != rest ==>
           SamePlace(nodes'[i], if i == next then nodes[i].(neighborPrev := rest) else nodes[i])
    ensures ChainOk(nodes', Spliced(chain, p, p + 1, [chain[p], rest]), capacity)
  {
    var id, mid := chain[p], [chain[p], rest];
    assert BlockOk(nodes, chain, p);
    assert forall k :: 0 <= k < |chain| ==> chain[k] in chain;
    forall k | 0 <= k < 2
      ensures MidBlockOk(nodes', mid, StartAt(nodes, chain, p), Prev(chain, p), Next(chain, p), k)
    {
    }
    forall k | 0 <= k < |chain| && k != p ensures chain[k] < |nodes| && chain[k] != id && chain[k] != rest {
      assert BlockOk(nodes, chain, k);
    }
    hide ChainOk, MidBlockOk, BlockOk;
    assert Outside(nodes, nodes', chain, p, p + 1, id, rest) by {
      forall k | 0 <= k < p ensures KeptBefore(nodes, nodes', chain, p, k, id) {
        CutBefore(nodes, nodes', chain, capacity, p, k);
      }
      var j := p + 1;
      forall k | j <= k < |chain| ensures KeptBehind(nodes, nodes', chain, j, k, rest) {
        CutNext(nodes, chain, capacity, p, k);
      }
    }
    hide Outside;
    Splice(nodes, nodes', chain, p, p + 1, mid, capacity);
  }

  lemma CutBefore(nodes: seq<Node>, nodes': seq<Node>, chain: seq<nat>, capacity: nat, p: nat, k: nat)
    requires ChainOk(nodes, chain, capacity) && k < p < |chain|
    ensures chain[k] < |nodes| && chain[k] != Next(chain, p)
    ensures k + 1 == p ==> SamePlace(nodes[chain[k]], nodes[chain[k]].(neighborNext := chain[p]))
  {
    assert BlockOk(nodes, chain, k);
  }

  lemma CutNext(nodes: seq<Node>, chain: seq<nat>, capacity: nat, p: nat, k: nat)
    requires ChainOk(nodes, chain, capacity) && p < k < |chain|
    ensures chain[k] == Next(chain, p) <==> k == p + 1
  {
  }

  /** The blocks at positions [i, j) become the one block of node id. */
  lemma MergeChain(nodes: seq<Node>, nodes': seq<Node>, chain: seq<nat>, capacity: nat, i: nat, j: nat, id: nat)
    requires ChainOk(nodes, chain, capacity) && |nodes'| == |nodes| && i < j <= |chain| && id in chain[i..j]
    requires id < |nodes|
    requires
      && nodes'[id].dataOffset == StartAt(nodes, chain, i)
      && EndOf(nodes'[id]) == StartAt(nodes, chain, j) && nodes'[id].dataSize > 0
      && nodes'[id].neighborPrev == Prev(chain, i) && nodes'[id].neighborNext == Next(chain, j - 1)
    requires forall k :: 0 <= k < |chain| && (k < i || k >= j) && chain[k] < |nodes| ==>
      SamePlace(nodes'[chain[k]], LinkedIn(nodes[chain[k]], chain[k], id, Prev(chain, i), Next(chain, j - 1)))
    ensures ChainOk(nodes', Spliced(chain, i, j, [id]), capacity)
  {
    var q :| i <= q < j && chain[q] == id;
    forall k | 0 <= k < |chain| && (k < i || k >= j) ensures chain[k] != id && chain[k] < |nodes| {
      assert BlockOk(nodes, chain, k);
    }
    assert MidBlockOk(nodes', [id], StartAt(nodes, chain, i), Prev(chain, i), Next(chain, j - 1), 0);
    hide MidBlockOk, BlockOk, StartAt;
    assert Outside(nodes, nodes', chain, i, j, id, id) by {
      forall k | 0 <= k < i ensures KeptBefore(nodes, nodes', chain, i, k, id) {
        assert chain[k] == Prev(chain, i) <==> k + 1 == i;
        assert chain[k] != Next(chain, j - 1);
      }
      forall k | j <= k < |chain| ensures KeptBehind(nodes, nodes', chain, j, k, id) {
        assert chain[k] == Next(chain, j - 1) <==> k == j;
        assert chain[k] != Prev(chain, i);
      }
    }
    hide ChainOk, Outside;
    Splice(nodes, nodes', chain, i, j, [id], capacity);
  }

  lemma ChainIds(nodes: seq<Node>, chain: seq<nat>, capacity: nat)
    requires ChainOk(nodes, chain, capacity)
    ensures forall k :: 0 <= k < |chain| ==> chain[k] < |nodes|
    ensures forall j, k :: 0 <= j < k < |chain| ==> chain[j] != chain[k]
  {
    forall k | 0 <= k < |chain| ensures chain[k] < |nodes| {
      assert BlockOk(nodes, chain, k);
    }
  }

  /** Handing out the free block at p leaves no two free neighbours, with or without a rest behind it. */
  lemma CutSeparated(nodes: seq<Node>, nodes': seq<Node>, chain: seq<nat>, capacity: nat, p: nat, rest: nat)
    requires ChainOk(nodes, chain, capacity) && NoAdjacentFree(nodes, chain) && |nodes'| == |nodes|
    requires p < |chain| && chain[p] < |nodes| && !nodes[chain[p]].used && nodes'[chain[p]].used
    requires forall k :: 0 <= k < |chain| && k != p && chain[k] < |nodes| ==>
      nodes'[chain[k]].used == nodes[chain[k]].used
    ensures NoAdjacentFree(nodes', chain)
    ensures rest < |nodes| ==> NoAdjacentFree(nodes', Spliced(chain, p, p + 1, [chain[p], rest]))
  {
    ChainIds(nodes, chain, capacity);
    forall k | 0 <= k < |chain| - 1 ensures Separated(nodes', chain, k) {
      assert Separated(nodes, chain, k);
    }
    if rest < |nodes| {
      var r := Spliced(chain, p, p + 1, [chain[p], rest]);
      forall k | 0 <= k < |r| - 1 ensures Separated(nodes', r, k) {
        if k < p {
          assert Separated(nodes', chain, k);
        } else if k > p + 1 {
          assert Separated(nodes', chain, k - 1);
        } else if p + 1 < |chain| {
          assert Separated(nodes, chain, p);
        }
      }
    }
  }

  /** A merged free block between used blocks has no free neighbour. */
  lemma MergeSeparated(nodes: seq<Node>, nodes': seq<Node>, chain: seq<nat>, capacity: nat, i: nat, j: nat, id: nat)
    requires ChainOk(nodes, chain, capacity) && NoAdjacentFree(nodes, chain) && |nodes'| == |nodes|
    requires i < j <= |chain| && id < |nodes|
    requires i > 0 && chain[i - 1] < |nodes| ==> nodes[chain[i - 1]].used
    requires j < |chain| && chain[j] < |nodes| ==> nodes[chain[j]].used
    requires forall k :: 0 <= k < |chain| && (k < i || k >= j) && chain[k] < |nodes| ==>
      nodes'[chain[k]].used == nodes[chain[k]].used
    ensures NoAdjacentFree(nodes', Spliced(chain, i, j, [id]))
  {
    ChainIds(nodes, chain, capacity);
    var r := Spliced(chain, i, j, [id]);
    forall k | 0 <= k < |r| - 1 ensures Separated(nodes', r, k) {
      if k + 1 < i {
        assert Separated(nodes, chain, k);
      } else if k > i {
        assert Separated(nodes, chain, k - (i + 1) + j);
      }
    }
  }

  /** The ids of a chain with a stretch replaced. */
  lemma SpliceIds(chain: seq<nat>, live: set<nat>, i: nat, j: nat, mid: seq<nat>, live': set<nat>)
    requires i <= j <= |chain| && Distinct(chain) && forall x :: x in live <==> x in chain
    requires forall x :: x in live' <==> x in mid || (x in live && x !in chain[i..j])
    ensures forall x :: x in live' <==> x in Spliced(chain, i, j, mid)
  {
    SpliceElements(chain, i, j, mid);
    hide Spliced;
    forall x ensures x in live && x !in chain[i..j] <==>
      exists k :: 0 <= k < |chain| && (k < i || k >= j) && chain[k] == x
    {
      if x in live && x !in chain[i..j] {
        var k :| 0 <= k < |chain| && chain[k] == x;
        if i <= k < j {
          Within(chain, i, j, k);
        }
      }
    }
  }

  lemma Within(chain: seq<nat>, i: nat, j: nat, k: nat)
    requires i <= k < j <= |chain|
    ensures chain[k] in chain[i..j]
  {
    assert chain[i..j][k - i] == chain[k];
  }
}
