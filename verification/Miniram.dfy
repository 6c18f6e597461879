/**
  The two-level segregated-fit allocator. Sizes and offsets are unsigned numbers of `bits` bits; node
  ids are small numbers with INVALID for none.
 */
module Miniram {
  import opened Arithmetic
  import opened Words
  import opened Sets
  import opened FreeLists
  import opened NeighborChain
  import FloatBins

  const ALLOC_GROW_FACTOR := 2

  datatype Allocation = Allocation(offset: nat, id: nat)

  datatype AllocResult = NoSpace | Allocated(allocation: Allocation)

  /** A block's address range. */
  datatype Range = Range(offset: nat, size: nat)

  predicate Covers(outer: Range, inner: Range) {
    outer.offset <= inner.offset && inner.offset + inner.size <= outer.offset + outer.size
  }

  /** `findLowestBitAfter`: the lowest set bit from start on, if any. */
  function FindLowestBitAfter(mask: Word, start: nat): (r: int)
    requires start < |mask|
    ensures r == INVALID <==> forall k :: start <= k < |mask| ==> !mask[k]
    ensures r != INVALID ==> start <= r < |mask| && mask[r] && forall k :: start <= k < r ==> !mask[k]
  {
    var maskBefore := Dec(OneAt(|mask|, start));
    var bitsAfter := And(mask, Not(maskBefore));
    LowMaskBits(|mask|, start);
    assert forall k :: 0 <= k < |mask| ==> bitsAfter[k] == (mask[k] && k >= start);
    if IsZero(bitsAfter) then INVALID else TrailingZeros(bitsAfter)
  }

  /** The live nodes are the blocks of the chain, and no other node is in use. */
  ghost predicate Blocks(nodes: seq<Node>, chain: seq<nat>, live: set<nat>, capacity: nat) {
    && ChainOk(nodes, chain, capacity) && NoAdjacentFree(nodes, chain)
    && (forall id :: id in live <==> id in chain)
    && (forall id :: 0 <= id < |nodes| && id !in live ==> !nodes[id].used)
  }

  ghost function LiveOf(nodes: seq<Node>, live: set<nat>): map<nat, Range> {
    map id | id in live && id < |nodes| && nodes[id].used :: Range(nodes[id].dataOffset, nodes[id].dataSize)
  }

  ghost function FreeOf(nodes: seq<Node>, live: set<nat>): map<nat, Range> {
    map id | id in live && id < |nodes| && !nodes[id].used :: Range(nodes[id].dataOffset, nodes[id].dataSize)
  }

  /** Is the free block large enough by its rounded-down size? */
  predicate Suits(free: map<nat, Range>, size: nat, id: nat) {
    id in free && FloatBins.CeilToFloat(size) <= FloatBins.FloorToFloat(free[id].size)
  }

  /** Block id suits, and no free block that suits has a smaller rounded-down size. */
  ghost predicate GoodFit(free: map<nat, Range>, size: nat, id: nat) {
    && Suits(free, size, id)
    && forall x :: Suits(free, size, x) ==>
         FloatBins.FloorToFloat(free[id].size) <= FloatBins.FloorToFloat(free[x].size)
  }

  /** What the position of a block in the chain says about its neighbours and its size. */
  lemma BlockFacts(nodes: seq<Node>, chain: seq<nat>, live: set<nat>, capacity: nat, id: nat) returns (p: nat)
    requires Blocks(nodes, chain, live, capacity) && id in live
    ensures p < |chain| && chain[p] == id < |nodes|
    ensures nodes[id].neighborPrev == Prev(chain, p) && nodes[id].neighborNext == Next(chain, p)
    ensures nodes[id].dataOffset == StartAt(nodes, chain, p)
    ensures EndOf(nodes[id]) == StartAt(nodes, chain, p + 1) <= capacity
    ensures INVALID <= Prev(chain, p) < |nodes| && INVALID <= Next(chain, p) < |nodes|
    ensures Prev(chain, p) != id && Next(chain, p) != id
    ensures Prev(chain, p) == Next(chain, p) ==> Prev(chain, p) == INVALID
    ensures nodes[id].dataSize > 0
    ensures Prev(chain, p) != INVALID ==> p > 0 && Prev(chain, p) in live
    ensures Next(chain, p) != INVALID ==> p + 1 < |chain| && Next(chain, p) in live
  {
    p :| 0 <= p < |chain| && chain[p] == id;
    assert BlockOk(nodes, chain, p);
    if p > 0 {
      assert BlockOk(nodes, chain, p - 1) && chain[p - 1] in chain;
    }
    if p + 1 < |chain| {
      assert BlockOk(nodes, chain, p + 1) && chain[p + 1] in chain;
    }
    StartWithin(nodes, chain, capacity, p + 1);
  }

  /** What a stretch [i, j) of the chain around position p borders on. */
  lemma StretchFacts(nodes: seq<Node>, chain: seq<nat>, live: set<nat>, capacity: nat, i: nat, p: nat, j: nat)
    requires Blocks(nodes, chain, live, capacity) && i <= p < j <= |chain|
    ensures INVALID <= Prev(chain, i) < |nodes| && INVALID <= Next(chain, j - 1) < |nodes|
    ensures Prev(chain, i) != chain[p] && Next(chain, j - 1) != chain[p]
    ensures Prev(chain, i) == Next(chain, j - 1) ==> Prev(chain, i) == INVALID
    ensures StartAt(nodes, chain, i) < StartAt(nodes, chain, j) <= capacity
    ensures forall k :: 0 <= k < |chain| ==> chain[k] < |nodes| && chain[k] in live
  {
    ChainIds(nodes, chain, capacity);
    StartWithin(nodes, chain, capacity, j);
    assert BlockOk(nodes, chain, i);
    if i + 1 < j {
      BlocksOrdered(nodes, chain, capacity, i, j - 1);
      assert BlockOk(nodes, chain, j - 1);
    }
  }

  /** A stretch covers the blocks in it. */
  lemma StretchCovers(nodes: seq<Node>, chain: seq<nat>, live: set<nat>, capacity: nat, i: nat, p: nat, j: nat)
    requires Blocks(nodes, chain, live, capacity) && i <= p < j <= |chain|
    ensures chain[p] < |nodes|
    ensures StartAt(nodes, chain, i) <= nodes[chain[p]].dataOffset
    ensures nodes[chain[p]].dataOffset + nodes[chain[p]].dataSize <= StartAt(nodes, chain, j)
  {
    hide NoAdjacentFree;
    BlocksOrdered(nodes, chain, capacity, p, j);
    assert BlockOk(nodes, chain, p) && BlockOk(nodes, chain, i);
    if i < p {
      BlocksOrdered(nodes, chain, capacity, i, p);
    }
  }

  lemma PositionsDiffer(nodes: seq<Node>, chain: seq<nat>, live: set<nat>, capacity: nat, p: nat, q: nat)
    requires Blocks(nodes, chain, live, capacity) && p < |chain| && q < |chain| && chain[p] == chain[q]
    ensures p == q
  {
    ChainIds(nodes, chain, capacity);
  }

  lemma PositionsInjective(nodes: seq<Node>, chain: seq<nat>, live: set<nat>, capacity: nat)
    requires Blocks(nodes, chain, live, capacity)
    ensures forall j, k :: 0 <= j < k < |chain| ==> chain[j] != chain[k]
    ensures forall k :: 0 <= k < |chain| ==> chain[k] in live
  {
    ChainIds(nodes, chain, capacity);
  }

  /** Next to a free block there is none. */
  lemma BesideFree(nodes: seq<Node>, chain: seq<nat>, live: set<nat>, capacity: nat, k: nat)
    requires Blocks(nodes, chain, live, capacity) && k < |chain| && chain[k] < |nodes| && !nodes[chain[k]].used
    ensures k > 0 && chain[k - 1] < |nodes| ==> nodes[chain[k - 1]].used
    ensures k + 1 < |chain| && chain[k + 1] < |nodes| ==> nodes[chain[k + 1]].used
  {
    assert k > 0 ==> Separated(nodes, chain, k - 1);
    assert k + 1 < |chain| ==> Separated(nodes, chain, k);
  }

  /** A stretch of at most one free block on either side of position p is bordered by used blocks. */
  lemma MergedStretch(nodes: seq<Node>, chain: seq<nat>, live: set<nat>, capacity: nat, i: nat, p: nat, j: nat)
    requires Blocks(nodes, chain, live, capacity) && i <= p < j <= |chain| && p <= i + 1 && j <= p + 2
    requires
      if i == p then p > 0 && chain[p - 1] < |nodes| ==> nodes[chain[p - 1]].used
      else chain[i] < |nodes| && !nodes[chain[i]].used
    requires
      if j == p + 1 then j < |chain| && chain[j] < |nodes| ==> nodes[chain[j]].used
      else chain[p + 1] < |nodes| && !nodes[chain[p + 1]].used
    ensures i > 0 && chain[i - 1] < |nodes| ==> nodes[chain[i - 1]].used
    ensures j < |chain| && chain[j] < |nodes| ==> nodes[chain[j]].used
    ensures forall x :: x in chain[i..j] <==>
      x == chain[p] || (i < p && x == chain[i]) || (j > p + 1 && x == chain[p + 1])
  {
    if i < p {
      BesideFree(nodes, chain, live, capacity, i);
    }
    if j > p + 1 {
      BesideFree(nodes, chain, live, capacity, p + 1);
    }
    assert chain[p] in chain[i..j] && chain[i] in chain[i..j] && chain[j - 1] in chain[i..j] by {
      Within(chain, i, j, p);
      Within(chain, i, j, i);
      Within(chain, i, j, j - 1);
    }
  }

  lemma UsedAlike(a: Node, b: Node)
    requires SameBlock(a, b)
    ensures a.used == b.used
  {
  }

  lemma BlockIs(node: Node, offset: nat, size: nat, prev: int, next: int)
    requires SameBlock(node, Node(offset, size, INVALID, INVALID, prev, next, false))
    ensures node.dataOffset == offset && EndOf(node) == offset + size && node.dataSize == size && !node.used
    ensures node.neighborPrev == prev && node.neighborNext == next
  {
  }

  /** A free block handed out whole. */
  lemma HandOutWhole(nodes: seq<Node>, nodes': seq<Node>, chain: seq<nat>, live: set<nat>, capacity: nat, id: nat)
    requires Blocks(nodes, chain, live, capacity) && id in live && id < |nodes| == |nodes'| && !nodes[id].used
    requires SameBlock(nodes'[id], nodes[id].(used := true))
    requires forall i :: 0 <= i < |nodes| && i != id ==> SameBlock(nodes'[i], nodes[i])
    ensures Blocks(nodes', chain, live, capacity)
    ensures id !in LiveOf(nodes, live)
    ensures LiveOf(nodes', live) == LiveOf(nodes, live)[id := Range(nodes[id].dataOffset, nodes[id].dataSize)]
  {
    var p := BlockFacts(nodes, chain, live, capacity, id);
    ChainFrame(nodes, nodes', chain, capacity);
    ChainIds(nodes, chain, capacity);
    hide ChainOk, NoAdjacentFree;
    CutSeparated(nodes, nodes', chain, capacity, p, |nodes|);
  }

  /** A free block cut in two, the first part handed out. */
  lemma HandOutPart(
    nodes: seq<Node>, nodes': seq<Node>, chain: seq<nat>, live: set<nat>, capacity: nat,
    id: nat, p: nat, size: nat, rest: nat)
    requires Blocks(nodes, chain, live, capacity) && id in live && id < |nodes| == |nodes'| && !nodes[id].used
    requires p < |chain| && chain[p] == id
    requires rest < |nodes| && rest !in live && 0 < size < nodes[id].dataSize
    requires SameBlock(nodes'[id], nodes[id].(dataSize := size, used := true, neighborNext := rest))
    requires SameBlock(nodes'[rest],
      Node(nodes[id].dataOffset + size, nodes[id].dataSize - size, INVALID, INVALID, id, Next(chain, p), false))
    requires forall i :: 0 <= i < |nodes| && i != id && i != rest ==>
      SameBlock(nodes'[i], if i == Next(chain, p) then nodes[i].(neighborPrev := rest) else nodes[i])
    ensures Blocks(nodes', Spliced(chain, p, p + 1, [id, rest]), live + {rest}, capacity)
    ensures id !in LiveOf(nodes, live)
    ensures LiveOf(nodes', live + {rest}) == LiveOf(nodes, live)[id := Range(nodes[id].dataOffset, size)]
  {
    ChainIds(nodes, chain, capacity);
    CutChain(nodes, nodes', chain, capacity, p, size, rest);
    CutSeparated(nodes, nodes', chain, capacity, p, rest);
    assert chain[p..p + 1] == [id];
    SpliceIds(chain, live, p, p + 1, [id, rest], live + {rest});
    hide ChainOk, NoAdjacentFree, Spliced;
    CutLive(nodes, nodes', live, id, size, rest);
  }

  lemma CutLive(nodes: seq<Node>, nodes': seq<Node>, live: set<nat>, id: nat, size: nat, rest: nat)
    requires id in live && id < |nodes| == |nodes'| && !nodes[id].used && rest < |nodes| && rest !in live
    requires nodes'[id].dataOffset == nodes[id].dataOffset && nodes'[id].dataSize == size && nodes'[id].used
    requires !nodes'[rest].used
    requires forall i :: 0 <= i < |nodes| && i != id && i != rest ==>
      && nodes'[i].used == nodes[i].used && nodes'[i].dataOffset == nodes[i].dataOffset
      && nodes'[i].dataSize == nodes[i].dataSize
    ensures id !in LiveOf(nodes, live)
    ensures LiveOf(nodes', live + {rest}) == LiveOf(nodes, live)[id := Range(nodes[id].dataOffset, size)]
  {
  }

  function Blanks(n: nat): (r: seq<Node>)
    ensures |r| == n && forall i :: 0 <= i < n ==> r[i] == BLANK
  {
    seq(n, _ => BLANK)
  }

  /** The numbers from a up to b. */
  function Iota(a: nat, b: nat): (r: seq<nat>)
    requires a <= b
    ensures |r| == b - a && forall i :: 0 <= i < |r| ==> r[i] == a + i
  {
    if a == b then [] else Iota(a, b - 1) + [b - 1]
  }

  /** The blocks at positions [i, j), one of them node id in use and the others free, become the free block id. */
  lemma TakeBack(
    nodes: seq<Node>, nodes': seq<Node>, chain: seq<nat>, live: set<nat>, live': set<nat>, capacity: nat,
    i: nat, j: nat, id: nat)
    requires Blocks(nodes, chain, live, capacity) && |nodes'| == |nodes| && i < j <= |chain|
    requires id in live && id < |nodes| && id in chain[i..j]
    requires forall x :: x in live' <==> x == id || (x in live && x !in chain[i..j])
    requires forall x :: x in chain[i..j] && x < |nodes| && x != id ==> !nodes[x].used
    requires i > 0 && chain[i - 1] < |nodes| ==> nodes[chain[i - 1]].used
    requires j < |chain| && chain[j] < |nodes| ==> nodes[chain[j]].used
    requires
      && nodes'[id].dataOffset == StartAt(nodes, chain, i)
      && EndOf(nodes'[id]) == StartAt(nodes, chain, j) && nodes'[id].dataSize > 0 && !nodes'[id].used
      && nodes'[id].neighborPrev == Prev(chain, i) && nodes'[id].neighborNext == Next(chain, j - 1)
    requires forall x :: 0 <= x < |nodes| && x != id ==>
      SameBlock(nodes'[x], LinkedIn(nodes[x], x, id, Prev(chain, i), Next(chain, j - 1)))
    ensures Blocks(nodes', Spliced(chain, i, j, [id]), live', capacity)
    ensures LiveOf(nodes', live') == LiveOf(nodes, live) - {id}
  {
    TakeBackChain(nodes, nodes', chain, capacity, i, j, id);
    hide NoAdjacentFree, Spliced, SameBlock, LinkedIn, StartAt, EndOf, Prev, Next;
    SpliceIds(chain, live, i, j, [id], live');
    hide ChainOk;
    MergeLive(nodes, nodes', live, live', chain[i..j], id);
  }

  lemma TakeBackChain(
    nodes: seq<Node>, nodes': seq<Node>, chain: seq<nat>, capacity: nat, i: nat, j: nat, id: nat)
    requires ChainOk(nodes, chain, capacity) && NoAdjacentFree(nodes, chain)
    requires |nodes'| == |nodes| && i < j <= |chain| && id < |nodes| && id in chain[i..j]
    requires i > 0 && chain[i - 1] < |nodes| ==> nodes[chain[i - 1]].used
    requires j < |chain| && chain[j] < |nodes| ==> nodes[chain[j]].used
    requires
      && nodes'[id].dataOffset == StartAt(nodes, chain, i)
      && EndOf(nodes'[id]) == StartAt(nodes, chain, j) && nodes'[id].dataSize > 0
      && nodes'[id].neighborPrev == Prev(chain, i) && nodes'[id].neighborNext == Next(chain, j - 1)
    requires forall x :: 0 <= x < |nodes| && x != id ==>
      SameBlock(nodes'[x], LinkedIn(nodes[x], x, id, Prev(chain, i), Next(chain, j - 1)))
    ensures ChainOk(nodes', Spliced(chain, i, j, [id]), capacity)
    ensures NoAdjacentFree(nodes', Spliced(chain, i, j, [id]))
    ensures Distinct(chain)
    ensures forall x :: 0 <= x < |nodes| && x != id ==>
      && nodes'[x].used == nodes[x].used && nodes'[x].dataOffset == nodes[x].dataOffset
      && nodes'[x].dataSize == nodes[x].dataSize
  {
    ChainIds(nodes, chain, capacity);
    hide StartAt, EndOf, Prev, Next, Spliced;
    var q :| i <= q < j && chain[q] == id;
    MergeChain(nodes, nodes', chain, capacity, i, j, id);
    MergeSeparated(nodes, nodes', chain, capacity, i, j, id);
  }

  lemma MergeLive(nodes: seq<Node>, nodes': seq<Node>, live: set<nat>, live': set<nat>, gone: seq<nat>, id: nat)
    requires id < |nodes| == |nodes'| && !nodes'[id].used
    requires forall x :: x in live' <==> x == id || (x in live && x !in gone)
    requires forall x :: x in gone && x < |nodes| && x != id ==> !nodes[x].used
    requires forall x :: 0 <= x < |nodes| && x != id ==>
      && nodes'[x].used == nodes[x].used && nodes'[x].dataOffset == nodes[x].dataOffset
      && nodes'[x].dataSize == nodes[x].dataSize
    ensures LiveOf(nodes', live') == LiveOf(nodes, live) - {id}
  {
  }

  lemma EmptyIds()
    ensures FreeIds([], 0, {}, 0)
  {
  }

  lemma Extended<T>(a: seq<T>, b: seq<T>)
    ensures (a + b)[..|a|] == a
  {
  }

  /** Growing the node vector and the id stack keeps all the books. */
  lemma GrowBooks(
    nodes: seq<Node>, stack: seq<nat>, ptr: nat, binIndices: seq<int>, bins: seq<seq<nat>>, live: set<nat>, n: nat)
    requires BinLists(nodes, binIndices, bins) && Listed(nodes, bins, live)
    requires FreeIds(stack, ptr, live, |nodes|) && |nodes| <= n
    ensures
      var nodes', stack' := nodes + Blanks(n - |nodes|), stack + Iota(|nodes|, n);
      && BinLists(nodes', binIndices, bins) && Listed(nodes', bins, live)
      && FreeIds(stack', ptr, live, n) && |nodes'| == n
      && TotalFree(nodes', live, n) == TotalFree(nodes, live, |nodes|)
      && nodes'[..|nodes|] == nodes
  {
    hide BinLists, Listed, FreeIds, TotalFree;
    var nodes', stack' := nodes + Blanks(n - |nodes|), stack + Iota(|nodes|, n);
    IdsWithin(stack, ptr, live, |nodes|);
    Extended(nodes, Blanks(n - |nodes|));
    Extended(stack, Iota(|nodes|, n));
    GrowIds(stack, ptr, live, |nodes|, stack', n);
    GrowStore(nodes, nodes', binIndices, bins, live);
  }

  /** The state after construction: one free block. */
  lemma OneBlock(nodes: seq<Node>, nodes': seq<Node>, id: nat, capacity: nat)
    requires forall i :: 0 <= i < |nodes| ==> nodes[i] == BLANK
    requires id < |nodes| == |nodes'| && capacity > 0
    requires SameBlock(nodes'[id], Node(0, capacity, INVALID, INVALID, INVALID, INVALID, false))
    requires forall i :: 0 <= i < |nodes| && i != id ==> SameBlock(nodes'[i], nodes[i])
    ensures Blocks(nodes', [id], {id}, capacity)
    ensures LiveOf(nodes', {id}) == map[] && TotalFree(nodes', {id}, |nodes'|) == capacity
  {
    assert BlockOk(nodes', [id], 0);
    TotalZero(nodes, {}, |nodes|);
    TotalChange(nodes, {}, nodes', {id}, id, |nodes|);
  }

  // ----- conservation

  function UsedSize(nodes: seq<Node>, live: set<nat>, id: nat): nat
    requires id < |nodes|
  {
    if id in live && nodes[id].used then nodes[id].dataSize else 0
  }

  /** The total of the sizes in force. */
  function TotalUsed(nodes: seq<Node>, live: set<nat>, n: nat): nat
    requires n <= |nodes|
  {
    if n == 0 then 0 else TotalUsed(nodes, live, n - 1) + UsedSize(nodes, live, n - 1)
  }

  lemma {:induction false} TotalsAddOne(nodes: seq<Node>, s: set<nat>, id: nat, n: nat)
    requires id !in s && n <= |nodes|
    ensures TotalFree(nodes, s + {id}, n) + TotalUsed(nodes, s + {id}, n)
         == TotalFree(nodes, s, n) + TotalUsed(nodes, s, n) + if id < n then nodes[id].dataSize else 0
  {
    if n > 0 {
      TotalsAddOne(nodes, s, id, n - 1);
    }
  }

  lemma {:induction false} TotalsNone(nodes: seq<Node>, n: nat)
    requires n <= |nodes|
    ensures TotalFree(nodes, {}, n) + TotalUsed(nodes, {}, n) == 0
  {
    if n > 0 {
      TotalsNone(nodes, n - 1);
    }
  }

  /** The blocks before position k of the chain fill the addresses before it. */
  lemma {:induction false} PrefixTotals(nodes: seq<Node>, chain: seq<nat>, capacity: nat, k: nat)
    requires ChainOk(nodes, chain, capacity) && k <= |chain|
    ensures TotalFree(nodes, Elements(chain[..k]), |nodes|) + TotalUsed(nodes, Elements(chain[..k]), |nodes|)
         == StartAt(nodes, chain, k)
  {
    if k == 0 {
      assert Elements(chain[..0]) == {};
      TotalsNone(nodes, |nodes|);
    } else {
      PrefixTotals(nodes, chain, capacity, k - 1);
      ChainIds(nodes, chain, capacity);
      assert BlockOk(nodes, chain, k - 1);
      assert chain[..k] == chain[..k - 1] + [chain[k - 1]];
      assert Elements(chain[..k]) == Elements(chain[..k - 1]) + {chain[k - 1]};
      hide ChainOk, BlockOk;
      TotalsAddOne(nodes, Elements(chain[..k - 1]), chain[k - 1], |nodes|);
    }
  }

  /** Blank nodes behind the others change nothing. */
  lemma GrowBlocks(nodes: seq<Node>, nodes': seq<Node>, chain: seq<nat>, live: set<nat>, capacity: nat)
    requires Blocks(nodes, chain, live, capacity) && |nodes| <= |nodes'| && nodes'[..|nodes|] == nodes
    requires forall i :: |nodes| <= i < |nodes'| ==> nodes'[i] == BLANK
    ensures Blocks(nodes', chain, live, capacity) && LiveOf(nodes', live) == LiveOf(nodes, live)
    ensures FreeOf(nodes', live) == FreeOf(nodes, live)
  {
    assert forall i :: 0 <= i < |nodes| ==> nodes'[i] == nodes'[..|nodes|][i];
    ChainFrame(nodes, nodes', chain, capacity);
    ChainIds(nodes, chain, capacity);
    hide ChainOk;
    forall k | 0 <= k < |chain| - 1 ensures Separated(nodes', chain, k) {
      assert Separated(nodes, chain, k);
    }
  }

  lemma GrowStore(
    nodes: seq<Node>, nodes': seq<Node>, binIndices: seq<int>, bins: seq<seq<nat>>, live: set<nat>)
    requires BinLists(nodes, binIndices, bins) && Listed(nodes, bins, live)
    requires |nodes| <= |nodes'| && nodes'[..|nodes|] == nodes && forall id :: id in live ==> id < |nodes|
    ensures BinLists(nodes', binIndices, bins) && Listed(nodes', bins, live)
    ensures TotalFree(nodes', live, |nodes'|) == TotalFree(nodes, live, |nodes|)
  {
    hide FloatBins.FloorToFloat;
    assert forall i :: 0 <= i < |nodes| ==> nodes'[i] == nodes'[..|nodes|][i];
    BinsFrame(nodes, nodes', binIndices, bins);
    forall b, id | 0 <= b < |bins| && id in bins[b] ensures Member(nodes', live, b, id) {
      assert Member(nodes, live, b, id);
    }
    forall id | id in live ensures Filed(nodes', bins, id) {
      assert Filed(nodes, bins, id);
    }
    TotalSame(nodes, live, nodes', live, |nodes|);
    TotalBeyond(nodes', live, |nodes|, |nodes'|);
  }

  lemma {:induction false} TotalBeyond(nodes: seq<Node>, live: set<nat>, n: nat, m: nat)
    requires n <= m <= |nodes| && forall id :: id in live ==> id < n
    ensures TotalFree(nodes, live, m) == TotalFree(nodes, live, n)
  {
    if n < m {
      TotalBeyond(nodes, live, n, m - 1);
    }
  }

  class Miniram {
    const bits: nat
    const capacity: nat
    var freeStorage: nat
    var usedBinsTop: Word
    var usedBins: seq<Word>
    var binIndices: seq<int>
    var nodes: seq<Node>
    var freeNodes: seq<nat>
    var freeStackPtr: nat

    /** The bin lists' contents, the ids not on the free stack, and the blocks in address order. */
    ghost var bins: seq<seq<nat>>
    ghost var live: set<nat>
    ghost var chain: seq<nat>

    /** The bookkeeping of free blocks and unused ids is in order. */
    ghost predicate Store()
      reads this`freeStorage, this`usedBinsTop, this`usedBins, this`binIndices, this`nodes, this`freeNodes
      reads this`freeStackPtr, this`bins, this`live
    {
      && bits >= LEAF_BITS && |usedBins| == bits
      && BinLists(nodes, binIndices, bins)
      && Listed(nodes, bins, live)
      && Bitmaps(usedBinsTop, usedBins, binIndices)
      && FreeIds(freeNodes, freeStackPtr, live, |nodes|)
      && freeStorage == TotalFree(nodes, live, |nodes|)
    }

    /** The whole invariant. */
    ghost predicate Valid()
      reads this
    {
      && Store()
      && 0 < capacity < Pow2(bits) && |nodes| >= 2
      && Blocks(nodes, chain, live, capacity)
    }

    /** The allocations in force. */
    ghost function Live(): map<nat, Range>
      reads this
    {
      LiveOf(nodes, live)
    }

    /** The free blocks. */
    ghost function FreeBlocks(): map<nat, Range>
      reads this`nodes, this`live
    {
      FreeOf(nodes, live)
    }

    constructor (bits: nat, capacity: nat, initialAllocCapacity: nat)
      requires bits >= LEAF_BITS && 0 < capacity < Pow2(bits) && initialAllocCapacity >= 1
      ensures Valid() && Live() == map[] && freeStorage == capacity
      ensures this.bits == bits && this.capacity == capacity
    {
      this.bits, this.capacity := bits, capacity;
      usedBinsTop := Zero(bits);
      usedBins := seq(bits, _ => Zero(LEAF_BITS));
      binIndices := seq(LEAF_BITS * bits, _ => INVALID);
      nodes, freeNodes, freeStackPtr, freeStorage := [], [], 0, 0;
      bins := seq(LEAF_BITS * bits, _ => []);
      live, chain := {}, [];
      new;
      hide FreeIds, LowestBin;
      EmptyIds();
      hide Bitmaps, BinLists, Listed, TotalFree, Blocks, LiveOf;
      ReserveNodes(initialAllocCapacity + 1);
      ghost var nodes0 := nodes;
      var id := InsertNode(capacity, 0);
      chain := [id];
      OneBlock(nodes0, nodes, id, capacity);
    }

    // ----- nodes

    method NewNode(size: nat) returns (id: nat)
      requires freeStackPtr < |freeNodes|
      modifies this`freeStorage, this`freeStackPtr
      ensures freeStorage == old(freeStorage) + size
      ensures id == freeNodes[old(freeStackPtr)] && freeStackPtr == old(freeStackPtr) + 1
    {
      freeStorage := freeStorage + size;
      id := freeNodes[freeStackPtr];
      freeStackPtr := freeStackPtr + 1;
    }

    /** Makes node id the first of bin b, marking the bin if it was empty. */
    method OccupyBin(b: nat, id: nat)
      requires Bitmaps(usedBinsTop, usedBins, binIndices) && b < |binIndices|
      modifies this`usedBinsTop, this`usedBins, this`binIndices
      ensures Bitmaps(usedBinsTop, usedBins, binIndices) && binIndices == old(binIndices)[b := id]
      ensures |usedBins| == old(|usedBins|)
    {
      var topBinIndex := b / FloatBins.BINS_PER_LEAF;
      var leafBinIndex := b % FloatBins.BINS_PER_LEAF;
      if binIndices[b] == INVALID {
        BitmapFill(usedBinsTop, usedBins, binIndices, topBinIndex, leafBinIndex, id);
        usedBinsTop := Or(usedBinsTop, OneAt(|usedBinsTop|, topBinIndex));
        usedBins := usedBins[topBinIndex := Or(usedBins[topBinIndex], OneAt(LEAF_BITS, leafBinIndex))];
      } else {
        BitmapSame(usedBinsTop, usedBins, binIndices, b, id);
      }
      binIndices := binIndices[b := id];
    }

    /** Makes `next` the first of the non-empty bin b, unmarking the bin if that leaves it empty. */
    method AdvanceBin(b: nat, next: int)
      requires Bitmaps(usedBinsTop, usedBins, binIndices) && b < |binIndices| && binIndices[b] != INVALID
      modifies this`usedBinsTop, this`usedBins, this`binIndices
      ensures Bitmaps(usedBinsTop, usedBins, binIndices) && binIndices == old(binIndices)[b := next]
      ensures |usedBins| == old(|usedBins|)
    {
      var topBinIndex := b / FloatBins.BINS_PER_LEAF;
      var leafBinIndex := b % FloatBins.BINS_PER_LEAF;
      if next == INVALID {
        BitmapClear(usedBinsTop, usedBins, binIndices, topBinIndex, leafBinIndex);
      } else {
        BitmapSame(usedBinsTop, usedBins, binIndices, b, next);
      }
      binIndices := binIndices[b := next];
      if binIndices[b] == INVALID {
        usedBins := usedBins[topBinIndex := And(usedBins[topBinIndex], Not(OneAt(LEAF_BITS, leafBinIndex)))];
        if IsZero(usedBins[topBinIndex]) {
          usedBinsTop := And(usedBinsTop, Not(OneAt(|usedBinsTop|, topBinIndex)));
        }
      }
    }

    /** Files a new free block; its neighbours are for the caller to link. */
    method InsertNode(size: nat, dataOffset: nat) returns (id: nat)
      requires Store() && 0 < size < Pow2(bits) && freeStackPtr < |nodes|
      modifies this`freeStorage, this`freeStackPtr, this`usedBinsTop, this`usedBins, this`binIndices, this`nodes
      modifies this`bins, this`live
      ensures Store() && |nodes| == old(|nodes|)
      ensures id == freeNodes[old(freeStackPtr)] < |nodes| && freeStackPtr == old(freeStackPtr) + 1
      ensures id !in old(live) && live == old(live) + {id}
      ensures
        var b := FloatBins.FloorToFloat(size);
        b < old(|bins|) && bins == old(bins)[b := [id] + old(bins)[b]]
      ensures SameBlock(nodes[id], Node(dataOffset, size, INVALID, INVALID, INVALID, INVALID, false))
      ensures forall i :: 0 <= i < |nodes| && i != id ==> SameBlock(nodes[i], old(nodes[i]))
    {
      hide BinLists, Listed, FreeIds, TotalFree, FloatBins.FloorToFloat;
      ghost var nodes0 := nodes;
      PopFacts(freeNodes, freeStackPtr, live, |nodes|);
      id := NewNode(size);
      var binIndex := FloatBins.FloorToFloat(size);
      FloatBins.BinsInRange(size, bits);
      var listPos := binIndices[binIndex];
      var node := Node(dataOffset, size, INVALID, listPos, INVALID, INVALID, false);
      BinCount(nodes, binIndices, bins);
      InsertBins(nodes, binIndices, bins, live, id, node, binIndex);
      hide Bitmaps;
      OccupyBin(binIndex, id);
      nodes := nodes[id := node];
      if listPos != INVALID {
        nodes := SetPrev(nodes, listPos, id);
      }
      assert nodes == Pushed(nodes0, id, node, listPos);
      hide Pushed;
      bins := bins[binIndex := [id] + bins[binIndex]];
      TotalChange(nodes0, live, nodes, live + {id}, id, |nodes|);
      live := live + {id};
    }

    /** Returns id to the stack of unused ids. */
    method PushFreeNode(id: nat)
      requires FreeIds(freeNodes, freeStackPtr, live, |nodes|) && id in live
      modifies this`freeNodes, this`freeStackPtr
      ensures FreeIds(freeNodes, freeStackPtr, live - {id}, |nodes|) && |freeNodes| == |nodes|
      ensures freeStackPtr == old(freeStackPtr) - 1 && freeStackPtr < |freeNodes| && freeNodes[freeStackPtr] == id
    {
      PushId(freeNodes, freeStackPtr, live, |nodes|, id);
      freeStackPtr := freeStackPtr - 1;
      freeNodes := freeNodes[freeStackPtr := id];
    }

    /** Takes a free block out of its bin and its id out of use. */
    method RemoveNode(id: nat)
      requires Store() && id in live && id < |nodes| && !nodes[id].used
      modifies this`freeStorage, this`freeStackPtr, this`freeNodes, this`usedBinsTop, this`usedBins, this`binIndices
      modifies this`nodes, this`bins, this`live
      ensures Store() && |nodes| == old(|nodes|) && live == old(live) - {id}
      ensures freeStackPtr == old(freeStackPtr) - 1 && freeStackPtr < |freeNodes| && freeNodes[freeStackPtr] == id
      ensures forall i :: 0 <= i < |nodes| ==> SameBlock(nodes[i], old(nodes[i]))
    {
      hide BinLists, Listed, FreeIds, TotalFree, FloatBins.FloorToFloat, Bitmaps, ListOk;
      ghost var nodes0 := nodes;
      ghost var b, k := Locate(nodes, binIndices, bins, live, id);
      UnlinkBins(nodes, binIndices, bins, live, id, b, k);
      BinFacts(nodes, binIndices, bins, b, k);
      var node := nodes[id];
      if node.binListPrev != INVALID {
        nodes := SetNext(nodes, node.binListPrev, node.binListNext);
        if node.binListNext != INVALID {
          nodes := SetPrev(nodes, node.binListNext, node.binListPrev);
        }
      } else {
        var binIndex := FloatBins.FloorToFloat(node.dataSize);
        AdvanceBin(binIndex, node.binListNext);
        if node.binListNext != INVALID {
          nodes := SetPrev(nodes, node.binListNext, INVALID);
        }
      }
      assert nodes == Unlinked(nodes0, id);
      hide Unlinked;
      UnlinkListed(nodes0, nodes, bins, live, live - {id}, id, b, k);
      bins := bins[b := Without(bins[b], k)];
      TotalSame(nodes0, live, nodes, live, |nodes|);
      FreeNode(id);
    }

    method FreeNode(id: nat)
      requires FreeIds(freeNodes, freeStackPtr, live, |nodes|) && id in live && id < |nodes| && !nodes[id].used
      requires freeStorage == TotalFree(nodes, live, |nodes|)
      modifies this`freeStorage, this`freeStackPtr, this`freeNodes, this`live
      ensures live == old(live) - {id}
      ensures FreeIds(freeNodes, freeStackPtr, live, |nodes|) && freeStorage == TotalFree(nodes, live, |nodes|)
      ensures freeStackPtr == old(freeStackPtr) - 1 && freeStackPtr < |freeNodes| && freeNodes[freeStackPtr] == id
    {
      hide FreeIds, TotalFree;
      TotalChange(nodes, live, nodes, live - {id}, id, |nodes|);
      freeStorage := freeStorage - nodes[id].dataSize;
      PushFreeNode(id);
      live := live - {id};
    }

    /** Hands out the first sliceSize units of the block at the front of a bin; what is left over is cut off. */
    method TakeHead(sliceSize: nat, binId: nat) returns (id: nat)
      requires Store() && binId < |binIndices| && 0 <= binIndices[binId] < |nodes|
      requires 0 < sliceSize
      modifies this`freeStorage, this`usedBinsTop, this`usedBins, this`binIndices, this`nodes, this`bins
      ensures Store() && |nodes| == old(|nodes|)
      ensures id == old(binIndices[binId]) < |nodes| && id in live && !old(nodes[id]).used
      ensures SameBlock(nodes[id], old(nodes[id]).(dataSize := sliceSize, used := true))
      ensures forall i :: 0 <= i < |nodes| && i != id ==> SameBlock(nodes[i], old(nodes[i]))
    {
      hide BinLists, Listed, FreeIds, TotalFree, FloatBins.FloorToFloat, Bitmaps, ListOk;
      ghost var nodes0 := nodes;
      id := binIndices[binId];
      HeadFacts(nodes, binIndices, bins, live, binId);
      UnlinkBins(nodes, binIndices, bins, live, id, binId, 0);
      BinFacts(nodes, binIndices, bins, binId, 0);
      var node := nodes[id];
      TotalAtLeast(nodes, live, id, |nodes|);
      freeStorage := freeStorage - node.dataSize;
      var next := node.binListNext;
      nodes := nodes[id := node.(dataSize := sliceSize, used := true)];
      AdvanceBin(binId, next);
      if next != INVALID {
        nodes := SetPrev(nodes, next, INVALID);
      }
      ghost var unlinked := Unlinked(nodes0, id);
      assert nodes == unlinked[id := unlinked[id].(dataSize := sliceSize, used := true)];
      hide Unlinked;
      UnlinkListed(nodes0, nodes, bins, live, live, id, binId, 0);
      ghost var bins' := bins[binId := Without(bins[binId], 0)];
      BinsFrame(unlinked, nodes, binIndices, bins');
      TotalChange(nodes0, live, nodes, live, id, |nodes|);
      bins := bins';
    }

    /** Links node id in between prev and next. */
    method LinkNeighbors(id: nat, prev: int, next: int)
      requires Store() && id < |nodes| && INVALID <= prev < |nodes| && INVALID <= next < |nodes|
      requires prev != id && next != id && (prev == next ==> prev == INVALID)
      modifies this`nodes
      ensures Store() && |nodes| == old(|nodes|)
      ensures forall i :: 0 <= i < |nodes| ==> nodes[i] == LinkedIn(old(nodes[i]), i, id, prev, next)
    {
      ghost var nodes0 := nodes;
      nodes := nodes[id := nodes[id].(neighborPrev := prev, neighborNext := next)];
      if next != INVALID {
        nodes := nodes[next := nodes[next].(neighborPrev := id)];
      }
      if prev != INVALID {
        nodes := nodes[prev := nodes[prev].(neighborNext := id)];
      }
      ListingFrame(nodes0, nodes, binIndices, bins, live);
    }

    /** Hands out the first part of the block at the front of a bin and files the rest as a new block. */
    method SliceTopBinNode(sliceSize: nat, binId: nat) returns (id: nat)
      requires Valid() && binId < |binIndices| && 0 <= binIndices[binId] < |nodes|
      requires 0 < sliceSize <= nodes[binIndices[binId]].dataSize && freeStackPtr < |nodes|
      modifies this
      ensures Valid() && id == old(binIndices[binId]) < |nodes|
      ensures |nodes| == old(|nodes|) && nodes[id].dataOffset == old(nodes[id].dataOffset)
      ensures id !in old(Live())
      ensures Live() == old(Live())[id := Range(nodes[id].dataOffset, sliceSize)]
    {
      hide Store, Blocks, LiveOf, Spliced;
      ghost var nodes0, chain0, live0 := nodes, chain, live;
      StoreHead(binId);
      ghost var p := BlockFacts(nodes, chain, live, capacity, binIndices[binId]);
      var nodeTotalSize := nodes[binIndices[binId]].dataSize;
      id := TakeHead(sliceSize, binId);
      var reminderSize := nodeTotalSize - sliceSize;
      if reminderSize > 0 {
        var rest := InsertNode(reminderSize, nodes[id].dataOffset + sliceSize);
        LinkNeighbors(rest, id, nodes[id].neighborNext);
        HandOutPart(nodes0, nodes, chain0, live0, capacity, id, p, sliceSize, rest);
        chain := Spliced(chain0, p, p + 1, [id, rest]);
      } else {
        HandOutWhole(nodes0, nodes, chain0, live0, capacity, id);
      }
    }

    /** The node at the front of a non-empty bin is a free block of that bin. */
    lemma StoreHead(binId: nat)
      requires Store() && binId < |binIndices| && binIndices[binId] != INVALID
      ensures 0 <= binIndices[binId] < |nodes| && Member(nodes, live, binId, binIndices[binId])
    {
      HeadFacts(nodes, binIndices, bins, live, binId);
    }

    /** The front of the lowest non-empty bin from the rounded-up size on is a good fit. */
    lemma HeadIsGoodFit(size: nat, b: nat)
      requires Store() && FloatBins.CeilToFloat(size) <= b < |binIndices| && binIndices[b] != INVALID
      requires forall c :: FloatBins.CeilToFloat(size) <= c < b ==> binIndices[c] == INVALID
      ensures 0 <= binIndices[b] < |nodes|
      ensures
        var id: nat := binIndices[b];
        && GoodFit(FreeBlocks(), size, id) && FrontOfBin(id)
        && nodes[id].dataOffset == FreeBlocks()[id].offset
    {
      StoreHead(b);
      HeadFacts(nodes, binIndices, bins, live, b);
      hide FloatBins.FloorToFloat, FloatBins.CeilToFloat, Bitmaps, FreeIds, TotalFree;
      forall x | Suits(FreeBlocks(), size, x) ensures b <= FloatBins.FloorToFloat(FreeBlocks()[x].size) {
        var c, k := Locate(nodes, binIndices, bins, live, x);
        BinFacts(nodes, binIndices, bins, c, k);
      }
    }

    /** The free block id was filed last in its bin. */
    ghost predicate FrontOfBin(id: nat)
      reads this`nodes, this`live, this`bins
    {
      id in FreeBlocks() &&
      var b := FloatBins.FloorToFloat(FreeBlocks()[id].size);
      b < |bins| && bins[b] != [] && bins[b][0] == id
    }

    // ----- capacity for nodes

    function AllocCapacity(): int
      reads this`nodes
    {
      |nodes| - 1
    }

    function RemainingAllocs(): int
      reads this`nodes, this`freeStackPtr
    {
      |nodes| - freeStackPtr
    }

    method ReserveNodes(nodeCapacity: nat)
      requires Store()
      modifies this`nodes, this`freeNodes
      ensures Store() && |nodes| == if nodeCapacity <= old(|nodes|) then old(|nodes|) else nodeCapacity
      ensures nodes[..old(|nodes|)] == old(nodes)
      ensures forall i :: old(|nodes|) <= i < |nodes| ==> nodes[i] == BLANK
    {
      if nodeCapacity <= |nodes| {
        return;
      }
      hide BinLists, Listed, Bitmaps, TotalFree, FreeIds, Blanks, Iota;
      var oldCapacity := |nodes|;
      GrowBooks(nodes, freeNodes, freeStackPtr, binIndices, bins, live, nodeCapacity);
      nodes := nodes + Blanks(nodeCapacity - oldCapacity);
      freeNodes := freeNodes + Iota(oldCapacity, nodeCapacity);
    }

    method ReserveAllocations(allocCapacity: nat)
      requires Valid()
      modifies this`nodes, this`freeNodes
      ensures Valid() && Live() == old(Live())
      ensures |nodes| == if allocCapacity + 1 <= old(|nodes|) then old(|nodes|) else allocCapacity + 1
      ensures FreeBlocks() == old(FreeBlocks()) && nodes[..old(|nodes|)] == old(nodes)
    {
      hide Store, Blocks, LiveOf, FreeOf;
      ghost var nodes0 := nodes;
      ReserveNodes(allocCapacity + 1);
      GrowBlocks(nodes0, nodes, chain, live, capacity);
    }

    // ----- allocate and free

    /** Some bin from the rounded-up size on has a block. */
    ghost predicate Serves(size: nat)
      reads this`binIndices
    {
      exists b :: FloatBins.CeilToFloat(size) <= b < |binIndices| && binIndices[b] != INVALID
    }

    /** The size of the blocks of a bin is at least the bin's value. */
    lemma BinServes(b: nat, size: nat)
      requires Store() && b < |binIndices| && binIndices[b] != INVALID && FloatBins.CeilToFloat(size) <= b
      ensures 0 <= binIndices[b] < |nodes| && size <= nodes[binIndices[b]].dataSize <= freeStorage
    {
      StoreHead(b);
      hide FloatBins.FloorToFloat, FloatBins.CeilToFloat, FloatBins.ToUint, BinLists, Listed, Bitmaps, FreeIds;
      var id := binIndices[b];
      FloatBins.FloorIsGreatest(nodes[id].dataSize, b);
      FloatBins.CeilIsLeast(size, b);
      TotalAtLeast(nodes, live, id, |nodes|);
    }

    method Allocate(size: nat) returns (r: AllocResult)
      requires Valid() && 0 < size < Pow2(bits)
      modifies this
      ensures Valid()
      ensures r.Allocated? <==> old(Allocatable(size))
      ensures r.NoSpace? ==> Live() == old(Live())
      ensures r.Allocated? ==>
                && r.allocation.id !in old(Live())
                && Live() == old(Live())[r.allocation.id := Range(r.allocation.offset, size)]
      ensures r.Allocated? ==>
                && old(GoodFit(FreeBlocks(), size, r.allocation.id) && FrontOfBin(r.allocation.id))
                && r.allocation.offset == old(FreeBlocks()[r.allocation.id].offset)
      ensures |nodes| == if size > old(freeStorage) || old(RemainingAllocs()) > 0 then old(|nodes|)
                         else ALLOC_GROW_FACTOR * old(AllocCapacity()) + 1
    {
      MaxAllocExact(size);
      hide Store, Blocks, LiveOf, LowestBin, MaxAlloc, FreeOf, GoodFit;
      if size > freeStorage {
        forall b | FloatBins.CeilToFloat(size) <= b < |binIndices| ensures binIndices[b] == INVALID {
          if binIndices[b] != INVALID {
            BinServes(b, size);
          }
        }
        return NoSpace;
      }
      if RemainingAllocs() == 0 {
        ReserveAllocations(AllocCapacity() * ALLOC_GROW_FACTOR);
      }
      var minBinId := FloatBins.CeilToFloat(size);
      StoreBitmaps();
      FloatBins.BinsInRange(size, bits);
      LowestBinSpec(usedBinsTop, usedBins, binIndices, minBinId);
      var binIndex := LowestBin(usedBinsTop, usedBins, minBinId);
      if binIndex == INVALID {
        return NoSpace;
      }
      BinServes(binIndex, size);
      HeadIsGoodFit(size, binIndex);
      var id := SliceTopBinNode(size, binIndex);
      return Allocated(Allocation(nodes[id].dataOffset, id));
    }

    // ----- queries

    /** A free block makes the top bitmap non-zero. */
    lemma TopNotZero()
      requires Store() && freeStorage > 0
      ensures !IsZero(usedBinsTop)
    {
      if IsZero(usedBinsTop) {
        forall i | 0 <= i < |nodes| ensures FreeSize(nodes, live, i) == 0 {
          if i in live && !nodes[i].used {
            var b, k := Locate(nodes, binIndices, bins, live, i);
            BinFacts(nodes, binIndices, bins, b, k);
            BinBitOf(usedBinsTop, usedBins, binIndices, b);
          }
        }
        TotalZero(nodes, live, |nodes|);
      }
    }

    lemma LeafNotZero(t: nat)
      requires Store() && t < |usedBinsTop| && usedBinsTop[t]
      ensures t < |usedBins| && !IsZero(usedBins[t]) && |usedBins[t]| == LEAF_BITS
    {
      TopBitOf(usedBinsTop, usedBins, binIndices, t);
    }

    function MaxAlloc(): nat
      requires Store()
      reads this
    {
      if freeStorage == 0 then 0
      else
        TopNotZero();
        var topBinIndex := TopBit(usedBinsTop);
        LeafNotZero(topBinIndex);
        var leafBinIndex := TopBit(usedBins[topBinIndex]);
        FloatBins.ToUint(topBinIndex * LEAF_BITS + leafBinIndex)
    }

    predicate Allocatable(size: nat)
      requires Store()
      reads this
    {
      size <= MaxAlloc()
    }

    /** max_alloc is exactly the largest size that some bin serves. */
    lemma MaxAllocExact(size: nat)
      requires Store() && size > 0
      ensures size <= MaxAlloc() <==> Serves(size)
    {
      hide Store, FloatBins.ToUint, FloatBins.CeilToFloat, Bitmaps, TopBit, LowestBin;
      StoreBitmaps();
      if freeStorage == 0 {
        if Serves(size) {
          var b :| FloatBins.CeilToFloat(size) <= b < |binIndices| && binIndices[b] != INVALID;
          BinServes(b, size);
        }
      } else {
        TopNotZero();
        var t := TopBit(usedBinsTop);
        LeafNotZero(t);
        HighestBin(usedBinsTop, usedBins, binIndices);
        FloatBins.CeilIsLeast(size, t * LEAF_BITS + TopBit(usedBins[t]));
      }
    }

    /** `size_of` */
    function SizeOf(id: nat): nat
      requires id < |nodes|
      reads this
    {
      nodes[id].dataSize
    }

    /** Allocations in force lie within the capacity and do not overlap. */
    lemma LiveDisjoint(a: nat, b: nat)
      requires Valid() && a in Live() && b in Live() && a != b
      ensures
        var x, y := Live()[a], Live()[b];
        && x.offset + x.size <= capacity && y.offset + y.size <= capacity && x.size > 0 && y.size > 0
        && (x.offset + x.size <= y.offset || y.offset + y.size <= x.offset)
        && SizeOf(a) == x.size
    {
      BlocksDisjoint(nodes, chain, capacity, a, b);
      var p := BlockFacts(nodes, chain, live, capacity, a);
      var q := BlockFacts(nodes, chain, live, capacity, b);
    }

    /** remaining() and the sizes in force add up to the capacity. */
    lemma Conservation()
      requires Valid()
      ensures freeStorage + TotalUsed(nodes, live, |nodes|) == capacity
    {
      PrefixTotals(nodes, chain, capacity, |chain|);
      assert chain[..|chain|] == chain && Elements(chain) == live;
    }

    /** Once everything is freed, in whatever order, there is one free block of the whole capacity. */
    lemma AllFreedIsWhole()
      requires Valid() && Live() == map[]
      ensures |chain| == 1 && freeStorage == capacity
      ensures chain[0] < |nodes| && !nodes[chain[0]].used
      ensures nodes[chain[0]].dataOffset == 0 && nodes[chain[0]].dataSize == capacity
    {
      forall id | id in chain && id < |nodes| ensures !nodes[id].used {
        assert id in live && id !in Live();
      }
      AllFreeIsOneBlock(nodes, chain, capacity);
      var id := chain[0];
      assert id in chain;
      TotalZero(nodes, {}, |nodes|);
      TotalChange(nodes, {}, nodes, live, id, |nodes|);
    }

    lemma StoreBitmaps()
      requires Store()
      ensures Bitmaps(usedBinsTop, usedBins, binIndices) && |usedBins| == bits >= LEAF_BITS
      ensures freeStackPtr <= |nodes|
    {
    }

    /** A used node is in force. */
    lemma UsedIsLive(id: nat)
      requires Valid() && id < |nodes| && nodes[id].used
      ensures id in live
    {
    }

    /** Takes the id of a used node out of force. */
    method Retire(id: nat)
      requires Store() && id in live && id < |nodes| && nodes[id].used
      modifies this`freeNodes, this`freeStackPtr, this`live
      ensures Store() && live == old(live) - {id} && |freeNodes| == |nodes|
      ensures freeStackPtr == old(freeStackPtr) - 1 && freeStackPtr < |freeNodes| && freeNodes[freeStackPtr] == id
    {
      IdsWithin(freeNodes, freeStackPtr, live, |nodes|);
      RetireListed(nodes, bins, live, id);
      hide BinLists, Listed, TotalFree, Bitmaps, FreeIds;
      PushFreeNode(id);
      live := live - {id};
    }

    /** The block before position p, when it is free: where the merged block then starts. */
    method AbsorbPrev(id: nat, ghost p: nat) returns (offset: nat, size: nat, prev: int, ghost i: nat)
      requires Valid() && id in live && p < |chain| && chain[p] == id < |nodes| && nodes[id].used
      modifies this`freeStorage, this`freeStackPtr, this`freeNodes, this`usedBinsTop, this`usedBins, this`binIndices
      modifies this`nodes, this`bins, this`live
      ensures Store() && |nodes| == old(|nodes|)
      ensures i <= p <= i + 1 && prev == Prev(chain, i)
      ensures offset == StartAt(old(nodes), chain, i) && offset + size == StartAt(old(nodes), chain, p + 1)
      ensures forall x :: 0 <= x < |nodes| ==> SameBlock(nodes[x], old(nodes[x]))
      ensures i == p ==> live == old(live) && (p > 0 && chain[p - 1] < |nodes| ==> old(nodes)[chain[p - 1]].used)
      ensures i < p ==> live == old(live) - {chain[i]} && chain[i] < |nodes| && !old(nodes)[chain[i]].used
    {
      hide Store, Blocks;
      var q := BlockFacts(nodes, chain, live, capacity, id);
      PositionsDiffer(nodes, chain, live, capacity, p, q);
      var node := nodes[id];
      offset, size, prev, i := node.dataOffset, node.dataSize, node.neighborPrev, p;
      if prev != INVALID && !nodes[prev].used {
        var prevNode := nodes[prev];
        i := p - 1;
        var o := BlockFacts(nodes, chain, live, capacity, prev);
        PositionsDiffer(nodes, chain, live, capacity, i, o);
        offset := prevNode.dataOffset;
        size := size + prevNode.dataSize;
        RemoveNode(prev);
        prev := prevNode.neighborPrev;
      }
    }

    /** The block behind position p, when it is free: how far the merged block then reaches. */
    method AbsorbNext(
      ghost nodes0: seq<Node>, ghost live0: set<nat>, size0: nat, next0: int, ghost p: nat, ghost start: nat)
      returns (size: nat, next: int, ghost j: nat)
      requires Store() && Blocks(nodes0, chain, live0, capacity) && |nodes| == |nodes0|
      requires forall x :: 0 <= x < |nodes| ==> SameBlock(nodes[x], nodes0[x])
      requires p < |chain| && next0 == Next(chain, p) && start + size0 == StartAt(nodes0, chain, p + 1)
      requires p + 1 < |chain| ==> chain[p + 1] in live
      modifies this`freeStorage, this`freeStackPtr, this`freeNodes, this`usedBinsTop, this`usedBins, this`binIndices
      modifies this`nodes, this`bins, this`live
      ensures Store() && |nodes| == |nodes0|
      ensures p + 1 <= j <= p + 2 && j <= |chain| && next == Next(chain, j - 1)
      ensures start + size == StartAt(nodes0, chain, j)
      ensures forall x :: 0 <= x < |nodes| ==> SameBlock(nodes[x], nodes0[x])
      ensures j == p + 1 ==> live == old(live) && (j < |chain| && chain[j] < |nodes| ==> nodes0[chain[j]].used)
      ensures j > p + 1 ==> live == old(live) - {chain[p + 1]} && chain[p + 1] < |nodes| && !nodes0[chain[p + 1]].used
    {
      hide Store, Blocks;
      size, next, j := size0, next0, p + 1;
      if p + 1 < |chain| {
        StretchFacts(nodes0, chain, live0, capacity, p, p, p + 1);
      }
      if next != INVALID && !nodes[next].used {
        var nextNode := nodes[next];
        j := p + 2;
        ghost var o := BlockFacts(nodes0, chain, live0, capacity, chain[p + 1]);
        PositionsDiffer(nodes0, chain, live0, capacity, p + 1, o);
        size := size + nextNode.dataSize;
        RemoveNode(next);
        next := nextNode.neighborNext;
      }
    }

    /** The used node id becomes a free block of the given range between the given neighbours. */
    method Refile(id: nat, offset: nat, size: nat, prev: int, next: int, ghost nodes0: seq<Node>)
      requires |nodes0| == |nodes| && forall x :: 0 <= x < |nodes| ==> SameBlock(nodes[x], nodes0[x])
      requires Store() && id in live && id < |nodes| && nodes[id].used && 0 < size < Pow2(bits)
      requires INVALID <= prev < |nodes| && INVALID <= next < |nodes|
      requires prev != id && next != id && (prev == next ==> prev == INVALID)
      modifies this`freeStorage, this`freeStackPtr, this`freeNodes, this`usedBinsTop, this`usedBins, this`binIndices
      modifies this`nodes, this`bins, this`live
      ensures Store() && live == old(live) && |nodes| == old(|nodes|)
      ensures SameBlock(nodes[id], Node(offset, size, INVALID, INVALID, prev, next, false))
      ensures forall x :: 0 <= x < |nodes| && x != id ==> SameBlock(nodes[x], LinkedIn(nodes0[x], x, id, prev, next))
      ensures FrontOfBin(id)
    {
      hide Store, FloatBins.FloorToFloat;
      Retire(id);
      var combined := InsertNode(size, offset);
      LinkNeighbors(combined, prev, next);
    }

    /** Takes the free neighbours of a used block out of the books: the range and neighbours of the merged block. */
    method MergeNeighbors(id: nat)
      returns (offset: nat, size: nat, prev: int, next: int, ghost i: nat, ghost j: nat)
      requires Valid() && id in live && id < |nodes| && nodes[id].used
      modifies this`freeStorage, this`freeStackPtr, this`freeNodes, this`usedBinsTop, this`usedBins, this`binIndices
      modifies this`nodes, this`bins, this`live
      ensures Store() && |nodes| == old(|nodes|)
      ensures forall x :: 0 <= x < |nodes| ==> SameBlock(nodes[x], old(nodes[x]))
      ensures i < j <= |chain| && id in chain[i..j] && id in live && nodes[id].used
      ensures Covers(Range(offset, size), Range(old(nodes)[id].dataOffset, old(nodes)[id].dataSize))
      ensures forall x :: x in live <==> x == id || (x in old(live) && x !in chain[i..j])
      ensures forall x :: x in chain[i..j] && x < |nodes| && x != id ==> !old(nodes)[x].used
      ensures i > 0 && chain[i - 1] < |nodes| ==> old(nodes)[chain[i - 1]].used
      ensures j < |chain| && chain[j] < |nodes| ==> old(nodes)[chain[j]].used
      ensures offset == StartAt(old(nodes), chain, i) && offset + size == StartAt(old(nodes), chain, j)
      ensures prev == Prev(chain, i) && next == Next(chain, j - 1) && 0 < size <= capacity
      ensures INVALID <= prev < |nodes| && INVALID <= next < |nodes|
      ensures prev != id && next != id && (prev == next ==> prev == INVALID)
    {
      hide Store, Blocks, StartAt, EndOf, SameBlock;
      ghost var nodes0, live0 := nodes, live;
      ghost var p := BlockFacts(nodes, chain, live, capacity, id);
      var next0 := nodes[id].neighborNext;
      var size0;
      offset, size0, prev, i := AbsorbPrev(id, p);
      PositionsInjective(nodes0, chain, live0, capacity);
      size, next, j := AbsorbNext(nodes0, live0, size0, next0, p, offset);
      assert nodes[id].used by {
        assert SameBlock(nodes[id], nodes0[id]);
        UsedAlike(nodes[id], nodes0[id]);
      }
      StretchFacts(nodes0, chain, live0, capacity, i, p, j);
      StretchCovers(nodes0, chain, live0, capacity, i, p, j);
      MergedStretch(nodes0, chain, live0, capacity, i, p, j);
    }

    /** Frees an allocation: the block merges with its free neighbours into one free block. */
    method Free(id: nat)
      requires Valid() && id < |nodes| && nodes[id].used
      modifies this
      ensures Valid() && Live() == old(Live()) - {id}
      ensures FrontOfBin(id)
      ensures Covers(FreeBlocks()[id], old(Range(nodes[id].dataOffset, nodes[id].dataSize)))
    {
      hide Store, Blocks, LiveOf, Spliced, SameBlock, LinkedIn, Prev, Next, StartAt, EndOf;
      ghost var nodes0, live0 := nodes, live;
      UsedIsLive(id);
      var offset, size, prevNeighbor, nextNeighbor, i, j := MergeNeighbors(id);
      Refile(id, offset, size, prevNeighbor, nextNeighbor, nodes0);
      BlockIs(nodes[id], offset, size, prevNeighbor, nextNeighbor);
      TakeBack(nodes0, nodes, chain, live0, live, capacity, i, j, id);
      chain := Spliced(chain, i, j, [id]);
    }
  }

  /** The bits of bin b. */
  ghost predicate BinBit(top: Word, leaves: seq<Word>, binIndices: seq<int>, b: nat)
    requires b < |binIndices| == LEAF_BITS * |leaves| && |top| == |leaves|
  {
    var t, l := b / LEAF_BITS, b % LEAF_BITS;
    && |leaves[t]| == LEAF_BITS
    && leaves[t][l] == (binIndices[b] != INVALID)
    && (binIndices[b] != INVALID ==> top[t])
  }

  lemma BinBitOf(top: Word, leaves: seq<Word>, binIndices: seq<int>, b: nat)
    requires Bitmaps(top, leaves, binIndices) && b < |binIndices|
    ensures |top| == |leaves| && |binIndices| == LEAF_BITS * |leaves| && BinBit(top, leaves, binIndices, b)
  {
    var t, l := b / LEAF_BITS, b % LEAF_BITS;
    assert LeafOk(top, leaves, binIndices, t);
    assert b == LEAF_BITS * t + l;
  }

  /** The highest bit of the highest leaf word is the last non-empty bin. */
  lemma HighestBin(top: Word, leaves: seq<Word>, binIndices: seq<int>)
    requires Bitmaps(top, leaves, binIndices) && !IsZero(top)
    ensures |top| == |leaves| && !IsZero(leaves[TopBit(top)])
    ensures
      var m := TopBit(top) * LEAF_BITS + TopBit(leaves[TopBit(top)]);
      m < |binIndices| && binIndices[m] != INVALID && forall b :: m < b < |binIndices| ==> binIndices[b] == INVALID
  {
    hide Bitmaps, TopBit;
    BitmapSizes(top, leaves, binIndices);
    var t := TopBit(top);
    TopBitOf(top, leaves, binIndices, t);
    var m := t * LEAF_BITS + TopBit(leaves[t]);
    BinBitOf(top, leaves, binIndices, m);
    forall b | m < b < |binIndices| ensures binIndices[b] == INVALID {
      BinBitOf(top, leaves, binIndices, b);
    }
  }

  lemma BitmapSizes(top: Word, leaves: seq<Word>, binIndices: seq<int>)
    requires Bitmaps(top, leaves, binIndices)
    ensures |binIndices| == LEAF_BITS * |leaves| && |top| == |leaves|
  {
  }

  lemma TopBitOf(top: Word, leaves: seq<Word>, binIndices: seq<int>, t: nat)
    requires Bitmaps(top, leaves, binIndices) && t < |leaves|
    ensures |top| == |leaves| && |leaves[t]| == LEAF_BITS && top[t] == !IsZero(leaves[t])
  {
    assert LeafOk(top, leaves, binIndices, t);
  }

  /** The search of `allocate` through the two bitmap levels for the lowest non-empty bin from minBin on. */
  function LowestBin(top: Word, leaves: seq<Word>, minBin: nat): int
    requires |top| == |leaves| >= LEAF_BITS && minBin / LEAF_BITS + 1 < |leaves|
    requires forall t :: 0 <= t < |leaves| ==> |leaves[t]| == LEAF_BITS
  {
    var minTop, minLeaf := minBin / LEAF_BITS, minBin % LEAF_BITS;
    var leaf := LeafFrom(top, leaves, minTop, minLeaf);
    if leaf != INVALID then minTop * LEAF_BITS + leaf
    else
      var topBinIndex := FindLowestBitAfter(top, minTop + 1);
      if topBinIndex == INVALID then INVALID
      else topBinIndex * LEAF_BITS + TrailingZeros(leaves[topBinIndex])
  }

  /** The lowest set bit from minLeaf on of the first leaf word, widened to the top mask's type. */
  function LeafFrom(top: Word, leaves: seq<Word>, minTop: nat, minLeaf: nat): (leaf: int)
    requires |top| == |leaves| >= LEAF_BITS && minTop < |leaves| && minLeaf < LEAF_BITS == |leaves[minTop]|
  {
    if top[minTop] then FindLowestBitAfter(leaves[minTop] + Zero(|top| - LEAF_BITS), minLeaf) else INVALID
  }

  lemma LeafFromSpec(top: Word, leaves: seq<Word>, minTop: nat, minLeaf: nat)
    requires |top| == |leaves| >= LEAF_BITS && minTop < |leaves| && minLeaf < LEAF_BITS == |leaves[minTop]|
    requires top[minTop] == !IsZero(leaves[minTop])
    ensures
      var r := LeafFrom(top, leaves, minTop, minLeaf);
      if r == INVALID then forall l :: minLeaf <= l < LEAF_BITS ==> !leaves[minTop][l]
      else minLeaf <= r < LEAF_BITS && leaves[minTop][r] && forall l :: minLeaf <= l < r ==> !leaves[minTop][l]
  {
    hide FindLowestBitAfter;
    var wide := leaves[minTop] + Zero(|top| - LEAF_BITS);
    assert forall l :: 0 <= l < LEAF_BITS ==> wide[l] == leaves[minTop][l];
    assert forall l :: LEAF_BITS <= l < |wide| ==> !wide[l];
  }

  /** LowestBin finds the lowest non-empty bin from minBin on, if there is one. */
  lemma LowestBinSpec(top: Word, leaves: seq<Word>, binIndices: seq<int>, minBin: nat)
    requires Bitmaps(top, leaves, binIndices) && |leaves| >= LEAF_BITS && minBin / LEAF_BITS + 1 < |leaves|
    ensures forall t :: 0 <= t < |leaves| ==> |leaves[t]| == LEAF_BITS
    ensures
      var r := LowestBin(top, leaves, minBin);
      && (r == INVALID || (minBin <= r < |binIndices| && binIndices[r] != INVALID))
      && forall b :: minBin <= b < |binIndices| && (r == INVALID || b < r) ==> binIndices[b] == INVALID
  {
    hide Bitmaps, FindLowestBitAfter, LeafFrom, TrailingZeros, IsZero, LowestBin, BinBit;
    BitmapSizes(top, leaves, binIndices);
    forall t | 0 <= t < |leaves| ensures |leaves[t]| == LEAF_BITS {
      TopBitOf(top, leaves, binIndices, t);
    }
    FoundBin(top, leaves, binIndices, minBin);
    var r := LowestBin(top, leaves, minBin);
    forall b | minBin <= b < |binIndices| && (r == INVALID || b < r) ensures binIndices[b] == INVALID {
      EmptyBefore(top, leaves, binIndices, minBin, b);
    }
  }

  /** The bin LowestBin returns is not empty. */
  lemma FoundBin(top: Word, leaves: seq<Word>, binIndices: seq<int>, minBin: nat)
    requires Bitmaps(top, leaves, binIndices) && |leaves| >= LEAF_BITS && minBin / LEAF_BITS + 1 < |leaves| == |top|
    requires forall t :: 0 <= t < |leaves| ==> |leaves[t]| == LEAF_BITS
    ensures
      var r := LowestBin(top, leaves, minBin);
      r == INVALID || (minBin <= r < |binIndices| && binIndices[r] != INVALID)
  {
    hide Bitmaps, FindLowestBitAfter, LeafFrom, TrailingZeros, IsZero;
    BitmapSizes(top, leaves, binIndices);
    var minTop, minLeaf := minBin / LEAF_BITS, minBin % LEAF_BITS;
    TopBitOf(top, leaves, binIndices, minTop);
    LeafFromSpec(top, leaves, minTop, minLeaf);
    var r := LowestBin(top, leaves, minBin);
    if LeafFrom(top, leaves, minTop, minLeaf) != INVALID {
      BinBitOf(top, leaves, binIndices, r);
    } else {
      var t := FindLowestBitAfter(top, minTop + 1);
      if t != INVALID {
        TopBitOf(top, leaves, binIndices, t);
        LowestOf(leaves[t]);
        BinBitOf(top, leaves, binIndices, r);
      }
    }
  }

  /** The bins that LowestBin passes over are empty. */
  lemma EmptyBefore(top: Word, leaves: seq<Word>, binIndices: seq<int>, minBin: nat, b: nat)
    requires Bitmaps(top, leaves, binIndices) && |leaves| >= LEAF_BITS && minBin / LEAF_BITS + 1 < |leaves|
    requires forall t :: 0 <= t < |leaves| ==> |leaves[t]| == LEAF_BITS
    requires
      var r := LowestBin(top, leaves, minBin);
      minBin <= b < |binIndices| && (r == INVALID || b < r)
    ensures binIndices[b] == INVALID
  {
    hide Bitmaps, FindLowestBitAfter, LeafFrom, TrailingZeros, IsZero;
    var minTop, minLeaf := minBin / LEAF_BITS, minBin % LEAF_BITS;
    TopBitOf(top, leaves, binIndices, minTop);
    LeafFromSpec(top, leaves, minTop, minLeaf);
    BinBitOf(top, leaves, binIndices, b);
    var u, l := b / LEAF_BITS, b % LEAF_BITS;
    if u == minTop {
      assert minLeaf <= l;
      if LeafFrom(top, leaves, minTop, minLeaf) == INVALID {
        assert !leaves[u][l];
      } else {
        assert l < LeafFrom(top, leaves, minTop, minLeaf);
      }
    } else {
      assert minTop < u;
      var t := FindLowestBitAfter(top, minTop + 1);
      if t == INVALID || u < t {
        assert !top[u];
      } else {
        assert u == t && l < TrailingZeros(leaves[t]);
      }
    }
  }

  lemma LowestOf(leaf: Word)
    requires !IsZero(leaf)
    ensures TrailingZeros(leaf) < |leaf|
  {
  }

  lemma BinFacts(nodes: seq<Node>, binIndices: seq<int>, bins: seq<seq<nat>>, b: nat, k: nat)
    requires BinLists(nodes, binIndices, bins) && b < |bins| && k < |bins[b]|
    ensures b < |binIndices| && binIndices[b] != INVALID && Distinct(bins[b])
    ensures forall i :: 0 <= i < |bins[b]| ==> bins[b][i] < |nodes|
    ensures bins[b][k] < |nodes| && nodes[bins[b][k]].binListNext != bins[b][k]
  {
    assert ListOk(nodes, bins[b], binIndices[b]);
    forall i | 0 <= i < |bins[b]| ensures bins[b][i] < |nodes| {
      assert LinkOk(nodes, bins[b], i);
    }
    assert LinkOk(nodes, bins[b], k);
  }

  lemma HeadFacts(nodes: seq<Node>, binIndices: seq<int>, bins: seq<seq<nat>>, live: set<nat>, b: nat)
    requires BinLists(nodes, binIndices, bins) && Listed(nodes, bins, live)
    requires b < |binIndices| && binIndices[b] != INVALID
    ensures b < |bins| && bins[b] != [] && bins[b][0] == binIndices[b]
    ensures Member(nodes, live, b, bins[b][0])
    ensures Linkable(nodes, bins[b][0]) && nodes[bins[b][0]].binListPrev == INVALID
  {
    assert ListOk(nodes, bins[b], binIndices[b]);
    assert bins[b][0] in bins[b];
    ListLinkable(nodes, bins[b], binIndices[b], 0);
  }

  lemma BinCount(nodes: seq<Node>, binIndices: seq<int>, bins: seq<seq<nat>>)
    requires BinLists(nodes, binIndices, bins)
    ensures |bins| == |binIndices|
  {
  }

  lemma IdsWithin(stack: seq<nat>, ptr: nat, live: set<nat>, n: nat)
    requires FreeIds(stack, ptr, live, n)
    ensures |stack| == n && forall id :: id in live ==> id < n
  {
  }

  lemma PopFacts(stack: seq<nat>, ptr: nat, live: set<nat>, n: nat)
    requires FreeIds(stack, ptr, live, n) && ptr < n
    ensures |stack| == n && stack[ptr] < n && stack[ptr] !in live
    ensures FreeIds(stack, ptr + 1, live + {stack[ptr]}, n)
  {
    PopId(stack, ptr, live, n);
  }
}
