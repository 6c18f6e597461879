/**
  The allocator's bookkeeping of free blocks, on values: the intrusive bin lists, the two bitmap
  levels above them, the stack of unused node ids and the total of the free sizes.
 */
module FreeLists {
  import opened Words
  import opened Sets
  import FloatBins

  /** `invalid<IndexType>()`: no node. */
  const INVALID := -1

  datatype Node = Node(
    dataOffset: nat, dataSize: nat, binListPrev: int, binListNext: int,
    neighborPrev: int, neighborNext: int, used: bool)

  const BLANK := Node(0, 0, INVALID, INVALID, INVALID, INVALID, false)

  /** The fields that say what block a node is, as opposed to where it is listed. */
  predicate SameBlock(a: Node, b: Node) {
    && a.dataOffset == b.dataOffset && a.dataSize == b.dataSize && a.used == b.used
    && a.neighborPrev == b.neighborPrev && a.neighborNext == b.neighborNext
  }

  // ----- bin lists

  function Next(l: seq<nat>, k: nat): int {
    if k + 1 < |l| then l[k + 1] else INVALID
  }

  function Prev(l: seq<nat>, k: nat): int
    requires k < |l|
  {
    if k > 0 then l[k - 1] else INVALID
  }

  /** The nodes linked from head are exactly l, in order. */
  ghost predicate ListOk(nodes: seq<Node>, l: seq<nat>, head: int) {
    && head == (if l == [] then INVALID else l[0])
    && Distinct(l)
    && forall k :: 0 <= k < |l| ==> LinkOk(nodes, l, k)
  }

  ghost predicate LinkOk(nodes: seq<Node>, l: seq<nat>, k: nat)
    requires k < |l|
  {
    l[k] < |nodes| && nodes[l[k]].binListNext == Next(l, k) && nodes[l[k]].binListPrev == Prev(l, k)
  }

  function SetNext(nodes: seq<Node>, x: nat, v: int): (r: seq<Node>)
    requires x < |nodes|
    ensures |r| == |nodes|
  {
    nodes[x := nodes[x].(binListNext := v)]
  }

  function SetPrev(nodes: seq<Node>, x: nat, v: int): (r: seq<Node>)
    requires x < |nodes|
    ensures |r| == |nodes|
  {
    nodes[x := nodes[x].(binListPrev := v)]
  }

  ghost predicate Linkable(nodes: seq<Node>, id: nat) {
    && id < |nodes|
    && INVALID <= nodes[id].binListPrev < |nodes| && INVALID <= nodes[id].binListNext < |nodes|
  }

  /** The list neighbours of id linked to each other. */
  ghost function Unlinked(nodes: seq<Node>, id: nat): (r: seq<Node>)
    requires Linkable(nodes, id)
    ensures |r| == |nodes|
    ensures forall i :: 0 <= i < |r| ==> SameBlock(r[i], nodes[i])
  {
    var p, n := nodes[id].binListPrev, nodes[id].binListNext;
    var skipped := if p != INVALID then SetNext(nodes, p, n) else nodes;
    if n != INVALID then SetPrev(skipped, n, p) else skipped
  }

  lemma ListLinkable(nodes: seq<Node>, l: seq<nat>, head: int, k: nat)
    requires ListOk(nodes, l, head) && k < |l|
    ensures Linkable(nodes, l[k])
    ensures nodes[l[k]].binListPrev == INVALID <==> k == 0
    ensures k + 1 < |l| ==> l[k + 1] < |nodes| && nodes[l[k]].binListNext == l[k + 1]
  {
    assert LinkOk(nodes, l, k);
    assert k + 1 < |l| ==> LinkOk(nodes, l, k + 1);
    assert k > 0 ==> LinkOk(nodes, l, k - 1);
  }

  function Without(l: seq<nat>, k: nat): (r: seq<nat>)
    requires k < |l|
    ensures |r| == |l| - 1
  {
    l[..k] + l[k + 1..]
  }

  lemma WithoutElements(l: seq<nat>, k: nat)
    requires k < |l| && Distinct(l)
    ensures Distinct(Without(l, k))
    ensures forall x :: x in Without(l, k) <==> x in l && x != l[k]
  {
    var r := Without(l, k);
    forall x | x in l && x != l[k] ensures x in r {
      var i :| 0 <= i < |l| && l[i] == x;
      assert if i < k then r[i] == x else r[i - 1] == x;
    }
    forall x | x in r ensures x in l && x != l[k] {
      var i :| 0 <= i < |r| && r[i] == x;
      assert x == if i < k then l[i] else l[i + 1];
    }
  }

  /** What unlinking element k does to the links of element i. */
  lemma UnlinkedLinks(nodes: seq<Node>, l: seq<nat>, head: int, k: nat, i: nat)
    requires ListOk(nodes, l, head) && k < |l| && i < |l| && i != k
    ensures Linkable(nodes, l[k]) && l[i] < |nodes|
    ensures Unlinked(nodes, l[k])[l[i]].binListNext == if i + 1 == k then Next(l, k) else Next(l, i)
    ensures Unlinked(nodes, l[k])[l[i]].binListPrev == if i == k + 1 then Prev(l, k) else Prev(l, i)
  {
    ListLinkable(nodes, l, head, k);
    assert LinkOk(nodes, l, i) && LinkOk(nodes, l, k);
  }

  /** Unlinking an element takes it out of its list. */
  lemma UnlinkList(nodes: seq<Node>, l: seq<nat>, head: int, k: nat)
    requires ListOk(nodes, l, head) && k < |l|
    ensures Linkable(nodes, l[k])
    ensures ListOk(Unlinked(nodes, l[k]), Without(l, k), if k == 0 then nodes[l[0]].binListNext else head)
  {
    ListLinkable(nodes, l, head, k);
    WithoutElements(l, k);
    hide Unlinked;
    assert LinkOk(nodes, l, 0);
    var nodes', r := Unlinked(nodes, l[k]), Without(l, k);
    forall i | 0 <= i < |r| ensures LinkOk(nodes', r, i) {
      UnlinkedLinks(nodes, l, head, k, if i < k then i else i + 1);
    }
  }

  /** Unlinking leaves lists without that element alone. */
  lemma UnlinkOther(nodes: seq<Node>, l: seq<nat>, head: int, k: nat, other: seq<nat>, otherHead: int)
    requires ListOk(nodes, l, head) && k < |l|
    requires ListOk(nodes, other, otherHead) && forall x :: x in l ==> x !in other
    ensures Linkable(nodes, l[k])
    ensures ListOk(Unlinked(nodes, l[k]), other, otherHead)
  {
    ListLinkable(nodes, l, head, k);
    assert LinkOk(nodes, l, k);
    assert k > 0 ==> l[k - 1] in l;
    assert k + 1 < |l| ==> l[k + 1] in l;
    var nodes' := Unlinked(nodes, l[k]);
    forall i | 0 <= i < |other| ensures LinkOk(nodes', other, i) {
      assert other[i] in other && LinkOk(nodes, other, i);
    }
  }

  /** A node put in front of the list that starts at head. */
  ghost function Pushed(nodes: seq<Node>, id: nat, node: Node, head: int): (r: seq<Node>)
    requires id < |nodes| && INVALID <= head < |nodes|
    ensures |r| == |nodes|
    ensures forall i :: 0 <= i < |r| && i != id ==> SameBlock(r[i], nodes[i])
  {
    var placed := nodes[id := node];
    if head != INVALID then SetPrev(placed, head, id) else placed
  }

  lemma PushList(nodes: seq<Node>, l: seq<nat>, head: int, id: nat, node: Node)
    requires ListOk(nodes, l, head) && id < |nodes| && id !in l
    requires node.binListNext == head && node.binListPrev == INVALID
    ensures INVALID <= head < |nodes|
    ensures ListOk(Pushed(nodes, id, node, head), [id] + l, id)
    ensures SameBlock(Pushed(nodes, id, node, head)[id], node)
  {
    assert l != [] ==> LinkOk(nodes, l, 0);
    var nodes', r := Pushed(nodes, id, node, head), [id] + l;
    forall i | 0 <= i < |r| ensures LinkOk(nodes', r, i) {
      if i > 0 {
        assert LinkOk(nodes, l, i - 1) && l[i - 1] in l;
        assert i > 1 ==> l[i - 1] != l[0];
      }
    }
  }

  lemma PushOther(nodes: seq<Node>, l: seq<nat>, head: int, id: nat, node: Node, other: seq<nat>, otherHead: int)
    requires ListOk(nodes, l, head) && id < |nodes| && id !in other
    requires ListOk(nodes, other, otherHead) && forall x :: x in l ==> x !in other
    ensures INVALID <= head < |nodes|
    ensures ListOk(Pushed(nodes, id, node, head), other, otherHead)
  {
    assert l != [] ==> l[0] in l && LinkOk(nodes, l, 0);
    var nodes' := Pushed(nodes, id, node, head);
    forall i | 0 <= i < |other| ensures LinkOk(nodes', other, i) {
      assert other[i] in other && LinkOk(nodes, other, i);
    }
  }

  // ----- all the bins

  ghost predicate BinLists(nodes: seq<Node>, binIndices: seq<int>, bins: seq<seq<nat>>) {
    |bins| == |binIndices| && forall b :: 0 <= b < |bins| ==> ListOk(nodes, bins[b], binIndices[b])
  }

  function BinOf(node: Node): nat {
    FloatBins.FloorToFloat(node.dataSize)
  }

  /** A listed node is a free block of its bin. */
  ghost predicate Member(nodes: seq<Node>, live: set<nat>, b: nat, id: nat) {
    id < |nodes| && id in live && !nodes[id].used && BinOf(nodes[id]) == b
  }

  /** A free block is listed in its bin. */
  ghost predicate Filed(nodes: seq<Node>, bins: seq<seq<nat>>, id: nat) {
    id < |nodes| && (!nodes[id].used ==> BinOf(nodes[id]) < |bins| && id in bins[BinOf(nodes[id])])
  }

  /** Each bin list holds exactly the free blocks whose rounded-down size is that bin. */
  ghost predicate Listed(nodes: seq<Node>, bins: seq<seq<nat>>, live: set<nat>) {
    && (forall b, id :: 0 <= b < |bins| && id in bins[b] ==> Member(nodes, live, b, id))
    && (forall id :: id in live ==> Filed(nodes, bins, id))
  }

  lemma BinsDisjoint(nodes: seq<Node>, bins: seq<seq<nat>>, live: set<nat>, b: nat, c: nat)
    requires Listed(nodes, bins, live) && b < |bins| && c < |bins| && b != c
    ensures forall x :: x in bins[b] ==> x !in bins[c]
  {
    hide BinOf;
    forall x | x in bins[b] ensures x !in bins[c] {
      assert Member(nodes, live, b, x);
      assert x in bins[c] ==> Member(nodes, live, c, x);
    }
  }

  lemma NotListed(nodes: seq<Node>, bins: seq<seq<nat>>, live: set<nat>, id: nat)
    requires Listed(nodes, bins, live) && id !in live
    ensures forall c :: 0 <= c < |bins| ==> id !in bins[c]
  {
  }

  /** insertNode: a new free block goes to the front of its bin. */
  lemma InsertBins(
    nodes: seq<Node>, binIndices: seq<int>, bins: seq<seq<nat>>, live: set<nat>, id: nat, node: Node, b: nat)
    requires BinLists(nodes, binIndices, bins) && Listed(nodes, bins, live)
    requires id < |nodes| && id !in live && !node.used && BinOf(node) == b < |bins|
    requires node.binListNext == binIndices[b] && node.binListPrev == INVALID
    ensures INVALID <= binIndices[b] < |nodes|
    ensures
      var nodes' := Pushed(nodes, id, node, binIndices[b]);
      var bins' := bins[b := [id] + bins[b]];
      && BinLists(nodes', binIndices[b := id], bins') && Listed(nodes', bins', live + {id})
      && SameBlock(nodes'[id], node)
  {
    hide BinOf, ListOk;
    var bins' := bins[b := [id] + bins[b]];
    NotListed(nodes, bins, live, id);
    PushList(nodes, bins[b], binIndices[b], id, node);
    var nodes' := Pushed(nodes, id, node, binIndices[b]);
    forall c | 0 <= c < |bins| ensures ListOk(nodes', bins'[c], binIndices[b := id][c]) {
      if c != b {
        BinsDisjoint(nodes, bins, live, b, c);
        PushOther(nodes, bins[b], binIndices[b], id, node, bins[c], binIndices[c]);
      }
    }
    InsertListed(nodes, nodes', bins, live, id, node, b);
  }

  lemma InsertListed(
    nodes: seq<Node>, nodes': seq<Node>, bins: seq<seq<nat>>, live: set<nat>, id: nat, node: Node, b: nat)
    requires Listed(nodes, bins, live) && |nodes'| == |nodes|
    requires id < |nodes| && id !in live && !node.used && BinOf(node) == b < |bins|
    requires forall i :: 0 <= i < |nodes| && i != id ==> SameBlock(nodes'[i], nodes[i])
    requires SameBlock(nodes'[id], node)
    ensures Listed(nodes', bins[b := [id] + bins[b]], live + {id})
  {
    var bins' := bins[b := [id] + bins[b]];
    forall c, x | 0 <= c < |bins| && x in bins'[c] ensures Member(nodes', live + {id}, c, x) {
      assert x in bins[c] ==> Member(nodes, live, c, x);
    }
    forall x | x in live + {id} ensures Filed(nodes', bins', x) {
      assert x in live ==> Filed(nodes, bins, x);
    }
  }

  /** Where a free block is in its bin list. */
  lemma Locate(nodes: seq<Node>, binIndices: seq<int>, bins: seq<seq<nat>>, live: set<nat>, id: nat)
    returns (b: nat, k: nat)
    requires BinLists(nodes, binIndices, bins) && Listed(nodes, bins, live)
    requires id in live && id < |nodes| && !nodes[id].used
    ensures b == BinOf(nodes[id]) < |bins| && k < |bins[b]| && bins[b][k] == id
    ensures Linkable(nodes, id) && (nodes[id].binListPrev == INVALID <==> k == 0)
  {
    assert Filed(nodes, bins, id);
    b := BinOf(nodes[id]);
    k :| 0 <= k < |bins[b]| && bins[b][k] == id;
    ListLinkable(nodes, bins[b], binIndices[b], k);
  }

  /** The heads after node id left the front, or the middle, of bin b. */
  function HeadsAfter(nodes: seq<Node>, binIndices: seq<int>, id: nat, b: nat): (r: seq<int>)
    requires id < |nodes| && b < |binIndices|
    ensures |r| == |binIndices|
  {
    if nodes[id].binListPrev == INVALID then binIndices[b := nodes[id].binListNext] else binIndices
  }

  /** Taking a free block out of its bin list keeps every list in order. */
  lemma UnlinkBins(
    nodes: seq<Node>, binIndices: seq<int>, bins: seq<seq<nat>>, live: set<nat>, id: nat, b: nat, k: nat)
    requires BinLists(nodes, binIndices, bins) && Listed(nodes, bins, live)
    requires b < |bins| && k < |bins[b]| && bins[b][k] == id && Linkable(nodes, id)
    ensures BinLists(Unlinked(nodes, id), HeadsAfter(nodes, binIndices, id, b), bins[b := Without(bins[b], k)])
  {
    var nodes', heads' := Unlinked(nodes, id), HeadsAfter(nodes, binIndices, id, b);
    var bins' := bins[b := Without(bins[b], k)];
    ListLinkable(nodes, bins[b], binIndices[b], k);
    hide BinOf, ListOk, Unlinked, Without;
    forall c | 0 <= c < |bins| ensures ListOk(nodes', bins'[c], heads'[c]) {
      if c == b {
        UnlinkList(nodes, bins[b], binIndices[b], k);
      } else {
        BinsDisjoint(nodes, bins, live, b, c);
        UnlinkOther(nodes, bins[b], binIndices[b], k, bins[c], binIndices[c]);
      }
    }
  }

  /** ... and the lists then hold the other free blocks: the taken one is unused now, or handed out. */
  lemma UnlinkListed(
    nodes: seq<Node>, nodes': seq<Node>, bins: seq<seq<nat>>, live: set<nat>, live': set<nat>, id: nat, b: nat, k: nat)
    requires Listed(nodes, bins, live) && |nodes'| == |nodes|
    requires b < |bins| && k < |bins[b]| && bins[b][k] == id && id < |nodes| && Distinct(bins[b])
    requires forall i :: 0 <= i < |nodes| && i != id ==> SameBlock(nodes'[i], nodes[i])
    requires live' == live - {id} || (live' == live && nodes'[id].used)
    ensures Listed(nodes', bins[b := Without(bins[b], k)], live')
  {
    hide Without;
    WithoutElements(bins[b], k);
    var bins' := bins[b := Without(bins[b], k)];
    assert id in bins[b];
    forall c, x | 0 <= c < |bins| && x in bins'[c] ensures Member(nodes', live', c, x) {
      assert Member(nodes, live, c, x);
      if c != b {
        BinsDisjoint(nodes, bins, live, b, c);
      }
    }
    forall x | x in live' ensures Filed(nodes', bins', x) {
      assert Filed(nodes, bins, x);
    }
  }

  /** Lists do not care about the other fields of nodes. */
  lemma BinsFrame(nodes: seq<Node>, nodes': seq<Node>, binIndices: seq<int>, bins: seq<seq<nat>>)
    requires BinLists(nodes, binIndices, bins) && |nodes| <= |nodes'|
    requires forall b, x :: 0 <= b < |bins| && x in bins[b] && x < |nodes| ==>
      nodes'[x].binListNext == nodes[x].binListNext && nodes'[x].binListPrev == nodes[x].binListPrev
    ensures BinLists(nodes', binIndices, bins)
  {
    forall b | 0 <= b < |bins| ensures ListOk(nodes', bins[b], binIndices[b]) {
      assert ListOk(nodes, bins[b], binIndices[b]);
      forall k | 0 <= k < |bins[b]| ensures LinkOk(nodes', bins[b], k) {
        assert LinkOk(nodes, bins[b], k) && bins[b][k] in bins[b];
      }
    }
  }

  // ----- the bitmaps

  const LEAF_BITS := 8

  /** Leaf bit l of word t is set iff bin 8t + l is not empty, and top bit t iff word t is not zero. */
  ghost predicate Bitmaps(top: Word, leaves: seq<Word>, binIndices: seq<int>) {
    && |top| == |leaves| && |binIndices| == LEAF_BITS * |leaves|
    && forall t :: 0 <= t < |leaves| ==> LeafOk(top, leaves, binIndices, t)
  }

  ghost predicate LeafOk(top: Word, leaves: seq<Word>, binIndices: seq<int>, t: nat)
    requires t < |leaves| == |top| && |binIndices| == LEAF_BITS * |leaves|
  {
    && |leaves[t]| == LEAF_BITS
    && (forall l :: 0 <= l < LEAF_BITS ==> leaves[t][l] == (binIndices[LEAF_BITS * t + l] != INVALID))
    && top[t] == !IsZero(leaves[t])
  }

  /** `usedBins[t] |= 1 << l` and `usedBinsTop |= 1 << t` */
  lemma BitmapFill(top: Word, leaves: seq<Word>, binIndices: seq<int>, t: nat, l: nat, v: int)
    requires Bitmaps(top, leaves, binIndices) && t < |leaves| && l < LEAF_BITS && v != INVALID
    ensures |leaves[t]| == LEAF_BITS
    ensures Bitmaps(Or(top, OneAt(|top|, t)), leaves[t := Or(leaves[t], OneAt(LEAF_BITS, l))],
                    binIndices[LEAF_BITS * t + l := v])
  {
    assert LeafOk(top, leaves, binIndices, t);
    var top', leaves', heads' :=
      Or(top, OneAt(|top|, t)), leaves[t := Or(leaves[t], OneAt(LEAF_BITS, l))], binIndices[LEAF_BITS * t + l := v];
    assert leaves'[t][l];
    forall u | 0 <= u < |leaves| ensures LeafOk(top', leaves', heads', u) {
      assert LeafOk(top, leaves, binIndices, u);
    }
  }

  /** `usedBins[t] &= ~(1 << l)`, and `usedBinsTop &= ~(1 << t)` once the leaf word is zero. */
  lemma BitmapClear(top: Word, leaves: seq<Word>, binIndices: seq<int>, t: nat, l: nat)
    requires Bitmaps(top, leaves, binIndices) && t < |leaves| && l < LEAF_BITS
    ensures |leaves[t]| == LEAF_BITS
    ensures
      var leaf' := And(leaves[t], Not(OneAt(LEAF_BITS, l)));
      var top' := if IsZero(leaf') then And(top, Not(OneAt(|top|, t))) else top;
      Bitmaps(top', leaves[t := leaf'], binIndices[LEAF_BITS * t + l := INVALID])
  {
    assert LeafOk(top, leaves, binIndices, t);
    var leaf' := And(leaves[t], Not(OneAt(LEAF_BITS, l)));
    var top' := if IsZero(leaf') then And(top, Not(OneAt(|top|, t))) else top;
    var leaves', heads' := leaves[t := leaf'], binIndices[LEAF_BITS * t + l := INVALID];
    if !IsZero(leaf') {
      var i :| 0 <= i < |leaf'| && leaf'[i];
      assert leaves[t][i];
    }
    forall u | 0 <= u < |leaves| ensures LeafOk(top', leaves', heads', u) {
      assert LeafOk(top, leaves, binIndices, u);
    }
  }

  /** Changing the head of a list that stays non-empty leaves the bitmaps as they are. */
  lemma BitmapSame(top: Word, leaves: seq<Word>, binIndices: seq<int>, b: nat, v: int)
    requires Bitmaps(top, leaves, binIndices) && b < |binIndices|
    requires (v == INVALID) == (binIndices[b] == INVALID)
    ensures Bitmaps(top, leaves, binIndices[b := v])
  {
    var heads' := binIndices[b := v];
    forall u | 0 <= u < |leaves| ensures LeafOk(top, leaves, heads', u) {
      assert LeafOk(top, leaves, binIndices, u);
    }
  }

  // ----- the stack of unused ids

  /** From ptr upward the stack holds every id that is not live, once. */
  ghost predicate FreeIds(stack: seq<nat>, ptr: nat, live: set<nat>, n: nat) {
    && |stack| == n && ptr <= n && |live| == ptr
    && (forall id :: id in live ==> id < n)
    && (forall k :: ptr <= k < n ==> stack[k] < n && stack[k] !in live)
    && (forall j, k :: ptr <= j < k < n ==> stack[j] != stack[k])
    && (forall id :: 0 <= id < n && id !in live ==> Stacked(stack, ptr, id))
  }

  ghost predicate Stacked(stack: seq<nat>, ptr: nat, id: nat) {
    exists k :: ptr <= k < |stack| && stack[k] == id
  }

  lemma PopId(stack: seq<nat>, ptr: nat, live: set<nat>, n: nat)
    requires FreeIds(stack, ptr, live, n) && ptr < n
    ensures FreeIds(stack, ptr + 1, live + {stack[ptr]}, n)
  {
    forall id | 0 <= id < n && id !in live + {stack[ptr]} ensures Stacked(stack, ptr + 1, id) {
      assert Stacked(stack, ptr, id);
    }
  }

  lemma PushId(stack: seq<nat>, ptr: nat, live: set<nat>, n: nat, id: nat)
    requires FreeIds(stack, ptr, live, n) && id in live
    ensures ptr > 0 && FreeIds(stack[ptr - 1 := id], ptr - 1, live - {id}, n)
  {
    var stack' := stack[ptr - 1 := id];
    forall x | 0 <= x < n && x !in live - {id} ensures Stacked(stack', ptr - 1, x) {
      if x == id {
        assert stack'[ptr - 1] == x;
      } else {
        assert Stacked(stack, ptr, x);
        var k :| ptr <= k < |stack| && stack[k] == x;
        assert stack'[k] == x;
      }
    }
  }

  /** reserve_nodes: the new ids go on top of the old ones in the vector, all of them unused. */
  lemma GrowIds(stack: seq<nat>, ptr: nat, live: set<nat>, n: nat, stack': seq<nat>, n': nat)
    requires FreeIds(stack, ptr, live, n) && n <= n' == |stack'|
    requires stack'[..n] == stack && forall k :: n <= k < n' ==> stack'[k] == k
    ensures FreeIds(stack', ptr, live, n')
  {
    assert forall k :: 0 <= k < n ==> stack'[k] == stack'[..n][k] == stack[k];
    forall id | 0 <= id < n' && id !in live ensures Stacked(stack', ptr, id) {
      if id < n {
        assert Stacked(stack, ptr, id);
        var k :| ptr <= k < |stack| && stack[k] == id;
        assert stack'[k] == id;
      } else {
        assert stack'[id] == id;
      }
    }
  }

  // ----- the total of the free sizes

  function FreeSize(nodes: seq<Node>, live: set<nat>, id: nat): nat
    requires id < |nodes|
  {
    if id in live && !nodes[id].used then nodes[id].dataSize else 0
  }

  function TotalFree(nodes: seq<Node>, live: set<nat>, n: nat): nat
    requires n <= |nodes|
  {
    if n == 0 then 0 else TotalFree(nodes, live, n - 1) + FreeSize(nodes, live, n - 1)
  }

  lemma {:induction false} TotalSame(nodes: seq<Node>, live: set<nat>, nodes': seq<Node>, live': set<nat>, n: nat)
    requires n <= |nodes| && n <= |nodes'|
    requires forall i :: 0 <= i < n ==> FreeSize(nodes', live', i) == FreeSize(nodes, live, i)
    ensures TotalFree(nodes', live', n) == TotalFree(nodes, live, n)
  {
    if n > 0 {
      TotalSame(nodes, live, nodes', live', n - 1);
    }
  }

  /** Only one node's contribution changes. */
  lemma {:induction false} TotalChange(
    nodes: seq<Node>, live: set<nat>, nodes': seq<Node>, live': set<nat>, id: nat, n: nat)
    requires id < n <= |nodes| == |nodes'|
    requires forall i :: 0 <= i < n && i != id ==> FreeSize(nodes', live', i) == FreeSize(nodes, live, i)
    ensures TotalFree(nodes', live', n) + FreeSize(nodes, live, id)
         == TotalFree(nodes, live, n) + FreeSize(nodes', live', id)
  {
    if n - 1 == id {
      TotalSame(nodes, live, nodes', live', n - 1);
    } else {
      TotalChange(nodes, live, nodes', live', id, n - 1);
    }
  }

  lemma {:induction false} TotalAtLeast(nodes: seq<Node>, live: set<nat>, id: nat, n: nat)
    requires id < n <= |nodes|
    ensures TotalFree(nodes, live, n) >= FreeSize(nodes, live, id)
  {
    if n - 1 > id {
      TotalAtLeast(nodes, live, id, n - 1);
    }
  }

  lemma {:induction false} TotalZero(nodes: seq<Node>, live: set<nat>, n: nat)
    requires n <= |nodes| && forall i :: 0 <= i < n ==> FreeSize(nodes, live, i) == 0
    ensures TotalFree(nodes, live, n) == 0
  {
    if n > 0 {
      TotalZero(nodes, live, n - 1);
    }
  }

  /** The fields the bin lists and the totals depend on. */
  predicate SameListing(a: Node, b: Node) {
    && a.dataSize == b.dataSize && a.used == b.used
    && a.binListPrev == b.binListPrev && a.binListNext == b.binListNext
  }

  /** Relinking neighbours does not concern the lists. */
  lemma ListingFrame(nodes: seq<Node>, nodes': seq<Node>, binIndices: seq<int>, bins: seq<seq<nat>>, live: set<nat>)
    requires BinLists(nodes, binIndices, bins) && Listed(nodes, bins, live) && |nodes'| == |nodes|
    requires forall i :: 0 <= i < |nodes| ==> SameListing(nodes'[i], nodes[i])
    ensures BinLists(nodes', binIndices, bins) && Listed(nodes', bins, live)
    ensures TotalFree(nodes', live, |nodes'|) == TotalFree(nodes, live, |nodes|)
  {
    hide FloatBins.FloorToFloat;
    BinsFrame(nodes, nodes', binIndices, bins);
    TotalSame(nodes, live, nodes', live, |nodes|);
    forall b, id | 0 <= b < |bins| && id in bins[b] ensures Member(nodes', live, b, id) {
      assert Member(nodes, live, b, id);
    }
    forall id | id in live ensures Filed(nodes', bins, id) {
      assert Filed(nodes, bins, id);
    }
  }

  /** Taking a used node out of the live ids does not concern the lists either. */
  lemma RetireListed(nodes: seq<Node>, bins: seq<seq<nat>>, live: set<nat>, id: nat)
    requires Listed(nodes, bins, live) && id < |nodes| && nodes[id].used
    ensures Listed(nodes, bins, live - {id})
    ensures TotalFree(nodes, live - {id}, |nodes|) == TotalFree(nodes, live, |nodes|)
  {
    hide FloatBins.FloorToFloat;
    TotalSame(nodes, live, nodes, live - {id}, |nodes|);
    forall b, x | 0 <= b < |bins| && x in bins[b] ensures Member(nodes, live - {id}, b, x) {
      assert Member(nodes, live, b, x);
    }
    forall x | x in live - {id} ensures Filed(nodes, bins, x) {
      assert Filed(nodes, bins, x);
    }
  }
}
