/**
  The search for word chains: iterative deepening over the word graph with a cache of
  visited states that survives from one depth to the next.
 */
module Solver {
  import opened Arithmetic
  import opened Words
  import opened Settings
  import opened Dfs
  import opened Sets

  /** A class of equivalent words: same letters, same last letter (and, by the list it is in, same first). */
  datatype Edge = Edge(hash: Mask, to: BoxIndex, variants: seq<nat>)

  datatype Node = Node(compressedIdx: BoxIndex, outgoing: seq<Edge>)

  /** The nodes, one per box letter. */
  type Graph = g: seq<Node> | |g| == BOX_CHARS && forall i :: 0 <= i < BOX_CHARS ==> g[i].compressedIdx == i
    witness seq(BOX_CHARS, i requires 0 <= i < BOX_CHARS => Node(i, []))

  /** What `build_graph` guarantees: a word contains its last letter, and equivalent words share an edge. */
  ghost predicate WellFormed(g: Graph) {
    && (forall v: BoxIndex, e :: e in g[v].outgoing ==> e.hash[e.to])
    && (forall v: BoxIndex :: Distinct(g[v].outgoing))
  }

  // ----- the router node

  function RouterEdge(v: BoxIndex): Edge {
    Edge(EMPTY_MASK, v, [])
  }

  function RouterNode(): (r: Node)
    ensures |r.outgoing| == BOX_CHARS
    ensures forall i :: 0 <= i < BOX_CHARS ==> r.outgoing[i] == RouterEdge(i)
  {
    Node(0, seq(BOX_CHARS, i requires 0 <= i < BOX_CHARS => RouterEdge(i)))
  }

  // ----- paths

  /** The edges that may follow path. */
  function Options(g: Graph, path: seq<Edge>): seq<Edge> {
    if path == [] then RouterNode().outgoing else g[path[|path| - 1].to].outgoing
  }

  /** A walk from the router node: one router edge, then words each starting where the previous one ended. */
  ghost predicate Trail(g: Graph, path: seq<Edge>) {
    forall k :: 0 <= k < |path| ==> path[k] in Options(g, path[..k])
  }

  function HashOf(path: seq<Edge>): Mask {
    if path == [] then EMPTY_MASK else Join(HashOf(path[..|path| - 1]), path[|path| - 1].hash)
  }

  /** A chain of |path| - 1 words, at least one, that uses every letter of the box. */
  ghost predicate Covering(g: Graph, path: seq<Edge>) {
    |path| > MIN_SOLUTION_SIZE && Trail(g, path) && HashOf(path) == SOLUTION_MASK
  }

  lemma TrailStep(g: Graph, path: seq<Edge>, e: Edge)
    requires Trail(g, path) && e in Options(g, path)
    ensures Trail(g, path + [e]) && HashOf(path + [e]) == Join(HashOf(path), e.hash)
  {
    var longer := path + [e];
    assert longer[..|path|] == path;
    forall k | 0 <= k < |longer| ensures longer[k] in Options(g, longer[..k]) {
      if k < |path| {
        assert longer[..k] == path[..k];
      }
    }
  }

  // ----- the visited-state cache

  type uint8 = n: nat | n < 256

  datatype Entry = Entry(depthCeiling: uint8, creationDepth: uint8)

  const UNVISITED := Entry(255, 0)
  const MAX_STATES := Pow2(BOX_CHARS - 1)

  type Cache = c: seq<Entry> | |c| == MAX_STATES * BOX_CHARS witness seq(MAX_STATES * BOX_CHARS, _ => UNVISITED)

  /** Removes bit k: the bits above it move down by one. */
  function DeleteBit(x: Word, k: nat): (r: Word)
    requires k < |x|
    ensures |r| == |x|
  {
    var mask := Dec(OneAt(|x|, k));
    Or(And(x, mask), And(ShiftRightOne(x), Not(mask)))
  }

  lemma DeleteBitSplices(x: Word, k: nat)
    requires k < |x|
    ensures DeleteBit(x, k) == x[..k] + x[k + 1..] + [false]
  {
    LowMaskBits(|x|, k);
  }

  /** `nextIdx * MAX_STATES + compress_hash(pathHash, nextIdx)`: never out of the cache's bounds. */
  function Key(v: BoxIndex, m: Mask): (key: nat)
    ensures key < MAX_STATES * BOX_CHARS
  {
    CompressedBound(v, m);
    MulBelow(v, BOX_CHARS, MAX_STATES);
    v * MAX_STATES + ToNat(DeleteBit(m, v))
  }

  lemma CompressedBound(v: BoxIndex, m: Mask)
    ensures ToNat(DeleteBit(m, v)) < MAX_STATES
  {
    DeleteBitSplices(m, v);
    ToNatBound(DeleteBit(m, v), BOX_CHARS - 1);
  }

  /** A state holds the letter of its node, so the key determines it although that bit is dropped. */
  lemma KeyInjective(v: BoxIndex, m: Mask, v': BoxIndex, m': Mask)
    requires m[v] && m'[v'] && Key(v, m) == Key(v', m')
    ensures v == v' && m == m'
  {
    CompressedBound(v, m);
    CompressedBound(v', m');
    SameQuotient(v, ToNat(DeleteBit(m, v)), v', ToNat(DeleteBit(m', v')), MAX_STATES);
    ToNatInjective(DeleteBit(m, v), DeleteBit(m', v));
    DeleteBitSplices(m, v);
    DeleteBitSplices(m', v);
    SameSplice(m, m', v);
  }

  lemma SameSplice(x: Word, y: Word, k: nat)
    requires k < |x| == |y| && x[k] == y[k]
    requires x[..k] + x[k + 1..] + [false] == y[..k] + y[k + 1..] + [false]
    ensures x == y
  {
    var p, q := x[..k] + x[k + 1..] + [false], y[..k] + y[k + 1..] + [false];
    forall i | 0 <= i < |x| ensures x[i] == y[i] {
      if i < k {
        assert p[i] == x[i] && q[i] == y[i];
      } else if i > k {
        assert p[i - 1] == x[i] && q[i - 1] == y[i];
      }
    }
  }

  function At(c: Cache, v: BoxIndex, m: Mask): Entry {
    c[Key(v, m)]
  }

  function Write(c: Cache, v: BoxIndex, m: Mask, e: Entry): Cache {
    c[Key(v, m) := e]
  }

  // ----- one step of the search

  datatype Memory = Memory(cache: Cache, solutions: seq<seq<Edge>>)

  /** The callback that extends a path by its last edge: prunes, records a solution, or moves on. */
  function NextState(g: Graph, lim: Limits, depth: nat, w: Memory, prev: Mask, path: seq<Edge>)
    : (Memory, Option<Mask>)
  {
    if |path| <= 1 then (w, Some(EMPTY_MASK))
    else
      var lastEdge := path[|path| - 1];
      var pathHash := Join(prev, lastEdge.hash);
      if |path| == depth then
        (if pathHash == SOLUTION_MASK then Memory(w.cache, w.solutions + [path]) else w, None)
      else if depth <= lim.cacheMinDepth then (w, Some(pathHash))
      else
        var nextIdx := g[lastEdge.to].compressedIdx;
        var seen := At(w.cache, nextIdx, pathHash);
        if seen.depthCeiling < |path| || (seen.depthCeiling <= |path| && seen.creationDepth >= depth) then (w, None)
        else
          var entry := Entry(|path| % 256, depth % 256);
          (Memory(Write(w.cache, nextIdx, pathHash, entry), w.solutions), Some(pathHash))
  }

  function SearchAt(g: Graph, lim: Limits, depth: nat): Search<Node, Edge, Mask, Memory> {
    Search(
      (n: Node) => n.outgoing,
      (e: Edge) => g[e.to],
      (w, prev, path) => NextState(g, lim, depth, w, prev, path),
      (w, _, _, _) => w,
      (w: Memory) => (w, |w.solutions| >= lim.maxSolutions))
  }

  lemma SearchIsBounded(g: Graph, lim: Limits, depth: nat)
    requires depth > 1
    ensures Refuses(SearchAt(g, lim, depth), depth)
  {
  }

  /** The recursive form of one depth's search. */
  ghost function Explore(
    g: Graph, lim: Limits, depth: nat, w: Memory, s: Mask, path: seq<Edge>, es: seq<Edge>): Outcome<Memory>
    requires |path| < depth && depth > 1
  {
    SearchIsBounded(g, lim, depth);
    Visit(SearchAt(g, lim, depth), depth, w, s, path, es)
  }

  lemma ExploreUnfold(g: Graph, lim: Limits, depth: nat, w: Memory, s: Mask, path: seq<Edge>, es: seq<Edge>)
    requires |path| < depth && depth > 1
    requires |w.solutions| < lim.maxSolutions && es != []
    ensures
      var longer := path + [es[0]];
      var (w1, r) := NextState(g, lim, depth, w, s, longer);
      var o := Explore(g, lim, depth, w, s, path, es);
      if r.None? then
        var rest := Explore(g, lim, depth, w1, s, path, es[1..]);
        o.world == rest.world && o.complete == rest.complete
      else
        |longer| < depth &&
        var inner := Explore(g, lim, depth, w1, r.value, longer, g[es[0].to].outgoing);
        if !inner.complete then o.world == inner.world && !o.complete
        else
          var rest := Explore(g, lim, depth, inner.world, s, path, es[1..]);
          o.world == rest.world && o.complete == rest.complete
  {
    SearchIsBounded(g, lim, depth);
  }

  // ----- what one depth's search adds

  /** p comes before q in the order of the search: at the first difference, by the position of its edge. */
  ghost predicate Precedes(g: Graph, p: seq<Edge>, q: seq<Edge>) {
    exists i, j, k :: Diverge(g, p, q, i, j, k) && j < k
  }

  /** p and q agree on i edges and then take the options at j and at k. */
  predicate Diverge(g: Graph, p: seq<Edge>, q: seq<Edge>, i: nat, j: nat, k: nat) {
    && i < |p| && i < |q| && p[..i] == q[..i]
    && j < |Options(g, p[..i])| && k < |Options(g, p[..i])|
    && p[i] == Options(g, p[..i])[j] && q[i] == Options(g, p[..i])[k]
  }

  /** es are the last of the edges that may follow path. */
  ghost predicate Rest(g: Graph, path: seq<Edge>, es: seq<Edge>) {
    |es| <= |Options(g, path)| && es == Options(g, path)[|Options(g, path)| - |es|..]
  }

  lemma RestTail(g: Graph, path: seq<Edge>, es: seq<Edge>)
    requires Rest(g, path, es) && es != []
    ensures Rest(g, path, es[1..]) && es[0] in Options(g, path)
  {
  }

  lemma RestAll(g: Graph, path: seq<Edge>)
    ensures Rest(g, path, Options(g, path))
  {
  }

  /** n is a solution of the depth whose path branches off `path` through one of es. */
  ghost predicate Found(g: Graph, depth: nat, path: seq<Edge>, es: seq<Edge>, n: seq<Edge>) {
    Covering(g, n) && |n| == depth > |path| && n[..|path|] == path && n[|path|] in es
  }

  ghost predicate Extends<T>(before: seq<T>, after: seq<T>) {
    |before| <= |after| && after[..|before|] == before
  }

  lemma ExtendsTrans<T>(a: seq<T>, b: seq<T>, c: seq<T>)
    requires Extends(a, b) && Extends(b, c)
    ensures Extends(a, c)
  {
    assert c[..|a|] == c[..|b|][..|a|];
  }

  /** after extends before by solutions found through es, in the order of the search. */
  ghost predicate Adds(
    g: Graph, depth: nat, path: seq<Edge>, es: seq<Edge>, before: seq<seq<Edge>>, after: seq<seq<Edge>>)
  {
    && Extends(before, after)
    && (forall k :: |before| <= k < |after| ==> Found(g, depth, path, es, after[k]))
    && (forall j, k :: |before| <= j < k < |after| ==> Precedes(g, after[j], after[k]))
  }

  lemma AddsThenAdds(
    g: Graph, depth: nat, path: seq<Edge>, es: seq<Edge>, a: seq<seq<Edge>>, b: seq<seq<Edge>>, c: seq<seq<Edge>>)
    requires es != [] && Rest(g, path, es)
    requires Adds(g, depth, path, es[..1], a, b)
    requires Adds(g, depth, path, es[1..], b, c)
    ensures Adds(g, depth, path, es, a, c)
  {
    hide Precedes, Rest, Covering;
    ExtendsTrans(a, b, c);
    forall k | |a| <= k < |c| ensures Found(g, depth, path, es, c[k]) {
      if k < |b| {
        assert c[k] == c[..|b|][k] == b[k];
      }
    }
    forall j, k | |a| <= j < k < |c| ensures Precedes(g, c[j], c[k]) {
      if k < |b| {
        assert c[k] == c[..|b|][k] == b[k] && c[j] == c[..|b|][j] == b[j];
      } else if j < |b| {
        assert c[j] == c[..|b|][j] == b[j];
        FirstPrecedes(g, depth, path, es, c[j], c[k]);
      }
    }
  }

  lemma FirstPrecedes(g: Graph, depth: nat, path: seq<Edge>, es: seq<Edge>, p: seq<Edge>, q: seq<Edge>)
    requires es != [] && Rest(g, path, es)
    requires Found(g, depth, path, es[..1], p) && Found(g, depth, path, es[1..], q)
    ensures Precedes(g, p, q)
  {
    var i: nat :| i < |es[1..]| && es[1..][i] == q[|path|];
    var at: nat := |Options(g, path)| - |es|;
    assert p[|path|] == es[0] == Options(g, path)[at];
    assert q[|path|] == es[i + 1] == Options(g, path)[at + i + 1];
    assert Diverge(g, p, q, |path|, at, at + i + 1);
  }

  lemma AddsBelow(
    g: Graph, depth: nat, path: seq<Edge>, e: Edge, es: seq<Edge>, a: seq<seq<Edge>>, b: seq<seq<Edge>>)
    requires Adds(g, depth, path + [e], es, a, b)
    ensures Adds(g, depth, path, [e], a, b)
  {
    hide Precedes;
    forall k | |a| <= k < |b| ensures Found(g, depth, path, [e], b[k]) {
      assert b[k][..|path| + 1] == path + [e];
      assert b[k][..|path|] == b[k][..|path| + 1][..|path|];
      assert b[k][|path|] == b[k][..|path| + 1][|path|];
    }
  }

  /** What one step may change besides the cache. */
  lemma NextStateCases(g: Graph, lim: Limits, depth: nat, w: Memory, s: Mask, path: seq<Edge>, e: Edge)
    requires depth > 1
    ensures
      var longer := path + [e];
      var (w1, r) := NextState(g, lim, depth, w, s, longer);
      if r.Some? then
        && w1.solutions == w.solutions && r.value == (if path == [] then EMPTY_MASK else Join(s, e.hash))
        && (path == [] || depth <= lim.cacheMinDepth ==> w1 == w)
      else if |longer| == depth && Join(s, e.hash) == SOLUTION_MASK then
        w1 == Memory(w.cache, w.solutions + [longer])
      else w1 == w
  {
    hide Key, At, Write, Join;
  }

  /** What one step does to the cache. */
  lemma NextStateCached(g: Graph, lim: Limits, depth: nat, w: Memory, s: Mask, path: seq<Edge>, e: Edge)
    requires 1 < |path| + 1 < depth < 256 && lim.cacheMinDepth < depth
    ensures
      var m := Join(s, e.hash);
      var seen := At(w.cache, e.to, m);
      NextState(g, lim, depth, w, s, path + [e]) ==
      if seen.depthCeiling < |path| + 1 || (seen.depthCeiling <= |path| + 1 && seen.creationDepth >= depth)
      then (w, None)
      else (Memory(Write(w.cache, e.to, m, Entry(|path| + 1, depth)), w.solutions), Some(m))
  {
    hide Key, At, Write, Join;
  }

  lemma AddsOne(g: Graph, depth: nat, path: seq<Edge>, e: Edge, a: seq<seq<Edge>>)
    requires Covering(g, path + [e]) && |path| + 1 == depth
    ensures Adds(g, depth, path, [e], a, a + [path + [e]])
  {
    hide Covering;
    var longer := path + [e];
    assert longer[..|path|] == path;
  }

  lemma StepSound(g: Graph, lim: Limits, depth: nat, w: Memory, s: Mask, path: seq<Edge>, e: Edge)
    requires |path| < depth && depth > 1
    requires Trail(g, path) && s == HashOf(path) && e in Options(g, path)
    ensures
      var longer := path + [e];
      var (w1, r) := NextState(g, lim, depth, w, s, longer);
      if r.None? then
        |w1.solutions| <= |w.solutions| + 1 && Adds(g, depth, path, [e], w.solutions, w1.solutions)
      else
        && w1.solutions == w.solutions
        && Trail(g, longer) && r.value == HashOf(longer)
        && Options(g, longer) == g[e.to].outgoing
  {
    hide NextState, Adds, Trail, Join;
    NextStateCases(g, lim, depth, w, s, path, e);
    TrailStep(g, path, e);
    AddsNothing(g, depth, path, [e], w.solutions);
    var longer := path + [e];
    var (w1, r) := NextState(g, lim, depth, w, s, longer);
    if path == [] {
      RouterHash(e);
    }
    if r.Some? {
      assert w1.solutions == w.solutions;
    } else if |longer| == depth && Join(s, e.hash) == SOLUTION_MASK {
      AddsOne(g, depth, path, e, w.solutions);
    }
  }

  lemma RouterHash(e: Edge)
    requires e in RouterNode().outgoing
    ensures Join(EMPTY_MASK, e.hash) == EMPTY_MASK
  {
    OrZero(EMPTY_MASK);
  }

  lemma ExploreEnds(g: Graph, lim: Limits, depth: nat, w: Memory, s: Mask, path: seq<Edge>, es: seq<Edge>)
    requires |path| < depth && depth > 1
    requires |w.solutions| >= lim.maxSolutions || es == []
    ensures
      var o := Explore(g, lim, depth, w, s, path, es);
      o.world == w && o.complete == (|w.solutions| < lim.maxSolutions)
  {
    SearchIsBounded(g, lim, depth);
  }

  lemma AddsNothing(g: Graph, depth: nat, path: seq<Edge>, es: seq<Edge>, a: seq<seq<Edge>>)
    ensures Adds(g, depth, path, es, a, a)
  {
  }

  /**
    Every solution recorded at a depth is a covering chain of exactly that length, solutions are
    recorded in the order of the search, and the limit is never exceeded.
   */
  lemma {:induction false} ExploreSound(
    g: Graph, lim: Limits, depth: nat, w: Memory, s: Mask, path: seq<Edge>, es: seq<Edge>)
    requires WellFormed(g) && |path| < depth && depth > 1
    requires Trail(g, path) && s == HashOf(path)
    requires Rest(g, path, es)
    ensures
      var o := Explore(g, lim, depth, w, s, path, es);
      && Adds(g, depth, path, es, w.solutions, o.world.solutions)
      && (|w.solutions| <= lim.maxSolutions ==> |o.world.solutions| <= lim.maxSolutions)
    decreases depth - |path|, |es|
  {
    hide *;
    if |w.solutions| >= lim.maxSolutions || es == [] {
      ExploreEnds(g, lim, depth, w, s, path, es);
      AddsNothing(g, depth, path, es, w.solutions);
    } else {
      ExploreUnfold(g, lim, depth, w, s, path, es);
      var o := Explore(g, lim, depth, w, s, path, es);
      var longer := path + [es[0]];
      var (w1, r) := NextState(g, lim, depth, w, s, longer);
      assert es[..1] == [es[0]];
      RestTail(g, path, es);
      StepSound(g, lim, depth, w, s, path, es[0]);
      if r.None? {
        ExploreSound(g, lim, depth, w1, s, path, es[1..]);
        AddsThenAdds(g, depth, path, es, w.solutions, w1.solutions, o.world.solutions);
      } else {
        var below := g[es[0].to].outgoing;
        var inner := Explore(g, lim, depth, w1, r.value, longer, below);
        RestAll(g, longer);
        ExploreSound(g, lim, depth, w1, r.value, longer, below);
        AddsBelow(g, depth, path, es[0], below, w.solutions, inner.world.solutions);
        if inner.complete {
          ExploreSound(g, lim, depth, inner.world, s, path, es[1..]);
        } else {
          AddsNothing(g, depth, path, es[1..], inner.world.solutions);
        }
        AddsThenAdds(g, depth, path, es, w.solutions, inner.world.solutions, o.world.solutions);
      }
    }
  }

  // ----- why pruning by the cache loses no last word

  /** Having taken edge e to mask m, some r further words cover the box, the last of them being f. */
  ghost predicate Leads(g: Graph, e: Edge, m: Mask, r: nat, f: Edge)
    decreases r
  {
    if r == 0 then m == SOLUTION_MASK && e == f
    else exists e' :: e' in g[e.to].outgoing && Leads(g, e', Join(m, e'.hash), r - 1, f)
  }

  /** From node v with mask m, some r further words, at least one, cover the box, the last of them being f. */
  ghost predicate EndsIn(g: Graph, v: BoxIndex, m: Mask, r: nat, f: Edge) {
    r > 0 && exists e :: e in g[v].outgoing && Leads(g, e, Join(m, e.hash), r - 1, f)
  }

  lemma LeadsOn(g: Graph, e: Edge, m: Mask, r: nat, f: Edge)
    requires r > 0
    ensures Leads(g, e, m, r, f) <==> EndsIn(g, e.to, m, r, f)
  {
  }

  /** Some listed chain of at most `length` edges ends with f. */
  ghost predicate Listed(solutions: seq<seq<Edge>>, f: Edge, length: nat) {
    exists k :: 0 <= k < |solutions| && EndsBy(solutions[k], f, length)
  }

  predicate EndsBy(p: seq<Edge>, f: Edge, length: nat) {
    0 < |p| <= length && p[|p| - 1] == f
  }

  lemma ListedMore(solutions: seq<seq<Edge>>, more: seq<seq<Edge>>, f: Edge, length: nat, length': nat)
    requires Listed(solutions, f, length) && Extends(solutions, more) && length <= length'
    ensures Listed(more, f, length')
  {
    var k :| 0 <= k < |solutions| && EndsBy(solutions[k], f, length);
    assert more[..|solutions|][k] == more[k] && EndsBy(more[k], f, length');
  }

  /** Every covering chain below the depth has a listed one that is no longer and ends with the same word. */
  ghost predicate ServedBelow(g: Graph, solutions: seq<seq<Edge>>, depth: nat) {
    forall q :: Covering(g, q) && |q| < depth ==> Listed(solutions, q[|q| - 1], |q|)
  }

  /** However (v, m) is completed by r words, a listed chain ends with the same word. */
  ghost predicate Served(g: Graph, v: BoxIndex, m: Mask, r: nat, solutions: seq<seq<Edge>>, length: nat) {
    forall f :: EndsIn(g, v, m, r, f) ==> Listed(solutions, f, length)
  }

  ghost predicate EdgeServed(g: Graph, e: Edge, m: Mask, r: nat, solutions: seq<seq<Edge>>, length: nat) {
    forall f :: Leads(g, e, m, r, f) ==> Listed(solutions, f, length)
  }

  lemma ServedMore(
    g: Graph, v: BoxIndex, m: Mask, r: nat, solutions: seq<seq<Edge>>, more: seq<seq<Edge>>, length: nat, length': nat)
    requires Served(g, v, m, r, solutions, length) && Extends(solutions, more) && length <= length'
    ensures Served(g, v, m, r, more, length')
  {
    hide EndsIn, Listed, Extends;
    forall f | EndsIn(g, v, m, r, f) ensures Listed(more, f, length') {
      ListedMore(solutions, more, f, length, length');
    }
  }

  lemma EdgeServedMore(
    g: Graph, e: Edge, m: Mask, r: nat, solutions: seq<seq<Edge>>, more: seq<seq<Edge>>, length: nat)
    requires EdgeServed(g, e, m, r, solutions, length) && Extends(solutions, more)
    ensures EdgeServed(g, e, m, r, more, length)
  {
    hide Leads, Listed, Extends;
    forall f | Leads(g, e, m, r, f) ensures Listed(more, f, length) {
      ListedMore(solutions, more, f, length, length);
    }
  }

  lemma ServedBelowMore(g: Graph, solutions: seq<seq<Edge>>, more: seq<seq<Edge>>, depth: nat)
    requires ServedBelow(g, solutions, depth) && Extends(solutions, more)
    ensures ServedBelow(g, more, depth)
  {
    hide Trail, HashOf, Listed, Extends;
    forall q | Covering(g, q) && |q| < depth ensures Listed(more, q[|q| - 1], |q|) {
      ListedMore(solutions, more, q[|q| - 1], |q|, |q|);
    }
  }

  lemma EdgeIsServed(g: Graph, e: Edge, m: Mask, r: nat, solutions: seq<seq<Edge>>, length: nat)
    requires r > 0
    ensures EdgeServed(g, e, m, r, solutions, length) <==> Served(g, e.to, m, r, solutions, length)
  {
    hide Leads, EndsIn, Listed;
    forall f ensures Leads(g, e, m, r, f) <==> EndsIn(g, e.to, m, r, f) {
      LeadsOn(g, e, m, r, f);
    }
  }

  /** Some path of c edges from the router ends in node v with mask m. */
  ghost predicate Reached(g: Graph, v: BoxIndex, m: Mask, c: nat) {
    exists path: seq<Edge> :: Trail(g, path) && |path| == c > 0 && path[c - 1].to == v && HashOf(path) == m
  }

  ghost predicate NoneShorter(g: Graph, depth: nat) {
    forall p :: Covering(g, p) ==> |p| >= depth
  }

  /** A trail that leads on to f extends to a covering chain that ends with f. */
  lemma {:induction false} LeadsCovers(g: Graph, path: seq<Edge>, r: nat, f: Edge) returns (p: seq<Edge>)
    requires Trail(g, path) && path != [] && |path| + r > 1
    requires Leads(g, path[|path| - 1], HashOf(path), r, f)
    ensures Covering(g, p) && |p| == |path| + r && p[|p| - 1] == f
    decreases r
  {
    hide Trail, HashOf, Join;
    if r == 0 {
      p := path;
    } else {
      var last := path[|path| - 1];
      var e :| e in g[last.to].outgoing && Leads(g, e, Join(HashOf(path), e.hash), r - 1, f);
      OptionsAfter(g, path);
      TrailStep(g, path, e);
      p := LeadsCovers(g, path + [e], r - 1, f);
    }
  }

  lemma OptionsAfter(g: Graph, path: seq<Edge>)
    requires path != []
    ensures Options(g, path) == g[path[|path| - 1].to].outgoing
  {
  }

  /** A state reached by c edges can be completed by r words only to chains that are served already. */
  lemma ReachedIsServed(
    g: Graph, v: BoxIndex, m: Mask, c: nat, r: nat, solutions: seq<seq<Edge>>, depth: nat)
    requires ServedBelow(g, solutions, depth) && Reached(g, v, m, c) && 1 < c + r < depth
    ensures Served(g, v, m, r, solutions, depth)
  {
    hide Trail, HashOf, Leads, Covering, Listed;
    forall f | EndsIn(g, v, m, r, f) ensures Listed(solutions, f, depth) {
      var path: seq<Edge> :| Trail(g, path) && |path| == c > 0 && path[c - 1].to == v && HashOf(path) == m;
      LeadsOn(g, path[c - 1], m, r, f);
      var p := LeadsCovers(g, path, r, f);
      ExtendsSelf(solutions);
      ListedMore(solutions, solutions, f, |p|, depth);
    }
  }

  lemma ExtendsSelf<T>(a: seq<T>)
    ensures Extends(a, a)
  {
  }

  lemma TrailAt(g: Graph, p: seq<Edge>, k: nat)
    requires Trail(g, p) && 0 < k < |p|
    ensures p[k] in g[p[k - 1].to].outgoing
  {
    assert p[k] in Options(g, p[..k]);
  }

  lemma HashOfPrefix(p: seq<Edge>, k: nat)
    requires k < |p|
    ensures HashOf(p[..k + 1]) == Join(HashOf(p[..k]), p[k].hash)
  {
    assert p[..k + 1][..k] == p[..k];
  }

  /** A covering chain leads to its last edge from every one of its prefixes. */
  lemma {:induction false} CoveringLeads(g: Graph, p: seq<Edge>, k: nat)
    requires Covering(g, p) && 0 < k <= |p|
    ensures Leads(g, p[k - 1], HashOf(p[..k]), |p| - k, p[|p| - 1])
    decreases |p| - k
  {
    hide HashOf, Join, Trail;
    if k == |p| {
      assert p[..k] == p;
    } else {
      CoveringLeads(g, p, k + 1);
      TrailAt(g, p, k);
      HashOfPrefix(p, k);
    }
  }

  /** What a cache entry of state (v, m) records, up to the current depth. */
  ghost predicate EntryOk(g: Graph, v: BoxIndex, m: Mask, e: Entry, depth: nat) {
    e != UNVISITED ==> 1 < e.depthCeiling < e.creationDepth <= depth && Reached(g, v, m, e.depthCeiling)
  }

  ghost predicate CacheOk(g: Graph, c: Cache, depth: nat) {
    forall v: BoxIndex, m: Mask :: m[v] ==> EntryOk(g, v, m, At(c, v, m), depth)
  }

  /** States with an entry made at this depth for a path longer than p are served. */
  ghost predicate ServedAbove(g: Graph, c: Cache, depth: nat, p: nat, solutions: seq<seq<Edge>>) {
    forall v: BoxIndex, m: Mask :: m[v] ==> EntryServed(g, v, m, At(c, v, m), depth, p, solutions)
  }

  ghost predicate EntryServed(
    g: Graph, v: BoxIndex, m: Mask, e: Entry, depth: nat, p: nat, solutions: seq<seq<Edge>>)
  {
    e.creationDepth == depth && p < e.depthCeiling <= depth ==>
      Served(g, v, m, depth - e.depthCeiling, solutions, depth)
  }

  lemma ServedAboveMore(
    g: Graph, c: Cache, depth: nat, p: nat, solutions: seq<seq<Edge>>, more: seq<seq<Edge>>)
    requires ServedAbove(g, c, depth, p, solutions) && Extends(solutions, more)
    ensures ServedAbove(g, c, depth, p, more)
  {
    hide At, Served, Extends;
    forall v: BoxIndex, m: Mask | m[v] ensures EntryServed(g, v, m, At(c, v, m), depth, p, more) {
      var e := At(c, v, m);
      assert EntryServed(g, v, m, e, depth, p, solutions);
      if e.creationDepth == depth && p < e.depthCeiling <= depth {
        ServedMore(g, v, m, depth - e.depthCeiling, solutions, more, depth, depth);
      }
    }
  }

  /** Searching below a path of p edges only ever writes ceilings above p. */
  ghost predicate Frame(c: Cache, c': Cache, p: nat) {
    forall v: BoxIndex, m: Mask :: m[v] ==> At(c', v, m) == At(c, v, m) || p < At(c', v, m).depthCeiling
  }

  /** Writing one state's entry changes no other state's. */
  lemma WriteEntry(c: Cache, v: BoxIndex, m: Mask, e: Entry, v': BoxIndex, m': Mask)
    requires m[v] && m'[v']
    ensures At(Write(c, v, m, e), v', m') == if v == v' && m == m' then e else At(c, v', m')
  {
    hide Key;
    if Key(v, m) == Key(v', m') {
      KeyInjective(v, m, v', m');
    }
  }

  /** Entering a state at path size p: the caches before and after, at every state. */
  lemma WrittenEntry(
    g: Graph, c: Cache, v: BoxIndex, m: Mask, depth: nat, p: uint8, solutions: seq<seq<Edge>>, v': BoxIndex, m': Mask)
    requires m[v] && m'[v'] && 1 < p < depth < 256 && Reached(g, v, m, p)
    requires EntryOk(g, v', m', At(c, v', m'), depth)
    requires EntryServed(g, v', m', At(c, v', m'), depth, p - 1, solutions)
    ensures
      var e := At(Write(c, v, m, Entry(p, depth)), v', m');
      && EntryOk(g, v', m', e, depth) && EntryServed(g, v', m', e, depth, p, solutions)
      && (if v == v' && m == m' then e == Entry(p, depth) else e == At(c, v', m'))
  {
    hide Reached, Served, At, Write;
    WriteEntry(c, v, m, Entry(p, depth), v', m');
  }

  lemma VisitState(
    g: Graph, c: Cache, v: BoxIndex, m: Mask, depth: nat, p: uint8, solutions: seq<seq<Edge>>)
    requires m[v] && 1 < p < depth < 256 && Reached(g, v, m, p)
    requires CacheOk(g, c, depth) && ServedAbove(g, c, depth, p - 1, solutions)
    ensures
      var c' := Write(c, v, m, Entry(p, depth));
      && CacheOk(g, c', depth) && ServedAbove(g, c', depth, p, solutions)
      && Frame(c, c', p - 1) && OthersKept(c, c', v, m)
  {
    hide Reached, EntryOk, EntryServed, At, Write;
    var c' := Write(c, v, m, Entry(p, depth));
    forall v': BoxIndex, m': Mask | m'[v']
      ensures EntryOk(g, v', m', At(c', v', m'), depth)
      ensures EntryServed(g, v', m', At(c', v', m'), depth, p, solutions)
      ensures At(c', v', m') == if v == v' && m == m' then Entry(p, depth) else At(c, v', m')
    {
      WrittenEntry(g, c, v, m, depth, p, solutions, v', m');
    }
  }

  ghost predicate OthersKept(c: Cache, c': Cache, v: BoxIndex, m: Mask) {
    forall v': BoxIndex, m': Mask :: m'[v'] && (v' != v || m' != m) ==> At(c', v', m') == At(c, v', m')
  }

  /** Both pruning conditions only refuse states that are served. */
  lemma Prunes(g: Graph, c: Cache, v: BoxIndex, m: Mask, depth: nat, p: nat, solutions: seq<seq<Edge>>)
    requires m[v] && 0 < p < depth < 256 && ServedBelow(g, solutions, depth)
    requires CacheOk(g, c, depth) && ServedAbove(g, c, depth, p - 1, solutions)
    requires At(c, v, m).depthCeiling < p || (At(c, v, m).depthCeiling <= p && At(c, v, m).creationDepth >= depth)
    ensures Served(g, v, m, depth - p, solutions, depth)
  {
    hide ServedBelow, Reached, Served, At;
    var e := At(c, v, m);
    assert EntryOk(g, v, m, e, depth);
    assert EntryServed(g, v, m, e, depth, p - 1, solutions);
    if e.depthCeiling < p {
      ReachedIsServed(g, v, m, e.depthCeiling, depth - p, solutions, depth);
    }
  }

  lemma StepReaches(g: Graph, path: seq<Edge>, e: Edge)
    requires Trail(g, path) && e in Options(g, path)
    ensures Reached(g, e.to, Join(HashOf(path), e.hash), |path| + 1)
  {
    TrailStep(g, path, e);
    hide Trail, HashOf, Options, Join;
    var longer := path + [e];
    assert |longer| == |path| + 1 && longer[|path|].to == e.to;
  }

  lemma CachedStepServed(g: Graph, lim: Limits, depth: nat, w: Memory, s: Mask, path: seq<Edge>, e: Edge)
    requires 1 < |path| + 1 < depth < 256 && lim.cacheMinDepth < depth && ServedBelow(g, w.solutions, depth)
    requires CacheOk(g, w.cache, depth) && ServedAbove(g, w.cache, depth, |path|, w.solutions)
    requires Join(s, e.hash)[e.to] && Reached(g, e.to, Join(s, e.hash), |path| + 1)
    ensures
      var m := Join(s, e.hash);
      var (w1, r) := NextState(g, lim, depth, w, s, path + [e]);
      if r.None? then w1 == w && EdgeServed(g, e, m, depth - |path| - 1, w.solutions, depth)
      else
        && CacheOk(g, w1.cache, depth) && ServedAbove(g, w1.cache, depth, |path| + 1, w.solutions)
        && Frame(w.cache, w1.cache, |path|) && OthersKept(w.cache, w1.cache, e.to, m)
  {
    hide NextState, ServedBelow, CacheOk, ServedAbove, Served, EdgeServed, At, Write, Join, Reached, Frame;
    NextStateCached(g, lim, depth, w, s, path, e);
    var p := |path| + 1;
    var m := Join(s, e.hash);
    var seen := At(w.cache, e.to, m);
    if seen.depthCeiling < p || (seen.depthCeiling <= p && seen.creationDepth >= depth) {
      Prunes(g, w.cache, e.to, m, depth, p, w.solutions);
      EdgeIsServed(g, e, m, depth - p, w.solutions, depth);
    } else {
      VisitState(g, w.cache, e.to, m, depth, p, w.solutions);
    }
  }

  /** One step either leaves an edge that is served, or enters a state it has now marked. */
  lemma StepServed(g: Graph, lim: Limits, depth: nat, w: Memory, s: Mask, path: seq<Edge>, e: Edge)
    requires WellFormed(g) && |path| < depth && 1 < depth < 256 && ServedBelow(g, w.solutions, depth)
    requires Trail(g, path) && s == HashOf(path) && e in Options(g, path)
    requires CacheOk(g, w.cache, depth) && ServedAbove(g, w.cache, depth, |path|, w.solutions)
    ensures
      var m := Join(s, e.hash);
      var (w1, r) := NextState(g, lim, depth, w, s, path + [e]);
      if r.None? then
        w1.cache == w.cache && EdgeServed(g, e, m, depth - |path| - 1, w1.solutions, depth)
      else
        && CacheOk(g, w1.cache, depth) && ServedAbove(g, w1.cache, depth, |path| + 1, w.solutions)
        && Frame(w.cache, w1.cache, |path|) && OthersKept(w.cache, w1.cache, e.to, m)
  {
    hide *;
    if |path| + 1 == depth {
      NextStateCases(g, lim, depth, w, s, path, e);
      LastStepRefuses(g, lim, depth, w, s, path, e);
      RecordedIsServed(g, depth, w.solutions, s, path, e);
    } else if path == [] || depth <= lim.cacheMinDepth {
      NextStateCases(g, lim, depth, w, s, path, e);
      KeptCache(g, w.cache, depth, |path|, w.solutions, e.to, Join(s, e.hash));
      UncachedAccepts(g, lim, depth, w, s, path, e);
    } else {
      EndsInLetter(g, path, e);
      StepReaches(g, path, e);
      CachedStepServed(g, lim, depth, w, s, path, e);
    }
  }

  lemma UncachedAccepts(g: Graph, lim: Limits, depth: nat, w: Memory, s: Mask, path: seq<Edge>, e: Edge)
    requires |path| + 1 < depth && (path == [] || depth <= lim.cacheMinDepth)
    ensures NextState(g, lim, depth, w, s, path + [e]).1.Some?
  {
  }

  lemma LastStepRefuses(g: Graph, lim: Limits, depth: nat, w: Memory, s: Mask, path: seq<Edge>, e: Edge)
    requires |path| + 1 == depth > 1
    ensures NextState(g, lim, depth, w, s, path + [e]).1.None?
  {
  }

  /** The last edge of a path is served by recording the path if it covers the box. */
  lemma RecordedIsServed(g: Graph, depth: nat, solutions: seq<seq<Edge>>, s: Mask, path: seq<Edge>, e: Edge)
    requires |path| + 1 == depth
    ensures
      var m := Join(s, e.hash);
      EdgeServed(g, e, m, 0, if m == SOLUTION_MASK then solutions + [path + [e]] else solutions, depth)
  {
    hide Join;
    var more := solutions + [path + [e]];
    assert more[|solutions|] == path + [e] && EndsBy(more[|solutions|], e, depth);
  }

  lemma KeptCache(g: Graph, c: Cache, depth: nat, p: nat, solutions: seq<seq<Edge>>, v: BoxIndex, m: Mask)
    requires ServedAbove(g, c, depth, p, solutions)
    ensures ServedAbove(g, c, depth, p + 1, solutions) && Frame(c, c, p) && OthersKept(c, c, v, m)
  {
    hide At, Served;
    forall v: BoxIndex, m: Mask | m[v] ensures EntryServed(g, v, m, At(c, v, m), depth, p + 1, solutions) {
      assert EntryServed(g, v, m, At(c, v, m), depth, p, solutions);
    }
  }

  lemma EndsInLetter(g: Graph, path: seq<Edge>, e: Edge)
    requires WellFormed(g) && path != [] && e in Options(g, path)
    ensures Join(HashOf(path), e.hash)[e.to]
  {
  }

  /** Back from a state whose edges are all served, its own entry is served as well. */
  lemma AfterChild(
    g: Graph, c0: Cache, c1: Cache, c2: Cache, v: BoxIndex, m: Mask, depth: nat, p: nat, solutions: seq<seq<Edge>>)
    requires p + 1 < depth
    requires ServedAbove(g, c0, depth, p, solutions) && Frame(c0, c1, p) && OthersKept(c0, c1, v, m)
    requires Frame(c1, c2, p + 1) && ServedAbove(g, c2, depth, p + 1, solutions)
    requires Served(g, v, m, depth - p - 1, solutions, depth)
    ensures ServedAbove(g, c2, depth, p, solutions) && Frame(c0, c2, p)
  {
    hide At, Served;
    forall v': BoxIndex, m': Mask | m'[v']
      ensures EntryServed(g, v', m', At(c2, v', m'), depth, p, solutions)
      ensures At(c2, v', m') == At(c0, v', m') || p < At(c2, v', m').depthCeiling
    {
      assert EntryServed(g, v', m', At(c0, v', m'), depth, p, solutions);
      assert EntryServed(g, v', m', At(c2, v', m'), depth, p + 1, solutions);
    }
  }

  /** All of the edges es are served. */
  ghost predicate AllServed(
    g: Graph, depth: nat, s: Mask, p: nat, es: seq<Edge>, solutions: seq<seq<Edge>>)
    requires p < depth
  {
    forall e :: e in es ==> EdgeServed(g, e, Join(s, e.hash), depth - p - 1, solutions, depth)
  }

  lemma ChildrenServed(g: Graph, depth: nat, m: Mask, v: BoxIndex, p: nat, solutions: seq<seq<Edge>>)
    requires p < depth && AllServed(g, depth, m, p, g[v].outgoing, solutions)
    ensures Served(g, v, m, depth - p, solutions, depth)
  {
    hide Leads, Listed, Join;
  }

  lemma AllServedCons(g: Graph, depth: nat, s: Mask, p: nat, es: seq<Edge>, solutions: seq<seq<Edge>>)
    requires p < depth && es != []
    requires EdgeServed(g, es[0], Join(s, es[0].hash), depth - p - 1, solutions, depth)
    requires AllServed(g, depth, s, p, es[1..], solutions)
    ensures AllServed(g, depth, s, p, es, solutions)
  {
    hide EdgeServed;
    assert es == [es[0]] + es[1..];
  }

  lemma FrameTrans(c0: Cache, c1: Cache, c2: Cache, p: nat)
    requires Frame(c0, c1, p) && Frame(c1, c2, p)
    ensures Frame(c0, c2, p)
  {
    hide At;
  }

  /** Nothing is left to be served by an exhausted node. */
  lemma NothingLeft(g: Graph, c: Cache, depth: nat, s: Mask, p: nat, solutions: seq<seq<Edge>>)
    requires p < depth
    ensures Frame(c, c, p) && AllServed(g, depth, s, p, [], solutions)
  {
  }

  /** What a whole search of the edges es must have established when it ran to its end. */
  ghost predicate Explored(
    g: Graph, depth: nat, s: Mask, p: nat, es: seq<Edge>, before: Cache, w: Memory)
    requires p < depth
  {
    && CacheOk(g, w.cache, depth) && ServedAbove(g, w.cache, depth, p, w.solutions)
    && Frame(before, w.cache, p) && AllServed(g, depth, s, p, es, w.solutions)
  }

  /** After the child of an accepted edge has been searched, the edge is served and the parent's books are in order. */
  lemma ChildServed(
    g: Graph, depth: nat, w: Memory, w1: Memory, m: Mask, p: nat, e: Edge, inner: Memory)
    requires p + 1 < depth && Explored(g, depth, m, p + 1, g[e.to].outgoing, w1.cache, inner)
    requires ServedAbove(g, w.cache, depth, p, w.solutions) && Extends(w.solutions, inner.solutions)
    requires Frame(w.cache, w1.cache, p) && OthersKept(w.cache, w1.cache, e.to, m)
    ensures CacheOk(g, inner.cache, depth) && ServedAbove(g, inner.cache, depth, p, inner.solutions)
    ensures Frame(w.cache, inner.cache, p) && EdgeServed(g, e, m, depth - p - 1, inner.solutions, depth)
  {
    hide Frame, OthersKept, ServedAbove, AllServed, CacheOk, EdgeServed, Served, Extends;
    ChildrenServed(g, depth, m, e.to, p + 1, inner.solutions);
    EdgeIsServed(g, e, m, depth - p - 1, inner.solutions, depth);
    ServedAboveMore(g, w.cache, depth, p, w.solutions, inner.solutions);
    AfterChild(g, w.cache, w1.cache, inner.cache, e.to, m, depth, p, inner.solutions);
  }

  /** The first edge served, and then the others. */
  lemma ThenExplored(
    g: Graph, depth: nat, s: Mask, p: nat, es: seq<Edge>, before: Cache, w: Memory, after: Memory)
    requires p < depth && es != [] && Frame(before, w.cache, p) && Extends(w.solutions, after.solutions)
    requires EdgeServed(g, es[0], Join(s, es[0].hash), depth - p - 1, w.solutions, depth)
    requires Explored(g, depth, s, p, es[1..], w.cache, after)
    ensures Explored(g, depth, s, p, es, before, after)
  {
    hide Frame, ServedAbove, AllServed, CacheOk, EdgeServed, Extends;
    FrameTrans(before, w.cache, after.cache, p);
    EdgeServedMore(g, es[0], Join(s, es[0].hash), depth - p - 1, w.solutions, after.solutions, depth);
    AllServedCons(g, depth, s, p, es, after.solutions);
  }

  /**
    A depth's search that runs to its end has listed, for every covering chain through one of the edges
    es, a chain that is no longer and ends with the same word, whatever the cache pruned.
   */
  lemma {:induction false} ExploreServes(
    g: Graph, lim: Limits, depth: nat, w: Memory, s: Mask, path: seq<Edge>, es: seq<Edge>)
    requires WellFormed(g) && |path| < depth && 1 < depth < 256 && ServedBelow(g, w.solutions, depth)
    requires Trail(g, path) && s == HashOf(path) && Rest(g, path, es)
    requires CacheOk(g, w.cache, depth) && ServedAbove(g, w.cache, depth, |path|, w.solutions)
    ensures
      var o := Explore(g, lim, depth, w, s, path, es);
      o.complete ==> Explored(g, depth, s, |path|, es, w.cache, o.world)
    decreases depth - |path|, |es|
  {
    hide *;
    var o := Explore(g, lim, depth, w, s, path, es);
    if |w.solutions| >= lim.maxSolutions || es == [] {
      ExploreEnds(g, lim, depth, w, s, path, es);
      NothingLeft(g, w.cache, depth, s, |path|, w.solutions);
      NothingExplored(g, depth, s, |path|, w);
    } else {
      ExploreUnfold(g, lim, depth, w, s, path, es);
      var longer := path + [es[0]];
      var (w1, r) := NextState(g, lim, depth, w, s, longer);
      RestTail(g, path, es);
      StepSound(g, lim, depth, w, s, path, es[0]);
      StepServed(g, lim, depth, w, s, path, es[0]);
      if o.complete {
        if r.None? {
          StepExtends(g, depth, path, es[0], w.solutions, w1.solutions);
          ServedBelowMore(g, w.solutions, w1.solutions, depth);
          ServedAboveMore(g, w.cache, depth, |path|, w.solutions, w1.solutions);
          ExploreServes(g, lim, depth, w1, s, path, es[1..]);
          ExploreExtends(g, lim, depth, w1, s, path, es[1..]);
          NothingLeft(g, w.cache, depth, s, |path|, w.solutions);
          ThenExplored(g, depth, s, |path|, es, w.cache, w1, o.world);
        } else {
          var below := g[es[0].to].outgoing;
          var inner := Explore(g, lim, depth, w1, r.value, longer, below);
          RestAll(g, longer);
          ExploreServes(g, lim, depth, w1, r.value, longer, below);
          ExploreExtends(g, lim, depth, w1, r.value, longer, below);
          JoinHash(path, es[0]);
          ChildServed(g, depth, w, w1, r.value, |path|, es[0], inner.world);
          ServedBelowMore(g, w.solutions, inner.world.solutions, depth);
          ExploreServes(g, lim, depth, inner.world, s, path, es[1..]);
          ExploreExtends(g, lim, depth, inner.world, s, path, es[1..]);
          ThenExplored(g, depth, s, |path|, es, w.cache, inner.world, o.world);
        }
      }
    }
  }

  lemma NothingExplored(g: Graph, depth: nat, s: Mask, p: nat, w: Memory)
    requires p < depth && CacheOk(g, w.cache, depth) && ServedAbove(g, w.cache, depth, p, w.solutions)
    requires Frame(w.cache, w.cache, p) && AllServed(g, depth, s, p, [], w.solutions)
    ensures Explored(g, depth, s, p, [], w.cache, w)
  {
  }

  lemma StepExtends(
    g: Graph, depth: nat, path: seq<Edge>, e: Edge, before: seq<seq<Edge>>, after: seq<seq<Edge>>)
    requires Adds(g, depth, path, [e], before, after)
    ensures Extends(before, after)
  {
  }

  lemma JoinHash(path: seq<Edge>, e: Edge)
    ensures HashOf(path + [e]) == Join(HashOf(path), e.hash)
  {
    assert (path + [e])[..|path|] == path;
  }

  /** A recorded solution stays recorded. */
  lemma ExploreExtends(g: Graph, lim: Limits, depth: nat, w: Memory, s: Mask, path: seq<Edge>, es: seq<Edge>)
    requires WellFormed(g) && |path| < depth && depth > 1
    requires Trail(g, path) && s == HashOf(path) && Rest(g, path, es)
    ensures Extends(w.solutions, Explore(g, lim, depth, w, s, path, es).world.solutions)
  {
    ExploreSound(g, lim, depth, w, s, path, es);
  }

  // ----- the depths searched without the cache

  /** A search without the cache that runs to its end lists every covering chain of the depth. */
  lemma {:induction false} ExploreAll(
    g: Graph, lim: Limits, depth: nat, w: Memory, s: Mask, path: seq<Edge>, es: seq<Edge>, q: seq<Edge>)
    requires WellFormed(g) && |path| < depth && 1 < depth <= lim.cacheMinDepth
    requires Trail(g, path) && s == HashOf(path) && Rest(g, path, es)
    requires Found(g, depth, path, es, q)
    ensures
      var o := Explore(g, lim, depth, w, s, path, es);
      o.complete ==> q in o.world.solutions
    decreases depth - |path|, |es|
  {
    hide *;
    var o := Explore(g, lim, depth, w, s, path, es);
    FoundSome(g, depth, path, es, q);
    if |w.solutions| >= lim.maxSolutions {
      ExploreEnds(g, lim, depth, w, s, path, es);
    } else if o.complete {
      ExploreUnfold(g, lim, depth, w, s, path, es);
      var longer := path + [es[0]];
      var (w1, r) := NextState(g, lim, depth, w, s, longer);
      RestTail(g, path, es);
      StepSound(g, lim, depth, w, s, path, es[0]);
      NextStateCases(g, lim, depth, w, s, path, es[0]);
      if q[|path|] != es[0] {
        FoundLater(g, depth, path, es, q);
        ExploreAll(g, lim, depth,
                   if r.None? then w1 else Explore(g, lim, depth, w1, r.value, longer, g[es[0].to].outgoing).world,
                   s, path, es[1..], q);
      } else if r.None? {
        if |longer| < depth {
          UncachedAccepts(g, lim, depth, w, s, path, es[0]);
        }
        FoundNow(g, depth, path, es, q);
        JoinHash(path, es[0]);
        ExploreExtends(g, lim, depth, w1, s, path, es[1..]);
        StillListed(w1.solutions, o.world.solutions, q);
      } else {
        var below := g[es[0].to].outgoing;
        var inner := Explore(g, lim, depth, w1, r.value, longer, below);
        RestAll(g, longer);
        FoundBelow(g, depth, path, es, q);
        ExploreAll(g, lim, depth, w1, r.value, longer, below, q);
        ExploreExtends(g, lim, depth, inner.world, s, path, es[1..]);
        StillListed(inner.world.solutions, o.world.solutions, q);
      }
    }
  }

  lemma FoundSome(g: Graph, depth: nat, path: seq<Edge>, es: seq<Edge>, q: seq<Edge>)
    requires Found(g, depth, path, es, q)
    ensures es != [] && |q| == depth > |path|
  {
  }

  lemma FoundLater(g: Graph, depth: nat, path: seq<Edge>, es: seq<Edge>, q: seq<Edge>)
    requires Found(g, depth, path, es, q) && es != [] && q[|path|] != es[0]
    ensures Found(g, depth, path, es[1..], q)
  {
    assert es == [es[0]] + es[1..];
  }

  lemma FoundNow(g: Graph, depth: nat, path: seq<Edge>, es: seq<Edge>, q: seq<Edge>)
    requires Found(g, depth, path, es, q) && es != [] && q[|path|] == es[0]
    ensures |path| + 1 == depth ==> q == path + [es[0]] && HashOf(q) == SOLUTION_MASK
  {
    assert q[..|path| + 1] == q[..|path|] + [q[|path|]];
    assert |path| + 1 == depth ==> q[..|path| + 1] == q;
  }

  lemma FoundBelow(g: Graph, depth: nat, path: seq<Edge>, es: seq<Edge>, q: seq<Edge>)
    requires Found(g, depth, path, es, q) && es != [] && q[|path|] == es[0] && |path| + 1 < depth
    ensures Found(g, depth, path + [es[0]], g[es[0].to].outgoing, q)
  {
    hide HashOf;
    assert q[..|path| + 1] == path + [es[0]];
    TrailAt(g, q, |path| + 1);
  }

  lemma StillListed<T>(before: seq<T>, after: seq<T>, q: T)
    requires Extends(before, after) && q in before
    ensures q in after
  {
    var k :| 0 <= k < |before| && before[k] == q;
    assert after[..|before|][k] == after[k];
  }

  // ----- iterative deepening

  /** p is listed before q: it is shorter, or as long and earlier in the order of the search. */
  ghost predicate InOrder(g: Graph, p: seq<Edge>, q: seq<Edge>) {
    |p| < |q| || (|p| == |q| && Precedes(g, p, q))
  }

  /** Every covering chain short enough to be searched for without the cache. */
  ghost predicate ShortListed(g: Graph, lim: Limits, solutions: seq<seq<Edge>>, depth: nat) {
    forall q :: Covering(g, q) && |q| < depth && |q| <= lim.cacheMinDepth ==> q in solutions
  }

  /** What the search has established before it starts on `depth`. */
  ghost predicate Ledger(g: Graph, lim: Limits, depth: nat, w: Memory)
    requires depth > 0
  {
    && |w.solutions| <= lim.maxSolutions
    && (forall k :: 0 <= k < |w.solutions| ==> Covering(g, w.solutions[k]) && |w.solutions[k]| < depth)
    && (forall j, k :: 0 <= j < k < |w.solutions| ==> InOrder(g, w.solutions[j], w.solutions[k]))
    && NoneShorter(g, if w.solutions == [] then depth else |w.solutions[0]|)
    && (|w.solutions| < lim.maxSolutions ==>
          && ServedBelow(g, w.solutions, depth) && ShortListed(g, lim, w.solutions, depth)
          && CacheOk(g, w.cache, depth - 1))
  }

  lemma LedgerAdds(g: Graph, lim: Limits, depth: nat, w: Memory, w': Memory, es: seq<Edge>)
    requires depth > 0 && Ledger(g, lim, depth, w)
    requires Adds(g, depth, [], es, w.solutions, w'.solutions)
    requires |w'.solutions| <= lim.maxSolutions
    requires w'.solutions == [] ==> NoneShorter(g, depth + 1)
    requires |w'.solutions| < lim.maxSolutions ==>
      && ServedBelow(g, w'.solutions, depth + 1) && ShortListed(g, lim, w'.solutions, depth + 1)
      && CacheOk(g, w'.cache, depth)
    ensures Ledger(g, lim, depth + 1, w')
  {
    hide Covering, NoneShorter, CacheOk, ServedBelow, ShortListed, Precedes;
    var n := |w.solutions|;
    forall k | 0 <= k < |w'.solutions|
      ensures Covering(g, w'.solutions[k])
      ensures if k < n then w'.solutions[k] == w.solutions[k] && |w'.solutions[k]| < depth
              else |w'.solutions[k]| == depth
    {
      if k < n {
        assert w'.solutions[k] == w'.solutions[..n][k];
      } else {
        assert Found(g, depth, [], es, w'.solutions[k]);
      }
    }
  }

  lemma NewDepthHasNoEntries(g: Graph, c: Cache, depth: nat, solutions: seq<seq<Edge>>)
    requires depth > 0 && CacheOk(g, c, depth - 1)
    ensures CacheOk(g, c, depth) && ServedAbove(g, c, depth, 0, solutions)
  {
    hide At, Reached, Served;
    forall v: BoxIndex, m: Mask | m[v]
      ensures EntryOk(g, v, m, At(c, v, m), depth) && EntryServed(g, v, m, At(c, v, m), depth, 0, solutions)
    {
      assert EntryOk(g, v, m, At(c, v, m), depth - 1);
    }
  }

  /** With the router's edges served at a depth, so are the covering chains of that length. */
  lemma ServedAtDepth(g: Graph, depth: nat, before: seq<seq<Edge>>, after: seq<seq<Edge>>)
    requires depth > 1 && ServedBelow(g, before, depth) && Extends(before, after)
    requires AllServed(g, depth, EMPTY_MASK, 0, RouterNode().outgoing, after)
    ensures ServedBelow(g, after, depth + 1)
  {
    ServedBelowMore(g, before, after, depth);
    hide Leads, Join, Trail, Listed, HashOf, RouterNode, Extends;
    forall q | Covering(g, q) && |q| < depth + 1 ensures Listed(after, q[|q| - 1], |q|) {
      if |q| == depth {
        StartsAtRouter(g, q);
        CoveringLeads(g, q, 1);
      }
    }
  }

  lemma StartsAtRouter(g: Graph, p: seq<Edge>)
    requires Trail(g, p) && p != []
    ensures p[0] in RouterNode().outgoing && HashOf(p[..1]) == Join(EMPTY_MASK, p[0].hash)
  {
    assert p[..0] == [];
    HashOfPrefix(p, 0);
  }

  lemma NoneServed(g: Graph, depth: nat)
    requires ServedBelow(g, [], depth)
    ensures NoneShorter(g, depth)
  {
    hide Covering;
  }

  /** A path may start at any node, with no letter covered yet, and goes on with that node's words. */
  lemma AnyStart(g: Graph, v: BoxIndex)
    ensures Trail(g, [RouterEdge(v)]) && HashOf([RouterEdge(v)]) == EMPTY_MASK
    ensures Options(g, [RouterEdge(v)]) == g[v].outgoing
  {
    var e := RouterEdge(v);
    RouterOptions(g);
    assert RouterNode().outgoing[v] == e;
    TrailStep(g, [], e);
    RouterHash(e);
    assert [] + [e] == [e];
  }

  lemma RouterOptions(g: Graph)
    ensures Trail(g, []) && HashOf([]) == EMPTY_MASK
    ensures Options(g, []) == RouterNode().outgoing
  {
  }

  /** An unfinished search has filled the list. */
  lemma UnfinishedIsFull(g: Graph, lim: Limits, depth: nat, w: Memory, s: Mask, path: seq<Edge>, es: seq<Edge>)
    requires |path| < depth && depth > 1
    ensures
      var o := Explore(g, lim, depth, w, s, path, es);
      !o.complete ==> |o.world.solutions| >= lim.maxSolutions
  {
    SearchIsBounded(g, lim, depth);
    IncompleteOnlyWhenStopped(SearchAt(g, lim, depth), depth, w, s, path, es);
  }

  lemma AllAtDepth(g: Graph, lim: Limits, depth: nat, w: Memory)
    requires WellFormed(g) && depth > 1 && ShortListed(g, lim, w.solutions, depth)
    requires Explore(g, lim, depth, w, EMPTY_MASK, [], RouterNode().outgoing).complete
    ensures
      ShortListed(g, lim, Explore(g, lim, depth, w, EMPTY_MASK, [], RouterNode().outgoing).world.solutions, depth + 1)
  {
    hide Explore, WellFormed, Trail, HashOf, Rest;
    var es := RouterNode().outgoing;
    var after := Explore(g, lim, depth, w, EMPTY_MASK, [], es).world.solutions;
    RouterOptions(g);
    RestAll(g, []);
    ExploreExtends(g, lim, depth, w, EMPTY_MASK, [], es);
    forall q | Covering(g, q) && |q| < depth + 1 && |q| <= lim.cacheMinDepth ensures q in after {
      if |q| == depth {
        StartsAtRouter(g, q);
        ExploreAll(g, lim, depth, w, EMPTY_MASK, [], es, q);
      } else {
        StillListed(w.solutions, after, q);
      }
    }
  }

  lemma NextDepth(g: Graph, lim: Limits, depth: nat, w: Memory)
    requires WellFormed(g) && 1 < depth < 256 && lim.maxSolutions > 0
    requires Ledger(g, lim, depth, w) && |w.solutions| < lim.maxSolutions
    ensures
      Ledger(g, lim, depth + 1, Explore(g, lim, depth, w, EMPTY_MASK, [], RouterNode().outgoing).world)
  {
    hide Explore, WellFormed, Trail, HashOf, NoneShorter, CacheOk, ServedAbove, ServedBelow, AllServed, Frame, Covering,
      Found, Rest, ShortListed, InOrder, Precedes, RouterNode;
    var es := RouterNode().outgoing;
    var o := Explore(g, lim, depth, w, EMPTY_MASK, [], es);
    var w' := o.world;
    RouterOptions(g);
    RestAll(g, []);
    ExploreSound(g, lim, depth, w, EMPTY_MASK, [], es);
    UnfinishedIsFull(g, lim, depth, w, EMPTY_MASK, [], es);
    if o.complete {
      NewDepthHasNoEntries(g, w.cache, depth, w.solutions);
      ExploreServes(g, lim, depth, w, EMPTY_MASK, [], es);
      ServedAtDepth(g, depth, w.solutions, w'.solutions);
      AllAtDepth(g, lim, depth, w);
      if w'.solutions == [] {
        NoneServed(g, depth + 1);
      }
    }
    LedgerAdds(g, lim, depth, w, w', es);
  }

  /** The memory before `depth` is searched. */
  ghost function Deepened(g: Graph, lim: Limits, depth: nat): Memory {
    if depth <= MIN_SOLUTION_SIZE + 1 then Memory(seq(MAX_STATES * BOX_CHARS, _ => UNVISITED), [])
    else
      var w := Deepened(g, lim, depth - 1);
      if |w.solutions| >= lim.maxSolutions then w
      else Explore(g, lim, depth - 1, w, EMPTY_MASK, [], RouterNode().outgoing).world
  }

  lemma {:induction false} DeepenedLedger(g: Graph, lim: Limits, depth: nat)
    requires WellFormed(g) && 1 < depth <= 256 && lim.maxSolutions > 0
    ensures Ledger(g, lim, depth, Deepened(g, lim, depth))
  {
    hide WellFormed, Ledger, Explore;
    if depth == MIN_SOLUTION_SIZE + 1 {
      FreshLedger(g, lim, Deepened(g, lim, depth).cache);
    } else {
      DeepenedLedger(g, lim, depth - 1);
      var w := Deepened(g, lim, depth - 1);
      if |w.solutions| >= lim.maxSolutions {
        FullLedger(g, lim, depth - 1, w);
      } else {
        NextDepth(g, lim, depth - 1, w);
      }
    }
  }

  lemma FullLedger(g: Graph, lim: Limits, depth: nat, w: Memory)
    requires depth > 0 && Ledger(g, lim, depth, w) && |w.solutions| >= lim.maxSolutions > 0
    ensures Ledger(g, lim, depth + 1, w)
  {
    hide Covering, NoneShorter, CacheOk, ServedBelow, ShortListed, InOrder;
  }

  lemma {:induction false} FullStays(g: Graph, lim: Limits, depth: nat, later: nat)
    requires 1 < depth <= later && |Deepened(g, lim, depth).solutions| >= lim.maxSolutions
    ensures Deepened(g, lim, later) == Deepened(g, lim, depth)
    decreases later
  {
    if depth < later {
      FullStays(g, lim, depth, later - 1);
    }
  }

  /** No word contains the box letter k. */
  ghost predicate Missing(g: Graph, k: BoxIndex) {
    forall v: BoxIndex, e :: e in g[v].outgoing ==> !e.hash[k]
  }

  /** True iff some box letter occurs in no word at all. */
  method EarlyTerminateInstance(g: Graph) returns (hopeless: bool)
    ensures hopeless <==> exists k: BoxIndex :: Missing(g, k)
  {
    var covered := EMPTY_MASK;
    for i := 0 to |g|
      invariant forall k: BoxIndex ::
        covered[k] <==> exists v: BoxIndex, e :: v < i && e in g[v].outgoing && e.hash[k]
    {
      var outgoing := g[i].outgoing;
      for j := 0 to |outgoing|
        invariant forall k: BoxIndex ::
          covered[k] <==> (exists v: BoxIndex, e :: v < i && e in g[v].outgoing && e.hash[k])
                          || exists l :: 0 <= l < j && outgoing[l].hash[k]
      {
        covered := Join(covered, outgoing[j].hash);
      }
    }
    if covered != SOLUTION_MASK {
      ghost var k :| 0 <= k < MASK_BITS && covered[k] != SOLUTION_MASK[k];
      assert Missing(g, k);
    } else {
      forall k: BoxIndex ensures !Missing(g, k) {
        assert covered[k];
      }
    }
    return covered != SOLUTION_MASK;
  }

  /** What the deepening search promises of its list. */
  ghost predicate ListOk(g: Graph, lim: Limits, solutions: seq<seq<Edge>>) {
    && |solutions| <= lim.maxSolutions
    && (forall k :: 0 <= k < |solutions| ==>
          Covering(g, solutions[k]) && |solutions[k]| <= lim.maxSearchSize + 1)
    && (forall j, k :: 0 <= j < k < |solutions| ==> InOrder(g, solutions[j], solutions[k]))
    && (forall p :: Covering(g, p) && |p| <= lim.maxSearchSize + 1 ==>
          solutions != [] && |solutions[0]| <= |p|)
    && (|solutions| < lim.maxSolutions ==>
          && ServedBelow(g, solutions, lim.maxSearchSize + 2)
          && ShortListed(g, lim, solutions, lim.maxSearchSize + 2))
  }

  /**
    The deepening search. The list holds covering chains, shortest first and otherwise in the order of the
    search, and its first chain is a shortest one; it is empty only when no chain within the search limit
    covers the box. Unless it is full, it has every chain of the depths searched without the cache, and for
    every covering chain one that is no longer and ends with the same word.
   */
  method SolveRaw(router: Node, g: Graph, lim: Limits) returns (solutions: seq<seq<Edge>>)
    requires WellFormed(g) && router == RouterNode()
    requires lim.maxSolutions > 0 && lim.maxSearchSize < 255
    ensures ListOk(g, lim, solutions) && Distinct(solutions)
    ensures solutions == Deepened(g, lim, lim.maxSearchSize + 2).solutions
  {
    hide *;
    var hopeless := EarlyTerminateInstance(g);
    ghost var end := lim.maxSearchSize + 2;
    if end > 1 {
      DeepenedLedger(g, lim, end);
      LedgerEnds(g, lim, Deepened(g, lim, end));
    }
    if hopeless {
      NoCoverWithoutLetter(g);
      ListCovers(g, lim, Deepened(g, lim, end).solutions);
      return [];
    }
    var memory := Memory(seq(MAX_STATES * BOX_CHARS, _ => UNVISITED), []);
    var depth := MIN_SOLUTION_SIZE + 1;
    FreshMemory(g, lim);
    while depth <= lim.maxSearchSize + 1 && |memory.solutions| < lim.maxSolutions
      invariant 1 < depth <= lim.maxSearchSize + 2
      invariant memory == Deepened(g, lim, depth)
    {
      SearchIsBounded(g, lim, depth);
      RunIsExplore(g, lim, depth, memory);
      DeepenedStep(g, lim, depth);
      var complete;
      memory, complete := Run(SearchAt(g, lim, depth), depth, router, EMPTY_MASK, memory);
      depth := depth + 1;
    }
    if depth < end {
      FullStays(g, lim, depth, end);
    }
    return memory.solutions;
  }

  lemma FreshMemory(g: Graph, lim: Limits)
    ensures MIN_SOLUTION_SIZE + 1 == 2
    ensures Deepened(g, lim, 2) == Memory(seq(MAX_STATES * BOX_CHARS, _ => UNVISITED), [])
  {
  }

  lemma DeepenedStep(g: Graph, lim: Limits, depth: nat)
    requires depth > 1 && |Deepened(g, lim, depth).solutions| < lim.maxSolutions
    ensures Deepened(g, lim, depth + 1) ==
            Explore(g, lim, depth, Deepened(g, lim, depth), EMPTY_MASK, [], RouterNode().outgoing).world
  {
  }

  lemma ListCovers(g: Graph, lim: Limits, solutions: seq<seq<Edge>>)
    requires ListOk(g, lim, solutions)
    ensures solutions != [] ==> exists p :: Covering(g, p)
  {
    hide Covering;
    assert solutions != [] ==> Covering(g, solutions[0]);
  }

  lemma RunIsExplore(g: Graph, lim: Limits, depth: nat, w: Memory)
    requires depth > 1
    ensures
      var q := SearchAt(g, lim, depth);
      && Refuses(q, depth)
      && Visit(q, depth, w, EMPTY_MASK, [], q.edgesOf(RouterNode()))
         == Explore(g, lim, depth, w, EMPTY_MASK, [], RouterNode().outgoing)
  {
    SearchIsBounded(g, lim, depth);
  }

  lemma FreshLedger(g: Graph, lim: Limits, c: Cache)
    requires forall i :: 0 <= i < |c| ==> c[i] == UNVISITED
    ensures Ledger(g, lim, MIN_SOLUTION_SIZE + 1, Memory(c, []))
  {
  }

  lemma LedgerEnds(g: Graph, lim: Limits, w: Memory)
    requires WellFormed(g) && lim.maxSolutions > 0 && Ledger(g, lim, lim.maxSearchSize + 2, w)
    ensures ListOk(g, lim, w.solutions) && Distinct(w.solutions)
  {
    hide Covering, WellFormed, InOrder, ServedBelow, ShortListed, CacheOk;
    forall j, k | 0 <= j < k < |w.solutions| ensures w.solutions[j] != w.solutions[k] {
      OrderIsStrict(g, w.solutions[j]);
    }
  }

  /** No path is listed before itself. */
  lemma OrderIsStrict(g: Graph, p: seq<Edge>)
    requires WellFormed(g)
    ensures !InOrder(g, p, p)
  {
    forall i: nat, j: nat, k: nat | Diverge(g, p, p, i, j, k) ensures j == k {
      OptionsDistinct(g, p[..i]);
    }
  }

  lemma OptionsDistinct(g: Graph, path: seq<Edge>)
    requires WellFormed(g)
    ensures Distinct(Options(g, path))
  {
    if path == [] {
      var es := RouterNode().outgoing;
      forall i, j | 0 <= i < j < |es| ensures es[i] != es[j] {
        assert es[i].to == i && es[j].to == j;
      }
    }
  }

  lemma {:induction false} HashHasOnly(g: Graph, p: seq<Edge>, k: BoxIndex)
    requires Trail(g, p) && Missing(g, k)
    ensures !HashOf(p)[k]
  {
    if p != [] {
      var n := |p| - 1;
      assert Trail(g, p[..n]) by {
        forall i | 0 <= i < n ensures p[..n][i] in Options(g, p[..n][..i]) {
          assert p[..n][..i] == p[..i];
        }
      }
      HashHasOnly(g, p[..n], k);
      assert p[n] in Options(g, p[..n]);
    }
  }

  lemma NoCoverWithoutLetter(g: Graph)
    requires exists k: BoxIndex :: Missing(g, k)
    ensures forall p :: !Covering(g, p)
  {
    var k: BoxIndex :| Missing(g, k);
    forall p ensures !Covering(g, p) {
      if Trail(g, p) {
        HashHasOnly(g, p, k);
      }
    }
  }
}
