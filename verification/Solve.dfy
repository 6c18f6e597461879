/** The solver as a whole: from a box and a comma separated word list to its solutions. */
module Solve {
  import opened Sets
  import opened Settings
  import opened Puzzle
  import opened Split
  import opened Index
  import opened Solver
  import opened WordGraph
  import opened Boxed

  // ----- tracing

  /** For each word of the chain, the words that may stand there. */
  datatype Solution = Solution(chain: seq<seq<string>>)

  predicate IndicesBelow(e: Edge, n: nat) {
    forall k :: 0 <= k < |e.variants| ==> e.variants[k] < n
  }

  /** A path whose edges' variants are words of the list. */
  predicate Traceable(path: seq<Edge>, n: nat) {
    path != [] && forall k :: 0 <= k < |path| ==> IndicesBelow(path[k], n)
  }

  function Variants(words: seq<string>, e: Edge): (r: seq<string>)
    requires IndicesBelow(e, |words|)
  {
    seq(|e.variants|, k requires 0 <= k < |e.variants| => words[e.variants[k]])
  }

  /** The words of a path's edges, without the router's. */
  function Traced(words: seq<string>, path: seq<Edge>): (s: Solution)
    requires Traceable(path, |words|)
  {
    Solution(seq(|path| - 1, k requires 0 <= k < |path| - 1 => Variants(words, path[k + 1])))
  }

  method TraceSolutions(words: seq<string>, rawSolutions: seq<seq<Edge>>) returns (solutions: seq<Solution>)
    requires forall k :: 0 <= k < |rawSolutions| ==> Traceable(rawSolutions[k], |words|)
    ensures |solutions| == |rawSolutions|
    ensures forall k :: 0 <= k < |solutions| ==> solutions[k] == Traced(words, rawSolutions[k])
  {
    solutions := [];
    for r := 0 to |rawSolutions|
      invariant |solutions| == r
      invariant forall k :: 0 <= k < r ==> solutions[k] == Traced(words, rawSolutions[k])
    {
      var rawSolution := rawSolutions[r];
      var solutionChain := [];
      for j := 1 to |rawSolution|
        invariant |solutionChain| == j - 1
        invariant forall k :: 0 <= k < j - 1 ==> solutionChain[k] == Traced(words, rawSolution).chain[k]
      {
        var variantIdxs := rawSolution[j].variants;
        assert IndicesBelow(rawSolution[j], |words|);
        var wordVariants := [];
        for i := 0 to |variantIdxs|
          invariant wordVariants == Variants(words, rawSolution[j])[..i]
        {
          wordVariants := wordVariants + [words[variantIdxs[i]]];
        }
        solutionChain := solutionChain + [wordVariants];
      }
      assert solutionChain == Traced(words, rawSolution).chain;
      solutions := solutions + [Solution(solutionChain)];
    }
  }

  // ----- what a traced path says

  /** ws takes one of the variants at each place of the chain. */
  predicate Picks(s: Solution, ws: seq<string>) {
    |ws| == |s.chain| && forall k :: 0 <= k < |ws| ==> ws[k] in s.chain[k]
  }

  /** The edge taken at step k + 1 is filed at the node reached by step k. */
  lemma EdgeOfStep(g: Graph, ci: CompressionIndex, words: seq<string>, p: seq<Edge>, k: nat)
    returns (j: nat)
    requires GraphOf(g, ci, words) && Trail(g, p) && 0 < k < |p|
    ensures j < |g[p[k - 1].to].outgoing| && g[p[k - 1].to].outgoing[j] == p[k]
    ensures p[k].variants != []
    ensures forall m :: 0 <= m < |p[k].variants| ==>
      && p[k].variants[m] < |words| && Usable(ci, words[p[k].variants[m]])
      && KeyOf(ci, words[p[k].variants[m]]) == WordKey(p[k - 1].to, p[k].to, p[k].hash)
  {
    hide GraphOf, Usable, KeyOf;
    assert p[k] in Options(g, p[..k]);
    var v := p[k - 1].to;
    j :| 0 <= j < |g[v].outgoing| && g[v].outgoing[j] == p[k];
    VariantsFiled(g, ci, words, v, j);
  }

  lemma VariantsFiled(g: Graph, ci: CompressionIndex, words: seq<string>, v: BoxIndex, j: nat)
    requires GraphOf(g, ci, words) && j < |g[v].outgoing|
    ensures g[v].outgoing[j].variants != []
    ensures
      var e := g[v].outgoing[j];
      forall m :: 0 <= m < |e.variants| ==>
        && e.variants[m] < |words| && Usable(ci, words[e.variants[m]])
        && KeyOf(ci, words[e.variants[m]]) == WordKey(v, e.to, e.hash)
  {
    hide GraphOf, Usable, KeyOf;
    var e := g[v].outgoing[j];
    EdgesFiled(g, ci, words, v, j);
    forall m | 0 <= m < |e.variants|
      ensures e.variants[m] < |words| && Usable(ci, words[e.variants[m]])
      ensures KeyOf(ci, words[e.variants[m]]) == WordKey(v, e.to, e.hash)
    {
      FiledByKey(g, ci, words, v, j, e.variants[m]);
    }
  }

  lemma EdgesFiled(g: Graph, ci: CompressionIndex, words: seq<string>, v: BoxIndex, j: nat)
    requires GraphOf(g, ci, words) && j < |g[v].outgoing|
    ensures g[v].outgoing[j].variants != []
  {
    assert NodeOk(g[v].outgoing, v, Keys(ci, words), |words|);
    assert EdgeOk(g[v].outgoing[j], v, Keys(ci, words), |words|);
  }

  lemma TrailIsTraceable(g: Graph, ci: CompressionIndex, words: seq<string>, p: seq<Edge>)
    requires GraphOf(g, ci, words) && Trail(g, p) && p != []
    ensures Traceable(p, |words|)
  {
    hide GraphOf, Trail;
    RouterStart(g, p);
    forall k | 0 <= k < |p| ensures IndicesBelow(p[k], |words|) {
      if k > 0 {
        var j := EdgeOfStep(g, ci, words, p, k);
      }
    }
  }

  /** Whatever variants are picked, they realize the path. */
  lemma PicksRealize(g: Graph, ci: CompressionIndex, words: seq<string>, p: seq<Edge>, ws: seq<string>)
    requires GraphOf(g, ci, words) && Trail(g, p) && Traceable(p, |words|) && Picks(Traced(words, p), ws)
    ensures Realizes(ci, p, ws) && forall k :: 0 <= k < |ws| ==> ws[k] in words
  {
    hide GraphOf, Trail;
    forall k | 0 <= k < |ws| ensures Step(ci, p, ws, k) && ws[k] in words {
      assert IndicesBelow(p[k + 1], |words|);
      assert ws[k] in Variants(words, p[k + 1]);
      var j := EdgeOfStep(g, ci, words, p, k + 1);
      var m :| 0 <= m < |p[k + 1].variants| && ws[k] == words[p[k + 1].variants[m]];
    }
  }

  /** Every place of a traced path has a word. */
  lemma PlacesFilled(g: Graph, ci: CompressionIndex, words: seq<string>, p: seq<Edge>)
    requires GraphOf(g, ci, words) && Trail(g, p) && Traceable(p, |words|)
    ensures forall k :: 0 <= k < |Traced(words, p).chain| ==> Traced(words, p).chain[k] != []
  {
    hide GraphOf, Trail;
    forall k | 0 <= k < |p| - 1 ensures Traced(words, p).chain[k] != [] {
      var j := EdgeOfStep(g, ci, words, p, k + 1);
    }
  }

  /** Different paths are traced to different solutions. */
  lemma {:induction false} TracedInjective(
    g: Graph, ci: CompressionIndex, words: seq<string>, p: seq<Edge>, q: seq<Edge>)
    requires GraphOf(g, ci, words) && Trail(g, p) && Trail(g, q) && |p| > 1
    requires Traceable(p, |words|) && Traceable(q, |words|) && Traced(words, p) == Traced(words, q)
    ensures p == q
  {
    hide GraphOf, Trail, Usable, KeyOf;
    var chain := Traced(words, p).chain;
    PlacesFilled(g, ci, words, p);
    assert |chain| == |p| - 1 == |q| - 1;
    var ws := seq(|chain|, k requires 0 <= k < |chain| => chain[k][0]);
    PicksRealize(g, ci, words, p, ws);
    PicksRealize(g, ci, words, q, ws);
    RouterStart(g, p);
    RouterStart(g, q);
    forall k | 0 <= k < |p| ensures p[k] == q[k] {
      SameStep(g, ci, words, p, q, ws, k);
    }
  }

  lemma SameStep(
    g: Graph, ci: CompressionIndex, words: seq<string>, p: seq<Edge>, q: seq<Edge>, ws: seq<string>, k: nat)
    requires GraphOf(g, ci, words) && Trail(g, p) && Trail(g, q) && k < |p| == |q| && |p| > 1
    requires p[0] == RouterEdge(p[0].to) && q[0] == RouterEdge(q[0].to)
    requires Realizes(ci, p, ws) && Realizes(ci, q, ws)
    ensures p[k] == q[k]
  {
    hide Trail;
    if k == 0 {
      assert Step(ci, p, ws, 0) && Step(ci, q, ws, 0);
    } else {
      assert Step(ci, p, ws, k - 1) && Step(ci, q, ws, k - 1);
      var i := EdgeOfStep(g, ci, words, p, k);
      var j := EdgeOfStep(g, ci, words, q, k);
      var v := p[k - 1].to;
      assert NodeOk(g[v].outgoing, v, Keys(ci, words), |words|);
      OneEdgePerKey(g[v].outgoing, v, Keys(ci, words), |words|, i, j);
    }
  }

  // ----- the variants of a place

  /** Words have the same key exactly when they are interchangeable. */
  lemma SameKeyIsInterchangeable(ci: CompressionIndex, box: string, v: string, w: string)
    requires IsBox(box) && Compresses(ci, box) && Usable(ci, v) && Usable(ci, w)
    ensures KeyOf(ci, v) == KeyOf(ci, w) <==> Interchangeable(v, w)
  {
    FirstAndLast(ci, v);
    FirstAndLast(ci, w);
    SameNode(ci, box, v[0], w[0]);
    SameNode(ci, box, v[|v| - 1], w[|w| - 1]);
    SameHash(ci, box, v, w);
  }

  lemma SameNode(ci: CompressionIndex, box: string, c: char, d: char)
    requires IsBox(box) && Compresses(ci, box) && Known(ci, c) && Known(ci, d)
    ensures NodeAt(ci, c) == NodeAt(ci, d) <==> c == d
  {
    PlaceIsIndex(ci, box, c);
    PlaceIsIndex(ci, box, d);
  }

  lemma SameHash(ci: CompressionIndex, box: string, v: string, w: string)
    requires IsBox(box) && Compresses(ci, box) && Usable(ci, v) && Usable(ci, w)
    ensures Hash(ci, v) == Hash(ci, w) <==> SameLetters(v, w)
  {
    hide Hash, Compresses, SameLetters;
    if Hash(ci, v) == Hash(ci, w) {
      LettersInHash(ci, box, v, w);
      LettersInHash(ci, box, w, v);
      SameLettersMeans(v, w);
    }
    if SameLetters(v, w) {
      forall b | 0 <= b < MASK_BITS ensures Hash(ci, v)[b] == Hash(ci, w)[b] {
        if b < BOX_CHARS {
          LetterBit(ci, box, v, b);
          LetterBit(ci, box, w, b);
          SameMember(v, w, box[b]);
        }
      }
      assert Hash(ci, v) == Hash(ci, w);
    }
  }

  lemma SameLettersMeans(v: string, w: string)
    requires (forall k :: 0 <= k < |v| ==> v[k] in w) && (forall k :: 0 <= k < |w| ==> w[k] in v)
    ensures SameLetters(v, w)
  {
  }

  lemma SameMember(v: string, w: string, c: char)
    requires SameLetters(v, w)
    ensures c in v <==> c in w
  {
    if c in v {
      var k :| 0 <= k < |v| && v[k] == c;
    }
    if c in w {
      var k :| 0 <= k < |w| && w[k] == c;
    }
  }

  lemma LettersInHash(ci: CompressionIndex, box: string, v: string, w: string)
    requires IsBox(box) && Compresses(ci, box) && Usable(ci, v) && Usable(ci, w) && Hash(ci, v) == Hash(ci, w)
    ensures forall k :: 0 <= k < |v| ==> v[k] in w
  {
    forall k | 0 <= k < |v| ensures v[k] in w {
      assert Known(ci, v[k]);
      PlaceIsIndex(ci, box, v[k]);
      var b := Place(box, v[k]);
      LetterBit(ci, box, v, b);
      LetterBit(ci, box, w, b);
    }
  }

  /** Ascending indices below n of exactly the words with the key. */
  ghost predicate Indices(ids: seq<nat>, keys: seq<WordKey>, n: nat, key: WordKey)
    requires n <= |keys|
  {
    && (forall j, k :: 0 <= j < k < |ids| ==> ids[j] < ids[k])
    && (forall i :: i in ids ==> i < n)
    && forall i :: 0 <= i < n ==> (i in ids <==> keys[i] == key)
  }

  lemma FirstIndex(ids: seq<nat>, keys: seq<WordKey>, n: nat, key: WordKey)
    requires n <= |keys| && Indices(ids, keys, n, key)
    ensures ids != [] ==> ids[0] < n
  {
    assert ids != [] ==> ids[0] in ids;
  }

  lemma LastIndex(ids: seq<nat>, keys: seq<WordKey>, n: nat, key: WordKey)
    requires 0 < n <= |keys| && Indices(ids, keys, n, key)
    ensures
      if keys[n - 1] == key then ids != [] && ids[|ids| - 1] == n - 1 && Indices(ids[..|ids| - 1], keys, n - 1, key)
      else Indices(ids, keys, n - 1, key)
  {
    if keys[n - 1] == key {
      var j :| 0 <= j < |ids| && ids[j] == n - 1;
      assert ids[|ids| - 1] in ids;
      var front := ids[..|ids| - 1];
      assert ids == front + [n - 1];
      forall i | 0 <= i < n - 1 ensures i in front <==> keys[i] == key {
        assert i in ids <==> i in front;
      }
      forall i | i in front ensures i < n - 1 {
        var k :| 0 <= k < |front| && front[k] == i;
        assert ids[k] < ids[|ids| - 1];
      }
    } else {
      assert forall i :: i in ids ==> i != n - 1;
    }
  }

  /** The words at these indices are the interchangeable ones, in order. */
  lemma {:induction false} IndicesAreSubstitutes(
    ci: CompressionIndex, box: string, words: seq<string>, ids: seq<nat>, n: nat, w: string)
    requires IsBox(box) && Compresses(ci, box) && AllUsable(ci, words) && n <= |words| && Usable(ci, w)
    requires Indices(ids, Keys(ci, words), n, KeyOf(ci, w))
    ensures seq(|ids|, k requires 0 <= k < |ids| => if ids[k] < |words| then words[ids[k]] else "")
         == Substitutes(box, words[..n], w)
  {
    hide Hash, KeyOf, Usable, Compresses, IsBox, Playable, Interchangeable;
    var keys := Keys(ci, words);
    FirstIndex(ids, keys, n, KeyOf(ci, w));
    if n > 0 {
      LastIndex(ids, keys, n, KeyOf(ci, w));
      hide Indices;
      assert words[..n][..n - 1] == words[..n - 1];
      var v := words[n - 1];
      assert Usable(ci, v);
      UsableWords(ci, box, v);
      SameKeyIsInterchangeable(ci, box, v, w);
      if keys[n - 1] == KeyOf(ci, w) {
        IndicesAreSubstitutes(ci, box, words, ids[..|ids| - 1], n - 1, w);
      } else {
        IndicesAreSubstitutes(ci, box, words, ids, n - 1, w);
      }
    }
  }

  lemma UsableWords(ci: CompressionIndex, box: string, v: string)
    requires IsBox(box) && Compresses(ci, box) && Usable(ci, v)
    ensures Playable(box, v)
  {
    UsableIsPlayable(ci, box, v);
  }

  /** The variants of an edge on a trail are the interchangeable words of any of them. */
  lemma VariantsAreSubstitutes(
    g: Graph, ci: CompressionIndex, box: string, words: seq<string>, p: seq<Edge>, k: nat, w: string)
    requires IsBox(box) && Compresses(ci, box) && GraphOf(g, ci, words) && Trail(g, p) && 0 < k < |p|
    requires IndicesBelow(p[k], |words|) && w in Variants(words, p[k])
    ensures Variants(words, p[k]) == Substitutes(box, words, w)
  {
    hide Trail, Usable, KeyOf, Compresses, IsBox, Substitutes;
    var j := EdgeOfStep(g, ci, words, p, k);
    var e, v, ids := p[k], p[k - 1].to, p[k].variants;
    var m :| 0 <= m < |ids| && w == words[ids[m]];
    assert Usable(ci, w) && KeyOf(ci, w) == WordKey(v, e.to, e.hash);
    EdgeIndices(g, ci, words, v, j);
    IndicesAreSubstitutes(ci, box, words, ids, |words|, w);
    assert words[..|words|] == words;
    assert Variants(words, e)
        == seq(|ids|, k requires 0 <= k < |ids| => if ids[k] < |words| then words[ids[k]] else "");
  }

  lemma EdgeIndices(g: Graph, ci: CompressionIndex, words: seq<string>, v: BoxIndex, j: nat)
    requires GraphOf(g, ci, words) && j < |g[v].outgoing|
    ensures
      var e := g[v].outgoing[j];
      Indices(e.variants, Keys(ci, words), |words|, WordKey(v, e.to, e.hash))
  {
    assert NodeOk(g[v].outgoing, v, Keys(ci, words), |words|);
    assert EdgeOk(g[v].outgoing[j], v, Keys(ci, words), |words|);
  }

  // ----- what the solutions promise

  /** Whatever variants are picked from whichever solution, the words solve the box. */
  ghost predicate Sound(box: string, words: seq<string>, solutions: seq<Solution>)
    requires IsBox(box)
  {
    forall k, ws :: 0 <= k < |solutions| && Picks(solutions[k], ws) ==> Solves(box, words, ws)
  }

  /** If any words of the list solve the box within the search limit, there is a solution as short. */
  ghost predicate Complete(box: string, words: seq<string>, solutions: seq<Solution>)
    requires IsBox(box)
  {
    forall ws :: Solves(box, words, ws) && |ws| <= LIMITS.maxSearchSize ==>
      solutions != [] && |solutions[0].chain| <= |ws|
  }

  /** A place that lists a word lists exactly the words that can take its place, in list order. */
  ghost predicate Grouped(box: string, words: seq<string>, solutions: seq<Solution>)
    requires IsBox(box)
  {
    forall k, j, w :: 0 <= k < |solutions| && 0 <= j < |solutions[k].chain| && w in solutions[k].chain[j] ==>
      solutions[k].chain[j] == Substitutes(box, words, w)
  }

  /** One to three places, each with a word. */
  predicate WellShaped(s: Solution) {
    0 < |s.chain| <= LIMITS.maxSearchSize && forall k :: 0 <= k < |s.chain| ==> s.chain[k] != []
  }

  ghost predicate Shaped(solutions: seq<Solution>) {
    && |solutions| <= LIMITS.maxSolutions && Distinct(solutions)
    && (forall k :: 0 <= k < |solutions| ==> WellShaped(solutions[k]))
    && forall j, k :: 0 <= j < k < |solutions| ==> |solutions[j].chain| <= |solutions[k].chain|
  }

  /** s is no longer than ws and may end with its last word. */
  predicate EndsLike(s: Solution, ws: seq<string>) {
    ws != [] && 0 < |s.chain| <= |ws| && ws[|ws| - 1] in s.chain[|s.chain| - 1]
  }

  /**
    Unless the list is full: for any words of the list that solve the box within the search limit there is
    a solution that is no longer and may end with the same word. In particular every single word that
    covers the box is listed.
   */
  ghost predicate LastWords(box: string, words: seq<string>, solutions: seq<Solution>)
    requires IsBox(box)
  {
    |solutions| < LIMITS.maxSolutions ==>
      forall ws :: Solves(box, words, ws) && |ws| <= LIMITS.maxSearchSize ==> SomeEndsLike(solutions, ws)
  }

  predicate SomeEndsLike(solutions: seq<Solution>, ws: seq<string>) {
    exists k :: 0 <= k < |solutions| && EndsLike(solutions[k], ws)
  }

  /** What the search promises of its raw solutions. */
  ghost predicate RawOk(g: Graph, raw: seq<seq<Edge>>) {
    ListOk(g, LIMITS, raw) && Distinct(raw)
  }

  lemma RawTraceable(g: Graph, ci: CompressionIndex, words: seq<string>, raw: seq<seq<Edge>>)
    requires GraphOf(g, ci, words) && RawOk(g, raw)
    ensures forall k :: 0 <= k < |raw| ==> Traceable(raw[k], |words|)
  {
    hide GraphOf;
    forall k | 0 <= k < |raw| ensures Traceable(raw[k], |words|) {
      TrailIsTraceable(g, ci, words, raw[k]);
    }
  }

  /** The solutions are the traced raw solutions. */
  predicate TracedAll(words: seq<string>, raw: seq<seq<Edge>>, solutions: seq<Solution>) {
    |solutions| == |raw| &&
    forall k :: 0 <= k < |raw| ==> Traceable(raw[k], |words|) && solutions[k] == Traced(words, raw[k])
  }

  /** The solutions are those of the deepening search in the graph of the words, traced one by one. */
  ghost predicate FromSearch(ci: CompressionIndex, words: seq<string>, solutions: seq<Solution>) {
    exists g: Graph :: SearchedIn(g, ci, words, solutions)
  }

  ghost predicate SearchedIn(g: Graph, ci: CompressionIndex, words: seq<string>, solutions: seq<Solution>) {
    GraphOf(g, ci, words) &&
    TracedAll(words, Deepened(g, LIMITS, LIMITS.maxSearchSize + 2).solutions, solutions)
  }

  lemma TracedShape(
    g: Graph, ci: CompressionIndex, words: seq<string>, raw: seq<seq<Edge>>, solutions: seq<Solution>)
    requires GraphOf(g, ci, words) && RawOk(g, raw) && TracedAll(words, raw, solutions)
    ensures Shaped(solutions)
  {
    hide GraphOf, Trail;
    forall k | 0 <= k < |solutions| ensures WellShaped(solutions[k]) {
      assert Covering(g, raw[k]);
      PlacesFilled(g, ci, words, raw[k]);
    }
    forall j, k | 0 <= j < k < |solutions| ensures solutions[j] != solutions[k] {
      assert Covering(g, raw[j]) && Covering(g, raw[k]);
      if solutions[j] == solutions[k] {
        TracedInjective(g, ci, words, raw[j], raw[k]);
      }
    }
  }

  lemma TracedSound(
    g: Graph, ci: CompressionIndex, box: string, words: seq<string>, raw: seq<seq<Edge>>, solutions: seq<Solution>)
    requires GraphOf(g, ci, words) && RawOk(g, raw) && TracedAll(words, raw, solutions)
    requires IsBox(box) && Compresses(ci, box)
    ensures Sound(box, words, solutions)
  {
    hide GraphOf, Trail;
    forall k, ws | 0 <= k < |solutions| && Picks(solutions[k], ws) ensures Solves(box, words, ws) {
      assert Covering(g, raw[k]);
      PicksRealize(g, ci, words, raw[k], ws);
      RealizedSolves(g, ci, box, words, raw[k], ws);
    }
  }

  lemma TracedComplete(
    g: Graph, ci: CompressionIndex, box: string, words: seq<string>, raw: seq<seq<Edge>>, solutions: seq<Solution>)
    requires GraphOf(g, ci, words) && RawOk(g, raw) && TracedAll(words, raw, solutions)
    requires IsBox(box) && Compresses(ci, box)
    ensures Complete(box, words, solutions)
  {
    hide GraphOf, Trail, Solves;
    forall ws | Solves(box, words, ws) && |ws| <= LIMITS.maxSearchSize
      ensures solutions != [] && |solutions[0].chain| <= |ws|
    {
      var p := SolutionHasWalk(g, ci, box, words, ws);
      assert |raw[0]| <= |p|;
    }
  }

  /** A word is among the variants of the edge of its key. */
  lemma WordInVariants(g: Graph, ci: CompressionIndex, words: seq<string>, v: BoxIndex, e: Edge, w: string)
    requires GraphOf(g, ci, words) && e in g[v].outgoing && w in words && Usable(ci, w)
    requires KeyOf(ci, w) == WordKey(v, e.to, e.hash)
    ensures IndicesBelow(e, |words|) && w in Variants(words, e)
  {
    var j :| 0 <= j < |g[v].outgoing| && g[v].outgoing[j] == e;
    VariantsFiled(g, ci, words, v, j);
    EdgeIndices(g, ci, words, v, j);
    hide GraphOf, KeyOf, Usable;
    var i :| 0 <= i < |words| && words[i] == w;
    assert Keys(ci, words)[i] == KeyOf(ci, w);
    var m :| 0 <= m < |e.variants| && e.variants[m] == i;
    assert Variants(words, e)[m] == w;
  }

  lemma TracedLastWords(
    g: Graph, ci: CompressionIndex, box: string, words: seq<string>, raw: seq<seq<Edge>>, solutions: seq<Solution>)
    requires GraphOf(g, ci, words) && RawOk(g, raw) && TracedAll(words, raw, solutions)
    requires IsBox(box) && Compresses(ci, box)
    ensures LastWords(box, words, solutions)
  {
    hide GraphOf, Compresses, IsBox, Solves, TracedAll, RawOk, Covering, Realizes, IndicesBelow, Variants, SomeEndsLike;
    forall ws | |solutions| < LIMITS.maxSolutions && Solves(box, words, ws) && |ws| <= LIMITS.maxSearchSize
      ensures SomeEndsLike(solutions, ws)
    {
      var p := SolutionHasWalk(g, ci, box, words, ws);
      LastInVariants(g, ci, box, words, p, ws);
      ListedLast(g, words, raw, solutions, p, ws);
    }
  }

  lemma LastInVariants(
    g: Graph, ci: CompressionIndex, box: string, words: seq<string>, p: seq<Edge>, ws: seq<string>)
    requires IsBox(box) && GraphOf(g, ci, words) && Covering(g, p) && Realizes(ci, p, ws) && Solves(box, words, ws)
    ensures ws != [] && IndicesBelow(p[|p| - 1], |words|)
    ensures ws[|ws| - 1] in Variants(words, p[|p| - 1])
  {
    hide GraphOf, HashOf, Playable, Usable, KeyOf;
    var n := |ws| - 1;
    assert Step(ci, p, ws, n);
    TrailAt(g, p, |p| - 1);
    WordInVariants(g, ci, words, p[|p| - 2].to, p[|p| - 1], ws[n]);
  }

  lemma ListedLast(
    g: Graph, words: seq<string>, raw: seq<seq<Edge>>, solutions: seq<Solution>, p: seq<Edge>, ws: seq<string>)
    requires RawOk(g, raw) && TracedAll(words, raw, solutions) && |solutions| < LIMITS.maxSolutions
    requires Covering(g, p) && |p| == |ws| + 1 <= LIMITS.maxSearchSize + 1
    requires ws != [] && IndicesBelow(p[|p| - 1], |words|) && ws[|ws| - 1] in Variants(words, p[|p| - 1])
    ensures SomeEndsLike(solutions, ws)
  {
    hide RawOk, Covering, IndicesBelow, Variants;
    var k := ListedChain(g, raw, p);
    assert EndsLike(solutions[k], ws);
  }

  lemma ListedChain(g: Graph, raw: seq<seq<Edge>>, p: seq<Edge>) returns (k: nat)
    requires RawOk(g, raw) && |raw| < LIMITS.maxSolutions && Covering(g, p) && |p| <= LIMITS.maxSearchSize + 1
    ensures k < |raw| && 1 < |raw[k]| <= |p| && p != [] && raw[k][|raw[k]| - 1] == p[|p| - 1]
  {
    hide Trail, HashOf, ShortListed, InOrder;
    assert Listed(raw, p[|p| - 1], |p|);
    k :| 0 <= k < |raw| && EndsBy(raw[k], p[|p| - 1], |p|);
    assert Covering(g, raw[k]);
  }

  lemma TracedGrouped(
    g: Graph, ci: CompressionIndex, box: string, words: seq<string>, raw: seq<seq<Edge>>, solutions: seq<Solution>)
    requires GraphOf(g, ci, words) && RawOk(g, raw) && TracedAll(words, raw, solutions)
    requires IsBox(box) && Compresses(ci, box)
    ensures Grouped(box, words, solutions)
  {
    hide GraphOf, Trail, Compresses, IsBox, Substitutes;
    forall k, j, w | 0 <= k < |solutions| && 0 <= j < |solutions[k].chain| && w in solutions[k].chain[j]
      ensures solutions[k].chain[j] == Substitutes(box, words, w)
    {
      assert Covering(g, raw[k]) && IndicesBelow(raw[k][j + 1], |words|);
      VariantsAreSubstitutes(g, ci, box, words, raw[k], j + 1, w);
    }
  }

  // ----- solving

  /**
    Distinct solutions, shortest first and few; every choice of variants solves the box, and there is
    a solution as short as any within the search limit.
   */
  method Solve(ci: CompressionIndex, words: seq<string>, wordHashes: seq<Mask>) returns (solutions: seq<Solution>)
    requires AllUsable(ci, words) && |wordHashes| == |words|
    requires forall k :: 0 <= k < |words| ==> wordHashes[k] == Hash(ci, words[k])
    ensures Shaped(solutions) && FromSearch(ci, words, solutions)
    ensures forall box :: IsBox(box) && Compresses(ci, box) ==>
      Sound(box, words, solutions) && Complete(box, words, solutions) &&
      Grouped(box, words, solutions) && LastWords(box, words, solutions)
  {
    hide Trail, Covering, GraphOk, Compresses, Traceable, Traced, AllUsable, Hash, Shaped, Sound, Complete,
      Grouped, LastWords, Deepened;
    var nodes := InitNodes();
    BuildGraph(ci, words, wordHashes, nodes);
    ghost var g: Graph := GraphNodes(nodes[..], ci, words);
    GraphIsWellFormed(g, ci, words);
    var routerNode := RouterNode();
    var rawSolutions := SolveRaw(routerNode, nodes[..], LIMITS);
    RawTraceable(g, ci, words, rawSolutions);
    solutions := TraceSolutions(words, rawSolutions);
    TracedShape(g, ci, words, rawSolutions, solutions);
    assert SearchedIn(g, ci, words, solutions);
    forall box | IsBox(box) && Compresses(ci, box)
      ensures Sound(box, words, solutions) && Complete(box, words, solutions) &&
      Grouped(box, words, solutions) && LastWords(box, words, solutions)
    {
      TracedSound(g, ci, box, words, rawSolutions, solutions);
      TracedComplete(g, ci, box, words, rawSolutions, solutions);
      TracedGrouped(g, ci, box, words, rawSolutions, solutions);
      TracedLastWords(g, ci, box, words, rawSolutions, solutions);
    }
  }

  ghost function GraphNodes(nodes: seq<Node>, ci: CompressionIndex, words: seq<string>): (g: Graph)
    requires AllUsable(ci, words) && GraphOk(nodes, Keys(ci, words), |words|)
    ensures g == nodes && GraphOf(g, ci, words)
  {
    nodes
  }

  // ----- the whole way from the text

  /** The words of the text that the puzzle's solver may use. */
  function WordList(csv: string): (words: seq<string>)
    ensures words != [] && Free(words, ',') && JoinWith(words, ',') == csv
  {
    JoinSlices(csv, ',');
    Slices(csv, 0, EndsOf(csv, ','))
  }

  /** One-letter words are not checked by the filter, so they must be letters of the box. */
  predicate Playlist(box: string, words: seq<string>) {
    AllLowercase(words) && forall k :: 0 <= k < |words| && |words[k]| == 1 ==> words[k][0] in box
  }

  /** The kept words are the playable ones. */
  lemma KeptArePlayable(ci: CompressionIndex, box: string, words: seq<string>)
    requires IsBox(box) && Compresses(ci, box) && Playlist(box, words)
    ensures AllUsable(ci, Kept(ci, words))
    ensures forall w :: w in Kept(ci, words) <==> w in words && Playable(box, w)
  {
    KeptExact(ci, words);
    forall w | w in words && w != "" ensures Playable(box, w) <==> Passes(ci, w)
      ensures Playable(box, w) <==> Usable(ci, w)
    {
      var k :| 0 <= k < |words| && words[k] == w;
      KeptIsPlayable(ci, box, w);
      UsableIsPlayable(ci, box, w);
    }
    forall k | 0 <= k < |Kept(ci, words)| ensures Usable(ci, Kept(ci, words)[k]) {
      assert Kept(ci, words)[k] in words;
    }
  }

  /** Dropping the words that are not kept drops no substitute. */
  lemma {:induction false} KeptSubstitutes(ci: CompressionIndex, box: string, words: seq<string>, w: string)
    requires IsBox(box) && Compresses(ci, box) && Playlist(box, words)
    ensures Substitutes(box, Kept(ci, words), w) == Substitutes(box, words, w)
  {
    hide Compresses, IsBox, Playable, Interchangeable, Passes, Substitutes;
    if words == [] {
      assert Kept(ci, words) == words;
    } else {
      var n := |words| - 1;
      var v, before := words[n], Kept(ci, words[..n]);
      KeptSubstitutes(ci, box, words[..n], w);
      KeptWord(ci, box, v);
      assert words == words[..n] + [v];
      SubstituteStep(box, words[..n], v, w);
      SubstituteStep(box, before, v, w);
      assert Kept(ci, words) == if v != "" && Passes(ci, v) then before + [v] else before;
    }
  }

  lemma SubstituteStep(box: string, words: seq<string>, v: string, w: string)
    requires IsBox(box)
    ensures Substitutes(box, words + [v], w) ==
            if Playable(box, v) && Interchangeable(v, w) then Substitutes(box, words, w) + [v]
            else Substitutes(box, words, w)
  {
    assert (words + [v])[..|words|] == words;
  }

  lemma KeptGrouped(ci: CompressionIndex, box: string, words: seq<string>, solutions: seq<Solution>)
    requires IsBox(box) && Compresses(ci, box) && Playlist(box, words)
    requires Grouped(box, Kept(ci, words), solutions)
    ensures Grouped(box, words, solutions)
  {
    hide Compresses, IsBox, Substitutes, Kept, Playlist;
    forall k, j, w | 0 <= k < |solutions| && 0 <= j < |solutions[k].chain| && w in solutions[k].chain[j]
      ensures solutions[k].chain[j] == Substitutes(box, words, w)
    {
      KeptSubstitutes(ci, box, words, w);
    }
  }

  lemma KeptWord(ci: CompressionIndex, box: string, v: string)
    requires IsBox(box) && Compresses(ci, box) && Lowercase(v) && (|v| == 1 ==> v[0] in box)
    ensures Playable(box, v) <==> v != "" && Passes(ci, v)
  {
    if v != "" {
      KeptIsPlayable(ci, box, v);
    }
  }

  lemma SameSolutions(box: string, kept: seq<string>, words: seq<string>, ws: seq<string>)
    requires IsBox(box) && forall w :: w in kept <==> w in words && Playable(box, w)
    ensures Solves(box, kept, ws) <==> Solves(box, words, ws)
  {
    forall k | 0 <= k < |ws| ensures ws[k] in kept && Playable(box, ws[k]) <==> ws[k] in words && Playable(box, ws[k]) {
    }
    assert AllPlayable(box, kept, ws) <==> AllPlayable(box, words, ws);
  }

  /** Solves a box with the words of a comma separated list, on either build, whatever junk invalid flags are. */
  method SolveBox(characters: string, csv: string, build: Build, junk: nat -> Bits32)
    returns (solutions: seq<Solution>)
    requires IsBox(characters) && Playlist(characters, WordList(csv))
    ensures Shaped(solutions)
    ensures exists ci :: Compresses(ci, characters) && FromSearch(ci, Kept(ci, WordList(csv)), solutions)
    ensures Sound(characters, WordList(csv), solutions) && Complete(characters, WordList(csv), solutions)
    ensures Grouped(characters, WordList(csv), solutions) && LastWords(characters, WordList(csv), solutions)
  {
    hide Compresses, Kept, AllUsable, Hash, Shaped, Solves, Substitutes, Grouped, FromSearch;
    var wordEnds := WordEnds(csv, ',', build);
    JoinSlices(csv, ',');
    var compressionIndex := GenCompressionIndex(characters);
    var words, wordHashes := FilterAndHash(compressionIndex, csv, wordEnds, junk);
    KeptArePlayable(compressionIndex, characters, WordList(csv));
    HashesAreMasks(compressionIndex, words, wordHashes);
    solutions := Solve(compressionIndex, words, wordHashes);
    forall ws ensures Solves(characters, words, ws) <==> Solves(characters, WordList(csv), ws) {
      SameSolutions(characters, words, WordList(csv), ws);
    }
    KeptGrouped(compressionIndex, characters, WordList(csv), solutions);
  }

  lemma HashesAreMasks(ci: CompressionIndex, words: seq<string>, hashes: seq<Bits32>)
    requires AllUsable(ci, words) && Hashed(ci, words, hashes)
    ensures |hashes| == |words| && forall k :: 0 <= k < |words| ==> hashes[k] == Hash(ci, words[k]) && IsMask(hashes[k])
  {
    forall k | 0 <= k < |words| ensures AllKnown(ci, words[k]) {
      assert Usable(ci, words[k]);
    }
  }
}
