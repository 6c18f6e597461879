/** Solving a box: chains of words and covering walks of the word graph correspond to each other. */
module Boxed {
  import opened Sets
  import opened Settings
  import opened Puzzle
  import opened Index
  import opened Solver
  import opened WordGraph

  // ----- the graph the words make

  /** g is the graph of the words. */
  ghost predicate GraphOf(g: Graph, ci: CompressionIndex, words: seq<string>) {
    AllUsable(ci, words) && GraphOk(g, Keys(ci, words), |words|)
  }

  lemma LastLetterInHash(ci: CompressionIndex, w: string)
    requires Usable(ci, w)
    ensures KeyOf(ci, w).hash[KeyOf(ci, w).to]
  {
    HashBits(ci, w, KeyOf(ci, w).to);
    assert Known(ci, w[|w| - 1]);
  }

  lemma GraphIsWellFormed(g: Graph, ci: CompressionIndex, words: seq<string>)
    requires GraphOf(g, ci, words)
    ensures WellFormed(g)
  {
    var keys := Keys(ci, words);
    forall v: BoxIndex, e | e in g[v].outgoing ensures e.hash[e.to] {
      assert NodeOk(g[v].outgoing, v, keys, |words|);
      var j :| 0 <= j < |g[v].outgoing| && g[v].outgoing[j] == e;
      assert EdgeOk(e, v, keys, |words|);
      var i := e.variants[0];
      assert i in e.variants;
      assert Usable(ci, words[i]);
      LastLetterInHash(ci, words[i]);
    }
    forall v: BoxIndex ensures Distinct(g[v].outgoing) {
      NodeEdgesDistinct(g[v].outgoing, v, keys, |words|);
    }
  }

  lemma NodeEdgesDistinct(es: seq<Edge>, v: BoxIndex, keys: seq<WordKey>, n: nat)
    requires n <= |keys| && NodeOk(es, v, keys, n)
    ensures Distinct(es)
  {
    forall j, k | 0 <= j < k < |es| ensures es[j] != es[k] {
      assert !SameEdge(es[k], es[j].to, es[j].hash);
    }
  }

  /** Word i is filed in the j-th edge of node v. */
  predicate FiledIn(g: Graph, v: BoxIndex, j: nat, i: nat) {
    j < |g[v].outgoing| && i in g[v].outgoing[j].variants
  }

  /** Every word is filed in exactly one edge, at the node of its first letter. */
  lemma EveryWordOnce(g: Graph, ci: CompressionIndex, words: seq<string>, i: nat)
    requires GraphOf(g, ci, words) && i < |words|
    ensures Usable(ci, words[i])
    ensures
      var key := KeyOf(ci, words[i]);
      exists j: nat :: FiledIn(g, key.from, j, i) && SameEdge(g[key.from].outgoing[j], key.to, key.hash) &&
        forall v: BoxIndex, k: nat :: FiledIn(g, v, k, i) ==> v == key.from && k == j
  {
    var keys := Keys(ci, words);
    var key := KeyOf(ci, words[i]);
    var es := g[key.from].outgoing;
    assert NodeOk(es, key.from, keys, |words|) && keys[i] == key;
    assert Filed(es, key);
    var j: nat :| j < |es| && SameEdge(es[j], key.to, key.hash);
    assert EdgeOk(es[j], key.from, keys, |words|);
    assert FiledIn(g, key.from, j, i);
    forall v: BoxIndex, k: nat | FiledIn(g, v, k, i) ensures v == key.from && k == j {
      FiledByKey(g, ci, words, v, k, i);
      OneEdgePerKey(es, key.from, keys, |words|, j, k);
    }
  }

  lemma OneEdgePerKey(es: seq<Edge>, v: BoxIndex, keys: seq<WordKey>, n: nat, j: nat, k: nat)
    requires n <= |keys| && NodeOk(es, v, keys, n)
    requires j < |es| && k < |es| && es[j].to == es[k].to && es[j].hash == es[k].hash
    ensures j == k
  {
  }

  lemma FiledByKey(g: Graph, ci: CompressionIndex, words: seq<string>, v: BoxIndex, j: nat, i: nat)
    requires GraphOf(g, ci, words) && FiledIn(g, v, j, i)
    ensures i < |words| && Usable(ci, words[i])
    ensures KeyOf(ci, words[i]) == WordKey(v, g[v].outgoing[j].to, g[v].outgoing[j].hash)
  {
    assert NodeOk(g[v].outgoing, v, Keys(ci, words), |words|);
    assert EdgeOk(g[v].outgoing[j], v, Keys(ci, words), |words|);
  }

  // ----- walks and word chains

  /** Word k of ws has the key of the walk's step k + 1. */
  predicate Step(ci: CompressionIndex, p: seq<Edge>, ws: seq<string>, k: nat)
    requires k < |ws| && |p| == |ws| + 1
  {
    Usable(ci, ws[k]) && KeyOf(ci, ws[k]) == WordKey(p[k].to, p[k + 1].to, p[k + 1].hash)
  }

  predicate Realizes(ci: CompressionIndex, p: seq<Edge>, ws: seq<string>) {
    |p| == |ws| + 1 && forall k :: 0 <= k < |ws| ==> Step(ci, p, ws, k)
  }

  lemma {:induction false} HashOfBits(p: seq<Edge>, b: nat)
    requires b < MASK_BITS
    ensures HashOf(p)[b] <==> exists k :: 0 <= k < |p| && p[k].hash[b]
  {
    if p != [] {
      HashOfBits(p[..|p| - 1], b);
    }
  }

  lemma {:induction false} RouterStart(g: Graph, p: seq<Edge>)
    requires Trail(g, p) && p != []
    ensures p[0] == RouterEdge(p[0].to)
  {
    assert p[..0] == [];
    assert p[0] in Options(g, []);
  }

  /** The letters of the words are the bits of the walk. */
  lemma BitsAreLetters(g: Graph, ci: CompressionIndex, box: string, p: seq<Edge>, ws: seq<string>, b: BoxIndex)
    requires IsBox(box) && Compresses(ci, box) && Realizes(ci, p, ws) && Trail(g, p)
    ensures HashOf(p)[b] <==> Occurs(ws, box[b])
  {
    HashOfBits(p, b);
    RouterStart(g, p);
    forall k | 0 <= k < |ws| ensures p[k + 1].hash[b] <==> box[b] in ws[k] {
      assert Step(ci, p, ws, k);
      LetterBit(ci, box, ws[k], b);
    }
    if HashOf(p)[b] {
      var k :| 0 <= k < |p| && p[k].hash[b];
      assert box[b] in ws[k - 1];
    }
    if Occurs(ws, box[b]) {
      var k :| 0 <= k < |ws| && box[b] in ws[k];
      assert p[k + 1].hash[b];
    }
  }

  lemma LetterBit(ci: CompressionIndex, box: string, w: string, b: BoxIndex)
    requires IsBox(box) && Compresses(ci, box) && Usable(ci, w)
    ensures Hash(ci, w)[b] <==> box[b] in w
  {
    HashBits(ci, w, b);
    if Hash(ci, w)[b] {
      var k :| 0 <= k < |w| && Known(ci, w[k]) && ci[Idx(w[k])] == b;
      PlaceIsIndex(ci, box, w[k]);
    }
    if box[b] in w {
      var k :| 0 <= k < |w| && w[k] == box[b];
      assert Known(ci, w[k]);
      PlaceIsIndex(ci, box, w[k]);
      assert Place(box, w[k]) == b;
    }
  }

  lemma UsableIsPlayable(ci: CompressionIndex, box: string, w: string)
    requires IsBox(box) && Compresses(ci, box) && Lowercase(w)
    ensures Usable(ci, w) <==> Playable(box, w)
  {
    if w != "" {
      KeptIsPlayable(ci, box, w);
      if Usable(ci, w) {
        assert Known(ci, w[0]);
        PlaceIsIndex(ci, box, w[0]);
      }
    }
  }

  /** A realized walk of the graph is a chain of playable words. */
  lemma RealizedIsLinked(ci: CompressionIndex, box: string, p: seq<Edge>, ws: seq<string>)
    requires IsBox(box) && Compresses(ci, box) && Realizes(ci, p, ws)
    ensures forall k :: 0 <= k < |ws| ==> Playable(box, ws[k])
    ensures Linked(ws)
  {
    forall k | 0 <= k < |ws| ensures Playable(box, ws[k]) {
      assert Step(ci, p, ws, k);
      UsableIsPlayable(ci, box, ws[k]);
    }
    forall k | 0 < k < |ws| ensures Meets(ws, k) {
      assert Step(ci, p, ws, k - 1) && Step(ci, p, ws, k);
      FirstAndLast(ci, ws[k - 1]);
      FirstAndLast(ci, ws[k]);
      PlaceIsIndex(ci, box, ws[k - 1][|ws[k - 1]| - 1]);
      PlaceIsIndex(ci, box, ws[k][0]);
    }
  }

  /** Words that realize a covering walk solve the box. */
  lemma RealizedSolves(
    g: Graph, ci: CompressionIndex, box: string, words: seq<string>, p: seq<Edge>, ws: seq<string>)
    requires IsBox(box) && Compresses(ci, box)
    requires Covering(g, p) && Realizes(ci, p, ws) && forall k :: 0 <= k < |ws| ==> ws[k] in words
    ensures Solves(box, words, ws)
  {
    RealizedIsLinked(ci, box, p, ws);
    forall i | 0 <= i < |box| ensures Occurs(ws, box[i]) {
      BitsAreLetters(g, ci, box, p, ws, i);
    }
  }

  // ----- from words to a walk

  /** The edge of a word in the graph. */
  lemma EdgeOfWord(g: Graph, ci: CompressionIndex, words: seq<string>, w: string) returns (e: Edge)
    requires GraphOf(g, ci, words) && w in words
    ensures Usable(ci, w)
    ensures e in g[KeyOf(ci, w).from].outgoing && SameEdge(e, KeyOf(ci, w).to, KeyOf(ci, w).hash)
  {
    var i: nat :| i < |words| && words[i] == w;
    EveryWordOnce(g, ci, words, i);
    var key := KeyOf(ci, w);
    var j: nat :| FiledIn(g, key.from, j, i) && SameEdge(g[key.from].outgoing[j], key.to, key.hash);
    e := g[key.from].outgoing[j];
  }

  /** Does w start with the letter c ends with? */
  lemma LinkedKeys(ci: CompressionIndex, w: string, w': string)
    requires Usable(ci, w) && Usable(ci, w') && w[|w| - 1] == w'[0]
    ensures KeyOf(ci, w).to == KeyOf(ci, w').from
  {
    FirstAndLast(ci, w);
    FirstAndLast(ci, w');
  }

  lemma RealizesMore(ci: CompressionIndex, p: seq<Edge>, ws: seq<string>, e: Edge, w: string)
    requires Realizes(ci, p, ws) && Usable(ci, w) && KeyOf(ci, w) == WordKey(p[|p| - 1].to, e.to, e.hash)
    ensures Realizes(ci, p + [e], ws + [w])
  {
    var q, us := p + [e], ws + [w];
    forall k | 0 <= k < |us| ensures Step(ci, q, us, k) {
      if k < |ws| {
        assert Step(ci, p, ws, k);
      }
    }
  }

  /** A linked list of words has a walk. */
  lemma {:induction false} WalkOf(g: Graph, ci: CompressionIndex, words: seq<string>, ws: seq<string>)
    returns (p: seq<Edge>)
    requires GraphOf(g, ci, words) && ws != [] && forall k :: 0 <= k < |ws| ==> ws[k] in words && ws[k] != ""
    requires Linked(ws)
    ensures Trail(g, p) && Realizes(ci, p, ws)
  {
    hide GraphOf, Trail, Realizes, Usable, KeyOf;
    var n := |ws| - 1;
    var w := ws[n];
    var e := EdgeOfWord(g, ci, words, w);
    if n == 0 {
      p := StartAt(g, ci, w);
    } else {
      var before := ws[n - 1];
      assert Meets(ws, n);
      assert forall k :: 0 < k < n ==> Meets(ws, k) ==> Meets(ws[..n], k);
      p := WalkOf(g, ci, words, ws[..n]);
      LastStep(ci, p, ws[..n]);
      LinkedKeys(ci, before, w);
    }
    OptionsAtEnd(g, p);
    TrailStep(g, p, e);
    RealizesMore(ci, p, ws[..n], e, w);
    assert ws == ws[..n] + [w];
    p := p + [e];
  }

  lemma StartAt(g: Graph, ci: CompressionIndex, w: string) returns (p: seq<Edge>)
    requires Usable(ci, w)
    ensures Trail(g, p) && Realizes(ci, p, []) && p == [RouterEdge(KeyOf(ci, w).from)]
  {
    p := [RouterEdge(KeyOf(ci, w).from)];
    AnyStart(g, KeyOf(ci, w).from);
  }

  lemma LastStep(ci: CompressionIndex, p: seq<Edge>, ws: seq<string>)
    requires Realizes(ci, p, ws) && ws != []
    ensures Usable(ci, ws[|ws| - 1]) && |p| > 1 && p[|p| - 1].to == KeyOf(ci, ws[|ws| - 1]).to
  {
    assert Step(ci, p, ws, |ws| - 1);
  }

  lemma OptionsAtEnd(g: Graph, p: seq<Edge>)
    requires p != []
    ensures Options(g, p) == g[p[|p| - 1].to].outgoing
  {
  }

  /** A solution with words of the list has a covering walk, one step longer. */
  lemma SolutionHasWalk(g: Graph, ci: CompressionIndex, box: string, words: seq<string>, ws: seq<string>)
    returns (p: seq<Edge>)
    requires IsBox(box) && Compresses(ci, box) && GraphOf(g, ci, words) && Solves(box, words, ws)
    ensures Covering(g, p) && |p| == |ws| + 1 && Realizes(ci, p, ws)
  {
    p := WalkOf(g, ci, words, ws);
    hide Trail, Realizes, GraphOf, HashOf, Linked, AllPlayable, Compresses, Occurs;
    forall b: BoxIndex ensures HashOf(p)[b] {
      BitsAreLetters(g, ci, box, p, ws, b);
      assert Occurs(ws, box[b]);
    }
    AllBits(HashOf(p));
  }

  lemma AllBits(m: Mask)
    requires forall b: BoxIndex :: m[b]
    ensures m == SOLUTION_MASK
  {
  }
}
