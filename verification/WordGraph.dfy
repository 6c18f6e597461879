/** The word graph: equivalent words share an edge, and the solutions of the search are traced back to words. */
module WordGraph {
  import opened Settings
  import opened Puzzle
  import opened Index
  import opened Solver

  // ----- filing words as edges

  /** What makes words equivalent: first letter, last letter and mask. */
  datatype WordKey = WordKey(from: BoxIndex, to: BoxIndex, hash: Mask)

  /** The edge holds exactly the words of its key among the first n, in order. */
  ghost predicate EdgeOk(e: Edge, v: BoxIndex, keys: seq<WordKey>, n: nat)
    requires n <= |keys|
  {
    && e.variants != []
    && (forall j, k :: 0 <= j < k < |e.variants| ==> e.variants[j] < e.variants[k])
    && (forall i :: i in e.variants ==> i < n)
    && forall i :: 0 <= i < n ==> (i in e.variants <==> keys[i] == WordKey(v, e.to, e.hash))
  }

  predicate FirstBefore(d: Edge, e: Edge) {
    d.variants != [] && e.variants != [] && d.variants[0] < e.variants[0]
  }

  predicate SameEdge(e: Edge, to: BoxIndex, hash: Mask) {
    e.hash == hash && e.to == to
  }

  ghost predicate Filed(es: seq<Edge>, key: WordKey) {
    exists j :: 0 <= j < |es| && SameEdge(es[j], key.to, key.hash)
  }

  /** The edges of a node file every word that starts with its letter in exactly one place, by first word. */
  ghost predicate NodeOk(es: seq<Edge>, v: BoxIndex, keys: seq<WordKey>, n: nat)
    requires n <= |keys|
  {
    && (forall j :: 0 <= j < |es| ==> EdgeOk(es[j], v, keys, n))
    && (forall j, k :: 0 <= j < k < |es| ==> !SameEdge(es[k], es[j].to, es[j].hash))
    && (forall j, k :: 0 <= j < k < |es| ==> FirstBefore(es[j], es[k]))
    && (forall i :: 0 <= i < n && keys[i].from == v ==> Filed(es, keys[i]))
  }

  ghost predicate GraphOk(nodes: seq<Node>, keys: seq<WordKey>, n: nat)
    requires n <= |keys|
  {
    |nodes| == BOX_CHARS &&
    forall v: BoxIndex :: nodes[v].compressedIdx == v && NodeOk(nodes[v].outgoing, v, keys, n)
  }

  /** `find_if` over the edges of a node. */
  function FindEdge(es: seq<Edge>, to: BoxIndex, hash: Mask): (j: nat)
    ensures j <= |es|
    ensures j < |es| ==> SameEdge(es[j], to, hash)
    ensures forall k :: 0 <= k < j ==> !SameEdge(es[k], to, hash)
  {
    if es == [] then 0
    else if SameEdge(es[0], to, hash) then 0
    else
      var j := 1 + FindEdge(es[1..], to, hash);
      assert forall k :: 1 <= k < |es| ==> es[k] == es[1..][k - 1];
      j
  }

  /** The node's edges with one more word. */
  function WithWord(es: seq<Edge>, to: BoxIndex, hash: Mask, i: nat): seq<Edge> {
    var j := FindEdge(es, to, hash);
    if j == |es| then es + [Edge(hash, to, [i])] else es[j := es[j].(variants := es[j].variants + [i])]
  }

  lemma OtherKey(e: Edge, v: BoxIndex, keys: seq<WordKey>, n: nat)
    requires n < |keys| && EdgeOk(e, v, keys, n) && keys[n] != WordKey(v, e.to, e.hash)
    ensures EdgeOk(e, v, keys, n + 1)
  {
  }

  lemma SameKey(e: Edge, v: BoxIndex, keys: seq<WordKey>, n: nat)
    requires n < |keys| && EdgeOk(e, v, keys, n) && keys[n] == WordKey(v, e.to, e.hash)
    ensures EdgeOk(e.(variants := e.variants + [n]), v, keys, n + 1)
  {
    var longer := e.variants + [n];
    assert forall k :: 0 <= k < |e.variants| ==> e.variants[k] in e.variants;
    assert forall i :: i in longer <==> i in e.variants || i == n;
  }

  lemma NewKey(es: seq<Edge>, v: BoxIndex, keys: seq<WordKey>, n: nat)
    requires n < |keys| && NodeOk(es, v, keys, n) && keys[n].from == v
    requires forall k :: 0 <= k < |es| ==> !SameEdge(es[k], keys[n].to, keys[n].hash)
    ensures EdgeOk(Edge(keys[n].hash, keys[n].to, [n]), v, keys, n + 1)
  {
    forall i | 0 <= i < n ensures keys[i] != keys[n] {
      assert keys[i].from == v ==> Filed(es, keys[i]);
    }
  }

  lemma FiledStays(es: seq<Edge>, es': seq<Edge>, key: WordKey)
    requires Filed(es, key) && |es| <= |es'|
    requires forall k :: 0 <= k < |es| ==> es'[k].to == es[k].to && es'[k].hash == es[k].hash
    ensures Filed(es', key)
  {
    var j :| 0 <= j < |es| && SameEdge(es[j], key.to, key.hash);
    assert SameEdge(es'[j], key.to, key.hash);
  }

  lemma NodeStep(es: seq<Edge>, v: BoxIndex, keys: seq<WordKey>, n: nat)
    requires n < |keys| && NodeOk(es, v, keys, n) && keys[n].from == v
    ensures NodeOk(WithWord(es, keys[n].to, keys[n].hash, n), v, keys, n + 1)
  {
    hide EdgeOk, FindEdge, Filed;
    var key := keys[n];
    var j, es' := FindEdge(es, key.to, key.hash), WithWord(es, key.to, key.hash, n);
    forall k | 0 <= k < |es'| ensures EdgeOk(es'[k], v, keys, n + 1) {
      if k == |es| {
        NewKey(es, v, keys, n);
      } else if k == j {
        SameKey(es[k], v, keys, n);
      } else {
        assert !(SameEdge(es[k], key.to, key.hash) && j < |es|);
        OtherKey(es[k], v, keys, n);
      }
    }
    forall k | 0 <= k < |es| ensures es[k].variants != [] && es[k].variants[0] < n {
      VariantsBelow(es[k], v, keys, n);
    }
    forall i | 0 <= i < n + 1 && keys[i].from == v ensures Filed(es', keys[i]) {
      if i < n {
        FiledStays(es, es', keys[i]);
      } else {
        FiledAt(es', j, key);
      }
    }
  }

  lemma VariantsBelow(e: Edge, v: BoxIndex, keys: seq<WordKey>, n: nat)
    requires n <= |keys| && EdgeOk(e, v, keys, n)
    ensures e.variants != [] && e.variants[0] < n
  {
    assert e.variants[0] in e.variants;
  }

  lemma FiledAt(es: seq<Edge>, j: nat, key: WordKey)
    requires j < |es| && SameEdge(es[j], key.to, key.hash)
    ensures Filed(es, key)
  {
  }

  lemma OtherNode(es: seq<Edge>, v: BoxIndex, keys: seq<WordKey>, n: nat)
    requires n < |keys| && NodeOk(es, v, keys, n) && keys[n].from != v
    ensures NodeOk(es, v, keys, n + 1)
  {
    hide EdgeOk;
    forall k | 0 <= k < |es| ensures EdgeOk(es[k], v, keys, n + 1) {
      OtherKey(es[k], v, keys, n);
    }
  }

  lemma GraphStep(nodes: seq<Node>, keys: seq<WordKey>, n: nat)
    requires n < |keys| && GraphOk(nodes, keys, n)
    ensures
      var key := keys[n];
      var es := WithWord(nodes[key.from].outgoing, key.to, key.hash, n);
      GraphOk(nodes[key.from := nodes[key.from].(outgoing := es)], keys, n + 1)
  {
    hide NodeOk, WithWord;
    forall v: BoxIndex | v != keys[n].from ensures NodeOk(nodes[v].outgoing, v, keys, n + 1) {
      OtherNode(nodes[v].outgoing, v, keys, n);
    }
    NodeStep(nodes[keys[n].from].outgoing, keys[n].from, keys, n);
  }

  // ----- building the graph

  /** A word that can be an edge: not empty, box letters only, no two neighbours on one side. */
  predicate Usable(ci: CompressionIndex, w: string) {
    w != "" && Lowercase(w) && AllKnown(ci, w) && Passes(ci, w)
  }

  predicate AllUsable(ci: CompressionIndex, words: seq<string>) {
    forall k :: 0 <= k < |words| ==> Usable(ci, words[k])
  }

  function NodeAt(ci: CompressionIndex, c: char): BoxIndex
    requires Known(ci, c)
  {
    ci[Idx(c)]
  }

  function KeyOf(ci: CompressionIndex, w: string): WordKey
    requires Usable(ci, w)
  {
    assert Known(ci, w[0]) && Known(ci, w[|w| - 1]);
    WordKey(NodeAt(ci, w[0]), NodeAt(ci, w[|w| - 1]), Hash(ci, w))
  }

  function Keys(ci: CompressionIndex, words: seq<string>): (keys: seq<WordKey>)
    requires AllUsable(ci, words)
    ensures |keys| == |words| && forall k :: 0 <= k < |words| ==> keys[k] == KeyOf(ci, words[k])
  {
    seq(|words|, k requires 0 <= k < |words| => KeyOf(ci, words[k]))
  }

  method InitNodes() returns (nodes: array<Node>)
    ensures fresh(nodes) && GraphOk(nodes[..], [], 0)
  {
    nodes := new Node[BOX_CHARS](_ => Node(0, []));
    for i := 0 to nodes.Length
      invariant forall v :: 0 <= v < i ==> nodes[v] == Node(v, [])
    {
      nodes[i] := Node(i, []);
    }
  }

  /** Files every word in the graph: in exactly one edge, that of its first letter, last letter and mask. */
  method BuildGraph(ci: CompressionIndex, words: seq<string>, wordHashes: seq<Mask>, nodes: array<Node>)
    requires AllUsable(ci, words) && |wordHashes| == |words|
    requires forall k :: 0 <= k < |words| ==> wordHashes[k] == Hash(ci, words[k])
    requires GraphOk(nodes[..], [], 0)
    modifies nodes
    ensures GraphOk(nodes[..], Keys(ci, words), |words|)
  {
    hide NodeOk, Hash, Passes, AllKnown, WithWord;
    ghost var keys := Keys(ci, words);
    NoWords(nodes[..], keys);
    for i := 0 to |words|
      invariant GraphOk(nodes[..], keys, i)
    {
      GraphStep(nodes[..], keys, i);
      var w := words[i];
      FirstAndLast(ci, w);
      var to := NodeAt(ci, w[|w| - 1]);
      var hash := wordHashes[i];
      var from := NodeAt(ci, w[0]);
      var prevOutgoing := nodes[from].outgoing;
      var found := FindEdge(prevOutgoing, to, hash);
      WithWordCases(prevOutgoing, to, hash, i);
      ghost var before := nodes[..];
      if found == |prevOutgoing| {
        nodes[from] := nodes[from].(outgoing := prevOutgoing + [Edge(hash, to, [i])]);
      } else {
        var edge := prevOutgoing[found];
        nodes[from] := nodes[from].(outgoing := prevOutgoing[found := edge.(variants := edge.variants + [i])]);
      }
      assert nodes[..] == before[from := before[from].(outgoing := WithWord(prevOutgoing, to, hash, i))];
    }
  }

  lemma FirstAndLast(ci: CompressionIndex, w: string)
    requires Usable(ci, w)
    ensures Known(ci, w[0]) && Known(ci, w[|w| - 1])
  {
  }

  lemma NoWords(nodes: seq<Node>, keys: seq<WordKey>)
    requires GraphOk(nodes, [], 0)
    ensures GraphOk(nodes, keys, 0)
  {
    forall v: BoxIndex ensures NodeOk(nodes[v].outgoing, v, keys, 0) {
      assert NodeOk(nodes[v].outgoing, v, [], 0);
      forall k | 0 <= k < |nodes[v].outgoing| ensures EdgeOk(nodes[v].outgoing[k], v, keys, 0) {
        assert EdgeOk(nodes[v].outgoing[k], v, [], 0);
      }
    }
  }

  lemma WithWordCases(es: seq<Edge>, to: BoxIndex, hash: Mask, i: nat)
    ensures
      var j := FindEdge(es, to, hash);
      WithWord(es, to, hash, i) ==
      if j == |es| then es + [Edge(hash, to, [i])] else es[j := es[j].(variants := es[j].variants + [i])]
  {
  }
}
