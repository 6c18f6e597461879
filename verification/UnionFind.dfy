/**
  Union-find with path halving. Pair merges make the larger root the parent, group merges always the
  root of the group's first member; either way the structure represents the partition generated by
  everything merged so far.
 */
module UnionFind {

  // ----- the partition: the equivalence generated by the merged pairs

  predicate Edge(pairs: seq<(nat, nat)>, x: nat, y: nat) {
    (x, y) in pairs || (y, x) in pairs
  }

  ghost predicate Chain(pairs: seq<(nat, nat)>, c: seq<nat>) {
    c != [] && forall k :: 0 <= k < |c| - 1 ==> Edge(pairs, c[k], c[k + 1])
  }

  /** x and y are related by the reflexive, symmetric and transitive closure of the pairs. */
  ghost predicate Linked(pairs: seq<(nat, nat)>, x: nat, y: nat) {
    exists c :: Chain(pairs, c) && c[0] == x && c[|c| - 1] == y
  }

  lemma LinkedRefl(pairs: seq<(nat, nat)>, x: nat)
    ensures Linked(pairs, x, x)
  {
    assert Chain(pairs, [x]);
  }

  lemma LinkedTrans(pairs: seq<(nat, nat)>, x: nat, y: nat, z: nat)
    requires Linked(pairs, x, y) && Linked(pairs, y, z)
    ensures Linked(pairs, x, z)
  {
    var c :| Chain(pairs, c) && c[0] == x && c[|c| - 1] == y;
    var d :| Chain(pairs, d) && d[0] == y && d[|d| - 1] == z;
    var e := c + d[1..];
    forall k | 0 <= k < |e| - 1 ensures Edge(pairs, e[k], e[k + 1]) {
      if k < |c| - 1 {
        assert Edge(pairs, c[k], c[k + 1]);
      } else {
        assert Edge(pairs, d[k - |c| + 1], d[k - |c| + 2]);
      }
    }
    assert Chain(pairs, e);
  }

  lemma LinkedMore(pairs: seq<(nat, nat)>, more: seq<(nat, nat)>, x: nat, y: nat)
    requires Linked(pairs, x, y) && forall p :: p in pairs ==> p in more
    ensures Linked(more, x, y)
  {
    var c :| Chain(pairs, c) && c[0] == x && c[|c| - 1] == y;
    forall k | 0 <= k < |c| - 1 ensures Edge(more, c[k], c[k + 1]) {
      assert Edge(pairs, c[k], c[k + 1]);
    }
    assert Chain(more, c);
  }

  lemma LinkedEdge(pairs: seq<(nat, nat)>, x: nat, y: nat)
    requires Edge(pairs, x, y)
    ensures Linked(pairs, x, y)
  {
    assert Chain(pairs, [x, y]);
  }

  /** rep maps every index to a representative of its class. */
  ghost predicate Represents(pairs: seq<(nat, nat)>, rep: seq<nat>) {
    && (forall p :: p in pairs ==> p.0 < |rep| && p.1 < |rep|)
    && (forall i, j :: 0 <= i < |rep| && 0 <= j < |rep| ==> (rep[i] == rep[j] <==> Linked(pairs, i, j)))
  }

  /** The class of `from` joins the class of `to`. */
  function Redirect(rep: seq<nat>, from: nat, to: nat): (r: seq<nat>)
    ensures |r| == |rep| && forall i :: 0 <= i < |r| ==> r[i] == if rep[i] == from then to else rep[i]
  {
    seq(|rep|, i requires 0 <= i < |rep| => if rep[i] == from then to else rep[i])
  }

  lemma {:induction false} ChainKeepsRep(pairs: seq<(nat, nat)>, rep: seq<nat>, c: seq<nat>)
    requires Chain(pairs, c) && c[0] < |rep|
    requires forall p :: p in pairs ==> p.0 < |rep| && p.1 < |rep| && rep[p.0] == rep[p.1]
    ensures c[|c| - 1] < |rep| && rep[c[0]] == rep[c[|c| - 1]]
  {
    if |c| > 1 {
      assert Edge(pairs, c[0], c[1]);
      forall k | 0 <= k < |c[1..]| - 1 ensures Edge(pairs, c[1..][k], c[1..][k + 1]) {
        assert Edge(pairs, c[k + 1], c[k + 1 + 1]);
      }
      ChainKeepsRep(pairs, rep, c[1..]);
    }
  }

  /** Joining the classes of x and y represents the equivalence generated with the pair (x, y) added. */
  lemma RedirectRepresents(pairs: seq<(nat, nat)>, rep: seq<nat>, x: nat, y: nat, from: nat, to: nat)
    requires Represents(pairs, rep) && x < |rep| && y < |rep|
    requires (from, to) == (rep[x], rep[y]) || (from, to) == (rep[y], rep[x])
    ensures Represents(pairs + [(x, y)], Redirect(rep, from, to))
  {
    var pairs', rep' := pairs + [(x, y)], Redirect(rep, from, to);
    forall p | p in pairs' ensures p.0 < |rep| && p.1 < |rep| && rep'[p.0] == rep'[p.1] {
      if p in pairs {
        LinkedEdge(pairs, p.0, p.1);
      }
    }
    forall i, j | 0 <= i < |rep| && 0 <= j < |rep| ensures rep'[i] == rep'[j] <==> Linked(pairs', i, j) {
      if Linked(pairs', i, j) {
        var c :| Chain(pairs', c) && c[0] == i && c[|c| - 1] == j;
        ChainKeepsRep(pairs', rep', c);
      }
      if rep'[i] == rep'[j] {
        SameRepLinked(pairs, rep, x, y, from, to, i, j);
      }
    }
  }

  lemma SameRepLinked(pairs: seq<(nat, nat)>, rep: seq<nat>, x: nat, y: nat, from: nat, to: nat, i: nat, j: nat)
    requires Represents(pairs, rep) && x < |rep| && y < |rep| && i < |rep| && j < |rep|
    requires (from, to) == (rep[x], rep[y]) || (from, to) == (rep[y], rep[x])
    requires Redirect(rep, from, to)[i] == Redirect(rep, from, to)[j]
    ensures Linked(pairs + [(x, y)], i, j)
  {
    var pairs' := pairs + [(x, y)];
    if rep[i] == rep[j] {
      LinkedMore(pairs, pairs', i, j);
    } else {
      assert Edge(pairs', x, y) && Edge(pairs', y, x);
      LinkedEdge(pairs', x, y);
      LinkedEdge(pairs', y, x);
      if rep[i] == rep[x] {
        LinkedMore(pairs, pairs', i, x);
        LinkedMore(pairs, pairs', y, j);
        LinkedTrans(pairs', i, x, y);
        LinkedTrans(pairs', i, y, j);
      } else {
        LinkedMore(pairs, pairs', i, y);
        LinkedMore(pairs, pairs', x, j);
        LinkedTrans(pairs', i, y, x);
        LinkedTrans(pairs', i, x, j);
      }
    }
  }

  lemma NoPairs(rep: seq<nat>)
    requires forall i :: 0 <= i < |rep| ==> rep[i] == i
    ensures Represents([], rep)
  {
    forall i, j | 0 <= i < |rep| && 0 <= j < |rep| ensures rep[i] == rep[j] <==> Linked([], i, j) {
      if Linked([], i, j) {
        var c :| Chain([], c) && c[0] == i && c[|c| - 1] == j;
        ChainKeepsRep([], rep, c);
      }
      if i == j {
        LinkedRefl([], i);
      }
    }
  }

  // ----- the forest

  /**
    The parent links lead from every index to its representative, which is a root; ranks strictly
    decrease along them, so there is no cycle.
   */
  ghost predicate Forest(parent: seq<nat>, rep: seq<nat>, rank: seq<nat>) {
    && |parent| == |rep| == |rank|
    && forall i :: 0 <= i < |parent| ==> TreeNode(parent, rep, rank, i)
  }

  ghost predicate TreeNode(parent: seq<nat>, rep: seq<nat>, rank: seq<nat>, i: nat)
    requires i < |parent| == |rep| == |rank|
  {
    && parent[i] < |parent| && rep[i] < |parent|
    && rep[parent[i]] == rep[i] && parent[rep[i]] == rep[i]
    && (if parent[i] == i then rep[i] == i else rank[parent[i]] < rank[i])
  }

  ghost function Class(rep: seq<nat>, r: nat): (s: set<nat>)
    ensures forall i :: i in s <==> 0 <= i < |rep| && rep[i] == r
  {
    set i: nat | i < |rep| && rep[i] == r
  }

  /** Every root's size entry is the size of its class. */
  ghost predicate Sized(parent: seq<nat>, rep: seq<nat>, sizes: seq<nat>) {
    |sizes| == |rep| == |parent| && forall r :: 0 <= r < |rep| && parent[r] == r ==> sizes[r] == |Class(rep, r)|
  }

  /** One halving: an index is linked to its grandparent. */
  lemma HalvingKeepsForest(parent: seq<nat>, rep: seq<nat>, rank: seq<nat>, r: nat)
    requires Forest(parent, rep, rank) && r < |parent|
    ensures parent[r] < |parent| && parent[parent[r]] < |parent|
    ensures
      var parent' := parent[r := parent[parent[r]]];
      && Forest(parent', rep, rank)
      && (forall i :: 0 <= i < |parent| ==> (parent'[i] == i <==> parent[i] == i))
      && (parent'[parent'[r]] != parent'[r] ==> rank[parent'[r]] < rank[r])
  {
    assert TreeNode(parent, rep, rank, r);
    assert TreeNode(parent, rep, rank, parent[r]);
    var parent' := parent[r := parent[parent[r]]];
    forall i | 0 <= i < |parent| ensures TreeNode(parent', rep, rank, i) {
      assert TreeNode(parent, rep, rank, i);
    }
    assert TreeNode(parent, rep, rank, parent'[r]);
  }

  /** k links up from x. */
  ghost function Climb(parent: seq<nat>, x: nat, k: nat): nat {
    if k == 0 then x
    else
      var y := Climb(parent, x, k - 1);
      if y < |parent| then parent[y] else y
  }

  /** x is now linked along every second index of its old path to the root. */
  ghost predicate Halved(before: seq<nat>, after: seq<nat>, x: nat) {
    forall k :: 0 <= k ==> Climb(after, x, k) == Climb(before, x, 2 * k)
  }

  /** The first j halvings from x are done and have led to r; everything from r on is as before. */
  ghost predicate HalvedTo(before: seq<nat>, now: seq<nat>, rank: seq<nat>, x: nat, r: nat, j: nat) {
    && |now| == |before| == |rank| && r < |now|
    && (forall i :: 0 <= i <= j ==> Climb(now, x, i) == Climb(before, x, 2 * i))
    && (forall i :: 0 <= i < j ==> Climb(now, x, i) < |now| && rank[Climb(now, x, i)] > rank[r])
    && Climb(now, x, j) == r
    && (forall i :: 0 <= i < |now| && rank[i] <= rank[r] ==> now[i] == before[i])
  }

  lemma {:induction false} ClimbSame(p: seq<nat>, q: seq<nat>, x: nat, k: nat, r: nat)
    requires |q| == |p| && forall i :: 0 <= i < |p| && i != r ==> q[i] == p[i]
    requires forall i :: 0 <= i < k ==> Climb(p, x, i) != r
    ensures Climb(q, x, k) == Climb(p, x, k)
  {
    if k > 0 {
      ClimbSame(p, q, x, k - 1, r);
    }
  }

  lemma HalveNext(
    before: seq<nat>, now: seq<nat>, rep: seq<nat>, rank: seq<nat>, x: nat, r: nat, j: nat)
    requires HalvedTo(before, now, rank, x, r, j) && Forest(now, rep, rank)
    ensures now[r] < |now| && now[now[r]] < |now|
    ensures
      var after := now[r := now[now[r]]];
      after[after[r]] != after[r] ==> HalvedTo(before, after, rank, x, after[r], j + 1)
    ensures
      var after := now[r := now[now[r]]];
      after[after[r]] == after[r] ==> Halved(before, after, x)
  {
    HalvingKeepsForest(now, rep, rank, r);
    assert TreeNode(now, rep, rank, r) && TreeNode(now, rep, rank, now[r]);
    var after := now[r := now[now[r]]];
    forall i | 0 <= i <= j ensures Climb(after, x, i) == Climb(before, x, 2 * i) {
      ClimbSame(now, after, x, i, r);
    }
    assert Climb(after, x, j + 1) == after[r];
    assert Climb(before, x, 2 * j + 1) == before[r] && Climb(before, x, 2 * j + 2) == before[before[r]];
    if after[after[r]] == after[r] {
      forall k | 0 <= k ensures Climb(after, x, k) == Climb(before, x, 2 * k) {
        if k > j {
          RootStays(after, x, j + 1, k, after[r]);
          RootStays(before, x, 2 * j + 2, 2 * k, after[r]);
        }
      }
    } else {
      forall i | 0 <= i <= j ensures Climb(after, x, i) < |after| && rank[Climb(after, x, i)] > rank[after[r]] {
        ClimbSame(now, after, x, i, r);
      }
    }
  }

  lemma HalvingStarts(parent: seq<nat>, rank: seq<nat>, x: nat)
    requires x < |parent| == |rank|
    ensures HalvedTo(parent, parent, rank, x, x, 0)
  {
  }

  lemma {:induction false} RootStays(p: seq<nat>, x: nat, j: nat, k: nat, root: nat)
    requires j <= k && root < |p| && p[root] == root && Climb(p, x, j) == root
    ensures Climb(p, x, k) == root
    decreases k
  {
    if j < k {
      RootStays(p, x, j, k - 1, root);
    }
  }

  /** The ranks after root `child` is linked below root `top`: its whole tree moves down. */
  ghost function Lowered(rep: seq<nat>, rank: seq<nat>, child: nat, top: nat): (r: seq<nat>)
    requires |rank| == |rep| && top < |rank|
    ensures |r| == |rank|
  {
    seq(|rank|, i requires 0 <= i < |rank| => if rep[i] == child then rank[i] + rank[top] + 1 else rank[i])
  }

  lemma LinkKeepsForest(parent: seq<nat>, rep: seq<nat>, rank: seq<nat>, child: nat, top: nat)
    requires Forest(parent, rep, rank) && child < |parent| && top < |parent| && child != top
    requires parent[child] == child && parent[top] == top
    ensures Forest(parent[child := top], Redirect(rep, child, top), Lowered(rep, rank, child, top))
  {
    var parent', rep', rank' := parent[child := top], Redirect(rep, child, top), Lowered(rep, rank, child, top);
    assert TreeNode(parent, rep, rank, child) && TreeNode(parent, rep, rank, top);
    forall i | 0 <= i < |parent| ensures TreeNode(parent', rep', rank', i) {
      assert TreeNode(parent, rep, rank, i);
      assert TreeNode(parent, rep, rank, parent[i]);
    }
  }

  lemma LinkKeepsSizes(parent: seq<nat>, rep: seq<nat>, rank: seq<nat>, sizes: seq<nat>, child: nat, top: nat)
    requires Forest(parent, rep, rank) && Sized(parent, rep, sizes)
    requires child < |parent| && top < |parent| && child != top && parent[child] == child && parent[top] == top
    ensures Sized(parent[child := top], Redirect(rep, child, top), sizes[top := sizes[top] + sizes[child]])
  {
    var rep' := Redirect(rep, child, top);
    forall r | 0 <= r < |rep| && parent[child := top][r] == r
      ensures sizes[top := sizes[top] + sizes[child]][r] == |Class(rep', r)|
    {
      if r == top {
        assert Class(rep', top) == Class(rep, top) + Class(rep, child);
        assert Class(rep, top) !! Class(rep, child);
      } else {
        assert Class(rep', r) == Class(rep, r);
      }
    }
  }

  /** The pairs a group merge stands for: everything is related to the first member. */
  function GroupPairs(group: seq<nat>): seq<(nat, nat)> {
    if group == [] then [] else seq(|group|, k requires 0 <= k < |group| => (group[0], group[k]))
  }

  lemma GroupPairsStep(group: seq<nat>, k: nat)
    requires k < |group|
    ensures GroupPairs(group)[..k + 1] == GroupPairs(group)[..k] + [(group[0], group[k])]
  {
  }

  /** Some member of the group has representative r. */
  ghost predicate InGroup(rep: seq<nat>, group: seq<nat>, r: nat) {
    exists k :: 0 <= k < |group| && group[k] < |rep| && rep[group[k]] == r
  }

  lemma InGroupStep(rep: seq<nat>, group: seq<nat>, k: nat)
    requires k < |group| && group[k] < |rep|
    ensures forall r :: InGroup(rep, group[..k + 1], r) <==> InGroup(rep, group[..k], r) || rep[group[k]] == r
  {
    forall r ensures InGroup(rep, group[..k + 1], r) <==> InGroup(rep, group[..k], r) || rep[group[k]] == r {
      if InGroup(rep, group[..k], r) {
        var j :| 0 <= j < k && group[..k][j] < |rep| && rep[group[..k][j]] == r;
        assert group[..k + 1][j] == group[j];
      }
      assert group[..k + 1][k] == group[k];
      if InGroup(rep, group[..k + 1], r) && rep[group[k]] != r {
        var j :| 0 <= j < k + 1 && group[..k + 1][j] < |rep| && rep[group[..k + 1][j]] == r;
        assert group[..k][j] == group[j];
      }
    }
  }

  lemma SelfRedirect(rep: seq<nat>, r: nat)
    ensures Redirect(rep, r, r) == rep
  {
  }

  // ----- listings

  /** The members of class r among the first n indices, ascending. */
  ghost function Members(rep: seq<nat>, r: nat, n: nat): (s: seq<nat>)
    requires n <= |rep|
    ensures forall i :: i in s <==> 0 <= i < n && rep[i] == r
    ensures forall j, k :: 0 <= j < k < |s| ==> s[j] < s[k]
  {
    if n == 0 then []
    else
      var m := Members(rep, r, n - 1);
      assert forall k :: 0 <= k < |m| ==> m[k] in m;
      if rep[n - 1] == r then m + [n - 1] else m
  }

  class UnionFind {
    const parent: array<nat>
    const sizes: array<nat>
    ghost var rep: seq<nat>
    ghost var rank: seq<nat>
    ghost var merged: seq<(nat, nat)>

    ghost predicate Valid()
      reads this, parent, sizes
    {
      && parent != sizes && parent.Length == sizes.Length == |rep|
      && Forest(parent[..], rep, rank)
      && Sized(parent[..], rep, sizes[..])
      && Represents(merged, rep)
    }

    constructor (n: nat)
      ensures Valid() && parent.Length == n && merged == []
      ensures fresh(parent) && fresh(sizes)
    {
      parent := new nat[n];
      sizes := new nat[n];
      rep := seq(n, i => i);
      rank := seq(n, i => 0);
      merged := [];
      new;
      for i := 0 to n
        invariant rep == seq(n, i => i) && rank == seq(n, i => 0) && merged == []
        invariant forall k :: 0 <= k < i ==> parent[k] == k && sizes[k] == 1
      {
        parent[i] := i;
        sizes[i] := 1;
      }
      NoPairs(rep);
      forall r | 0 <= r < n ensures |Class(rep, r)| == 1 {
        assert Class(rep, r) == {r};
      }
    }

    /** The root of x's class; on the way every other node is linked to its grandparent, which halves the path. */
    method Find(x: nat) returns (r: nat)
      requires Valid() && x < parent.Length
      modifies parent
      ensures Valid() && r == rep[x] && r < parent.Length && parent[r] == r
      ensures forall i :: 0 <= i < parent.Length ==> (parent[i] == i <==> old(parent[i]) == i)
      ensures Halved(old(parent[..]), parent[..], x)
    {
      hide HalvedTo, Halved, Climb;
      r := x;
      ghost var j := 0;
      HalvingStarts(parent[..], rank, x);
      while true
        invariant HalvedTo(old(parent[..]), parent[..], rank, x, r, j)
        invariant r < parent.Length && rep[r] == rep[x]
        invariant Forest(parent[..], rep, rank)
        invariant forall i :: 0 <= i < parent.Length ==> (parent[i] == i <==> old(parent[i]) == i)
        decreases rank[r]
      {
        ghost var before := parent[..];
        HalvingKeepsForest(before, rep, rank, r);
        HalveNext(old(parent[..]), before, rep, rank, x, r, j);
        j := j + 1;
        assert TreeNode(before, rep, rank, r);
        assert TreeNode(before, rep, rank, before[r]);
        parent[r] := parent[parent[r]];
        assert parent[..] == before[r := before[before[r]]];
        r := parent[r];
        if parent[r] == r {
          break;
        }
      }
      assert TreeNode(parent[..], rep, rank, r);
    }

    /** Joins the classes of lhs and rhs under the larger of their roots. */
    method MergePair(lhs: nat, rhs: nat)
      requires Valid() && lhs < parent.Length && rhs < parent.Length
      modifies this, parent, sizes
      ensures Valid() && merged == old(merged) + [(lhs, rhs)]
      ensures rep == if old(rep[lhs]) <= old(rep[rhs])
                     then Redirect(old(rep), old(rep[lhs]), old(rep[rhs]))
                     else Redirect(old(rep), old(rep[rhs]), old(rep[lhs]))
    {
      var child := Find(lhs);
      var top := Find(rhs);
      RedirectRepresents(merged, rep, lhs, rhs, child, top);
      if child == top {
        SelfRedirect(rep, child);
        merged := merged + [(lhs, rhs)];
        return;
      }
      if top < child {
        RedirectRepresents(merged, rep, lhs, rhs, top, child);
        child, top := top, child;
      }
      hide Represents;
      Link(child, top);
      merged := merged + [(lhs, rhs)];
    }

    /** Hangs root `child` below root `top`. */
    method Link(child: nat, top: nat)
      requires parent != sizes && parent.Length == sizes.Length
      requires Forest(parent[..], rep, rank) && Sized(parent[..], rep, sizes[..])
      requires child < parent.Length && top < parent.Length && child != top
      requires parent[child] == child && parent[top] == top
      modifies this`rep, this`rank, parent, sizes
      ensures Forest(parent[..], rep, rank) && Sized(parent[..], rep, sizes[..])
      ensures rep == Redirect(old(rep), child, top)
      ensures parent[top] == top
    {
      LinkKeepsForest(parent[..], rep, rank, child, top);
      LinkKeepsSizes(parent[..], rep, rank, sizes[..], child, top);
      ghost var p, z := parent[..], sizes[..];
      parent[child] := top;
      sizes[top] := sizes[top] + sizes[child];
      assert parent[..] == p[child := top] && sizes[..] == z[top := z[top] + z[child]];
      rank := Lowered(rep, rank, child, top);
      rep := Redirect(rep, child, top);
    }

    /** Hangs node's root below `root`, the root of `first`, unless it is the same. */
    method Absorb(root: nat, first: nat, node: nat)
      requires Valid() && first < parent.Length && node < parent.Length
      requires root == rep[first] && root < parent.Length && parent[root] == root
      modifies this, parent, sizes
      ensures Valid() && merged == old(merged) + [(first, node)]
      ensures rep == Redirect(old(rep), old(rep[node]), root)
      ensures root == rep[first] && parent[root] == root
    {
      hide Forest, Sized, Represents;
      var nodeRoot := Find(node);
      RedirectRepresents(merged, rep, first, node, nodeRoot, root);
      if nodeRoot == root {
        SelfRedirect(rep, root);
      } else {
        Link(nodeRoot, root);
      }
      merged := merged + [(first, node)];
    }

    /** Joins the classes of all members under the root of the first. */
    method MergeGroup(group: seq<nat>)
      requires Valid() && forall k :: 0 <= k < |group| ==> group[k] < parent.Length
      modifies this, parent, sizes
      ensures Valid() && merged == old(merged) + GroupPairs(group)
      ensures |rep| == old(|rep|)
      ensures group == [] ==> rep == old(rep) && parent[..] == old(parent[..]) && sizes[..] == old(sizes[..])
      ensures group != [] ==> forall i :: 0 <= i < |rep| ==>
                rep[i] == if InGroup(old(rep), group, old(rep[i])) then old(rep[group[0]]) else old(rep[i])
    {
      if group == [] {
        return;
      }
      var root := Find(group[0]);
      ghost var before, was := merged, rep;
      hide Forest, Sized, Represents;
      for k := 0 to |group|
        invariant Valid() && merged == before + GroupPairs(group)[..k]
        invariant root == rep[group[0]] && root < parent.Length && parent[root] == root
        invariant |rep| == |was| && forall i :: 0 <= i < |rep| ==>
                    rep[i] == if was[i] == root || InGroup(was, group[..k], was[i]) then root else was[i]
      {
        InGroupStep(was, group, k);
        GroupPairsStep(group, k);
        Absorb(root, group[0], group[k]);
      }
      assert group[..|group|] == group;
    }

    /** Two indices have the same root exactly when the merges made so far relate them. */
    method SameClass(x: nat, y: nat) returns (same: bool)
      requires Valid() && x < parent.Length && y < parent.Length
      modifies parent
      ensures Valid()
      ensures same <==> Linked(merged, x, y)
    {
      var rx := Find(x);
      var ry := Find(y);
      same := rx == ry;
    }

    method Roots() returns (r: seq<nat>)
      requires Valid()
      ensures forall i :: i in r <==> 0 <= i < parent.Length && parent[i] == i
      ensures forall j, k :: 0 <= j < k < |r| ==> r[j] < r[k]
    {
      r := [];
      for i := 0 to parent.Length
        invariant forall k :: k in r <==> 0 <= k < i && parent[k] == k
        invariant forall j :: 0 <= j < |r| ==> r[j] < i
        invariant forall j, k :: 0 <= j < k < |r| ==> r[j] < r[k]
      {
        if parent[i] == i {
          r := r + [i];
        }
      }
    }

    /** The members of x's class, ascending. */
    method AllOf(x: nat) returns (r: seq<nat>)
      requires Valid() && x < parent.Length
      modifies parent
      ensures Valid() && r == Members(rep, rep[x], |rep|)
    {
      hide *;
      ValidLength();
      var root := Find(x);
      r := [];
      NoMembers(rep, root);
      for i := 0 to parent.Length
        invariant Valid() && parent.Length == |rep| && r == Members(rep, root, i)
      {
        var p := Find(i);
        MembersStep(rep, root, i);
        if p == root {
          r := r + [i];
        }
      }
    }

    /** The classes, each ascending: one list per representative, and every index in one of them. */
    method All() returns (r: seq<seq<nat>>, ghost keys: seq<nat>)
      requires Valid()
      modifies parent
      ensures Valid() && |keys| == |r|
      ensures forall g :: 0 <= g < |r| ==> r[g] == Members(rep, keys[g], |rep|) && r[g] != []
      ensures forall g, h :: 0 <= g < h < |keys| ==> keys[g] != keys[h]
      ensures forall i :: 0 <= i < |rep| ==> rep[i] in keys
      ensures ByFirst(r)
    {
      hide *;
      r, keys := [], [];
      var groups: map<nat, nat> := map[];
      ghost var n := parent.Length;
      ListingStart(rep);
      ValidLength();
      for i := 0 to parent.Length
        invariant Valid() && |rep| == n && Listing(rep, r, keys, groups, i)
      {
        var p := Find(i);
        if p in groups {
          ListingOld(rep, r, keys, groups, i);
          r := r[groups[p] := r[groups[p]] + [i]];
        } else {
          ListingNew(rep, r, keys, groups, i);
          groups := groups[p := |r|];
          r := r + [[i]];
          keys := keys + [p];
        }
      }
      ListingEnd(rep, r, keys, groups);
    }

    lemma ValidLength()
      requires Valid()
      ensures |rep| == parent.Length
    {
    }
  }

  /** The lists are in the order of their first members. */
  ghost predicate ByFirst(r: seq<seq<nat>>) {
    forall g, h :: 0 <= g < h < |r| && r[g] != [] && r[h] != [] ==> r[g][0] < r[h][0]
  }

  /** r lists the classes of the first n indices, and groups says where each one's list is. */
  ghost predicate Listing(rep: seq<nat>, r: seq<seq<nat>>, keys: seq<nat>, groups: map<nat, nat>, n: nat) {
    && |keys| == |r| && n <= |rep|
    && (forall g :: 0 <= g < |r| ==> r[g] == Members(rep, keys[g], n) && r[g] != [])
    && (forall i :: 0 <= i < n ==> rep[i] in keys)
    && (forall k :: k in groups <==> k in keys)
    && (forall k :: k in groups ==> groups[k] < |keys| && keys[groups[k]] == k)
    && (forall g :: 0 <= g < |keys| ==> keys[g] in groups && groups[keys[g]] == g)
    && ByFirst(r)
  }

  lemma ListingStart(rep: seq<nat>)
    ensures Listing(rep, [], [], map[], 0)
  {
  }

  lemma NoMembers(rep: seq<nat>, r: nat)
    ensures Members(rep, r, 0) == []
  {
  }

  lemma MembersStep(rep: seq<nat>, r: nat, n: nat)
    requires n < |rep|
    ensures Members(rep, r, n + 1) == Members(rep, r, n) + if rep[n] == r then [n] else []
  {
  }

  /** Index n joins the list of a class already met. */
  lemma ListingOld(rep: seq<nat>, r: seq<seq<nat>>, keys: seq<nat>, groups: map<nat, nat>, n: nat)
    requires Listing(rep, r, keys, groups, n) && n < |rep| && rep[n] in groups
    ensures groups[rep[n]] < |r|
    ensures Listing(rep, r[groups[rep[n]] := r[groups[rep[n]]] + [n]], keys, groups, n + 1)
  {
    hide Members;
    forall g | 0 <= g < |r| ensures Members(rep, keys[g], n + 1) == if g == groups[rep[n]] then r[g] + [n] else r[g] {
      MembersStep(rep, keys[g], n);
    }
  }

  /** Index n opens a class of its own. */
  lemma ListingNew(rep: seq<nat>, r: seq<seq<nat>>, keys: seq<nat>, groups: map<nat, nat>, n: nat)
    requires Listing(rep, r, keys, groups, n) && n < |rep| && rep[n] !in groups
    ensures Listing(rep, r + [[n]], keys + [rep[n]], groups[rep[n] := |r|], n + 1)
  {
    hide Members;
    forall g | 0 <= g < |r| ensures r[g] != [] && r[g][0] < n {
      assert r[g][0] in Members(rep, keys[g], n);
    }
    NewClass(rep, rep[n], n);
    MembersStep(rep, rep[n], n);
    forall g | 0 <= g < |r| ensures Members(rep, keys[g], n + 1) == r[g] {
      MembersStep(rep, keys[g], n);
    }
    forall i | 0 <= i < n + 1 ensures rep[i] in keys + [rep[n]] {
    }
  }

  lemma ListingEnd(rep: seq<nat>, r: seq<seq<nat>>, keys: seq<nat>, groups: map<nat, nat>)
    requires Listing(rep, r, keys, groups, |rep|)
    ensures |keys| == |r|
    ensures forall g :: 0 <= g < |r| ==> r[g] == Members(rep, keys[g], |rep|) && r[g] != []
    ensures forall g, h :: 0 <= g < h < |keys| ==> keys[g] != keys[h]
    ensures forall i :: 0 <= i < |rep| ==> rep[i] in keys
    ensures ByFirst(r)
  {
  }

  lemma NewClass(rep: seq<nat>, p: nat, n: nat)
    requires n <= |rep| && forall k :: 0 <= k < n ==> rep[k] != p
    ensures Members(rep, p, n) == []
  {
    if Members(rep, p, n) != [] {
      assert Members(rep, p, n)[0] in Members(rep, p, n);
    }
  }
}
